/** Integers and doubles as bytes, in either order. A double is its 64-bit pattern. */
module ByteOrderValues {

  datatype ByteOrder = BIG | LITTLE

  function Byte(v: bv32, shift: bv6): bv8
    requires shift <= 24
  {
    ((v >> shift) & 0xff) as bv8
  }

  function LongByte(v: bv64, shift: bv7): bv8
    requires shift <= 56
  {
    ((v >> shift) & 0xff) as bv8
  }

  /** The bytes of an int, as putInt lays them out. */
  ghost function IntBytes(v: bv32, order: ByteOrder): (b: seq<bv8>)
    ensures |b| == 4
  {
    if order == BIG then [Byte(v, 24), Byte(v, 16), Byte(v, 8), Byte(v, 0)]
    else [Byte(v, 0), Byte(v, 8), Byte(v, 16), Byte(v, 24)]
  }

  ghost function LongBytes(v: bv64, order: ByteOrder): (b: seq<bv8>)
    ensures |b| == 8
  {
    if order == BIG then
      [LongByte(v, 56), LongByte(v, 48), LongByte(v, 40), LongByte(v, 32),
       LongByte(v, 24), LongByte(v, 16), LongByte(v, 8), LongByte(v, 0)]
    else
      [LongByte(v, 0), LongByte(v, 8), LongByte(v, 16), LongByte(v, 24),
       LongByte(v, 32), LongByte(v, 40), LongByte(v, 48), LongByte(v, 56)]
  }

  function Word(b3: bv8, b2: bv8, b1: bv8, b0: bv8): bv32 {
    (b3 as bv32 << 24) | (b2 as bv32 << 16) | (b1 as bv32 << 8) | b0 as bv32
  }

  function LongWord(b7: bv8, b6: bv8, b5: bv8, b4: bv8, b3: bv8, b2: bv8, b1: bv8, b0: bv8): bv64 {
    (b7 as bv64 << 56) | (b6 as bv64 << 48) | (b5 as bv64 << 40) | (b4 as bv64 << 32)
    | (b3 as bv64 << 24) | (b2 as bv64 << 16) | (b1 as bv64 << 8) | b0 as bv64
  }

  function GetInt(buf: seq<bv8>, order: ByteOrder): bv32
    requires |buf| >= 4
  {
    if order == BIG then Word(buf[0], buf[1], buf[2], buf[3]) else Word(buf[3], buf[2], buf[1], buf[0])
  }

  function GetLong(buf: seq<bv8>, order: ByteOrder): bv64
    requires |buf| >= 8
  {
    if order == BIG then LongWord(buf[0], buf[1], buf[2], buf[3], buf[4], buf[5], buf[6], buf[7])
    else LongWord(buf[7], buf[6], buf[5], buf[4], buf[3], buf[2], buf[1], buf[0])
  }

  method PutInt(intValue: bv32, buf: array<bv8>, byteOrder: ByteOrder)
    requires buf.Length >= 4
    modifies buf
    ensures buf[..4] == IntBytes(intValue, byteOrder) && buf[4..] == old(buf[4..])
  {
    hide Byte;
    if byteOrder == BIG {
      buf[0] := Byte(intValue, 24);
      buf[1] := Byte(intValue, 16);
      buf[2] := Byte(intValue, 8);
      buf[3] := Byte(intValue, 0);
    } else {
      buf[3] := Byte(intValue, 24);
      buf[2] := Byte(intValue, 16);
      buf[1] := Byte(intValue, 8);
      buf[0] := Byte(intValue, 0);
    }
  }

  method PutLong(longValue: bv64, buf: array<bv8>, byteOrder: ByteOrder)
    requires buf.Length >= 8
    modifies buf
    ensures buf[..8] == LongBytes(longValue, byteOrder) && buf[8..] == old(buf[8..])
  {
    hide LongByte;
    if byteOrder == BIG {
      buf[0] := LongByte(longValue, 56);
      buf[1] := LongByte(longValue, 48);
      buf[2] := LongByte(longValue, 40);
      buf[3] := LongByte(longValue, 32);
      buf[4] := LongByte(longValue, 24);
      buf[5] := LongByte(longValue, 16);
      buf[6] := LongByte(longValue, 8);
      buf[7] := LongByte(longValue, 0);
    } else {
      buf[0] := LongByte(longValue, 0);
      buf[1] := LongByte(longValue, 8);
      buf[2] := LongByte(longValue, 16);
      buf[3] := LongByte(longValue, 24);
      buf[4] := LongByte(longValue, 32);
      buf[5] := LongByte(longValue, 40);
      buf[6] := LongByte(longValue, 48);
      buf[7] := LongByte(longValue, 56);
    }
    EightBytes(buf[..8]);
  }

  lemma EightBytes(b: seq<bv8>)
    requires |b| == 8
    ensures b == [b[0], b[1], b[2], b[3], b[4], b[5], b[6], b[7]]
  {
  }

  // ---------- round trips ----------

  lemma WordOfBytes(v: bv32)
    ensures Word(Byte(v, 24), Byte(v, 16), Byte(v, 8), Byte(v, 0)) == v
  {
  }

  lemma BytesOfWord(b3: bv8, b2: bv8, b1: bv8, b0: bv8)
    ensures var v := Word(b3, b2, b1, b0);
            Byte(v, 24) == b3 && Byte(v, 16) == b2 && Byte(v, 8) == b1 && Byte(v, 0) == b0
  {
  }

  lemma LongWordOfBytes(v: bv64)
    ensures LongWord(LongByte(v, 56), LongByte(v, 48), LongByte(v, 40), LongByte(v, 32),
                     LongByte(v, 24), LongByte(v, 16), LongByte(v, 8), LongByte(v, 0)) == v
  {
  }

  /** An int written is the int read, in either order, whatever follows. */
  lemma IntRoundTrip(v: bv32, order: ByteOrder, rest: seq<bv8>)
    ensures GetInt(IntBytes(v, order) + rest, order) == v
  {
    hide Word, Byte;
    WordOfBytes(v);
  }

  lemma LongRoundTrip(v: bv64, order: ByteOrder, rest: seq<bv8>)
    ensures GetLong(LongBytes(v, order) + rest, order) == v
  {
    hide LongWord, LongByte;
    LongWordOfBytes(v);
  }

  // ---------- counts as ints ----------

  /** A count narrowed to a 32-bit int. */
  function ToInt32(n: int): bv32 {
    Word((n / 0x100_0000 % 0x100) as bv8, (n / 0x1_0000 % 0x100) as bv8, (n / 0x100 % 0x100) as bv8, (n % 0x100) as bv8)
  }

  /** The number that a 32-bit int stands for. */
  function Signed(v: bv32): int {
    var u := ((Byte(v, 24) as int * 0x100 + Byte(v, 16) as int) * 0x100 + Byte(v, 8) as int) * 0x100 + Byte(v, 0) as int;
    if u < 0x8000_0000 then u else u - 0x1_0000_0000
  }

  lemma {:induction false} ByteNumbered(d: nat) returns (b: bv8)
    requires d < 0x100
    ensures b as int == d
  {
    if d == 0 {
      b := 0;
    } else {
      b := ByteNumbered(d - 1);
      b := b + 1;
    }
  }

  lemma ByteIsItsNumber(b: bv8)
    ensures (b as int) as bv8 == b
  {
  }

  lemma DigitAsByte(d: int)
    requires 0 <= d < 0x100
    ensures (d as bv8) as int == d
  {
    var b := ByteNumbered(d);
    ByteIsItsNumber(b);
  }

  lemma Digits(n: int)
    requires 0 <= n < 0x8000_0000
    ensures n == (((n / 0x100_0000 % 0x100) * 0x100 + n / 0x1_0000 % 0x100) * 0x100 + n / 0x100 % 0x100) * 0x100 + n % 0x100
  {
    assert n / 0x1_0000 == n / 0x100 / 0x100;
    assert n / 0x100_0000 == n / 0x1_0000 / 0x100;
  }

  /** A count that an int can hold survives. */
  lemma CountRoundTrip(n: int)
    requires 0 <= n < 0x8000_0000
    ensures Signed(ToInt32(n)) == n
  {
    hide Word, Byte;
    BytesOfWord((n / 0x100_0000 % 0x100) as bv8, (n / 0x1_0000 % 0x100) as bv8, (n / 0x100 % 0x100) as bv8, (n % 0x100) as bv8);
    DigitAsByte(n / 0x100_0000 % 0x100);
    DigitAsByte(n / 0x1_0000 % 0x100);
    DigitAsByte(n / 0x100 % 0x100);
    DigitAsByte(n % 0x100);
    Digits(n);
  }
}
