/** Bytes as pairs of hexadecimal digits. */
module WkbHex {

  /** The digits, the most significant four bits first. */
  function Digit(n: bv8): char
    requires n < 16
  {
    if n == 0 then '0' else if n == 1 then '1' else if n == 2 then '2' else if n == 3 then '3'
    else if n == 4 then '4' else if n == 5 then '5' else if n == 6 then '6' else if n == 7 then '7'
    else if n == 8 then '8' else if n == 9 then '9' else if n == 10 then 'A' else if n == 11 then 'B'
    else if n == 12 then 'C' else if n == 13 then 'D' else if n == 14 then 'E' else 'F'
  }

  datatype Nibble = Invalid | Value(bits: bv8)

  /** Upper and lower case letters are digits alike. */
  function NibbleOf(c: char): Nibble {
    match c
    case '0' => Value(0)
    case '1' => Value(1)
    case '2' => Value(2)
    case '3' => Value(3)
    case '4' => Value(4)
    case '5' => Value(5)
    case '6' => Value(6)
    case '7' => Value(7)
    case '8' => Value(8)
    case '9' => Value(9)
    case 'A' => Value(10)
    case 'a' => Value(10)
    case 'B' => Value(11)
    case 'b' => Value(11)
    case 'C' => Value(12)
    case 'c' => Value(12)
    case 'D' => Value(13)
    case 'd' => Value(13)
    case 'E' => Value(14)
    case 'e' => Value(14)
    case 'F' => Value(15)
    case 'f' => Value(15)
    case _ => Invalid
  }

  ghost function HexOf(bytes: seq<bv8>): string {
    if bytes == [] then [] else HexOf(bytes[..|bytes| - 1]) + Pair(bytes[|bytes| - 1])
  }

  function Pair(c: bv8): string {
    [Digit(c >> 4), Digit(c & 0x0f)]
  }

  datatype Decoded = BadHex | Bytes(bytes: seq<bv8>)

  ghost function Unhex(hex: string): Decoded {
    if hex == [] then Bytes([])
    else if |hex| == 1 then BadHex
    else
      var front, high, low := Unhex(hex[..|hex| - 2]), NibbleOf(hex[|hex| - 2]), NibbleOf(hex[|hex| - 1]);
      if front == BadHex || high == Invalid || low == Invalid then BadHex
      else Bytes(front.bytes + [(high.bits << 4) + low.bits])
  }

  /** printHEX. */
  method PrintHEX(bytes: seq<bv8>) returns (hex: string)
    ensures hex == HexOf(bytes)
  {
    hide Pair;
    hex := [];
    var i := 0;
    while i < |bytes|
      invariant 0 <= i <= |bytes| && hex == HexOf(bytes[..i])
    {
      assert bytes[..i + 1][..i] == bytes[..i];
      hex := hex + Pair(bytes[i]);
      i := i + 1;
    }
    assert bytes[..i] == bytes;
  }

  /** The character that, read as a signed char, cannot be told from the end of the input. */
  const END: char := '\U{FF}'

  /** Where the input ends for a reader that takes pairs of characters from place i on. */
  ghost function EndFrom(hex: string, i: nat): (end: nat)
    requires i <= |hex|
    ensures i <= end <= |hex|
    decreases |hex| - i
  {
    if i == |hex| || hex[i] == END then i
    else if i + 1 == |hex| then |hex|
    else EndFrom(hex, i + 2)
  }

  /** What the hexadecimal form stands for: the bytes of its digits as far as the input goes. */
  ghost function Decoding(hex: string): Decoded {
    Unhex(hex[..EndFrom(hex, 0)])
  }

  /** The bytes behind the hexadecimal form; fails at the first character that is no digit, or if one is missing. */
  method DecodeHEX(hex: string) returns (decoded: Decoded)
    ensures decoded == Decoding(hex)
  {
    hide NibbleOf, Unhex;
    EmptyHex();
    var bytes := [];
    var i := 0;
    while i < |hex| && hex[i] != END
      invariant 0 <= i <= |hex| && i % 2 == 0 && EndFrom(hex, i) == EndFrom(hex, 0)
      invariant Unhex(hex[..i]) == Bytes(bytes)
    {
      ghost var read := hex[..EndFrom(hex, 0)];
      if i + 1 == |hex| {
        OddIsBad(read);
        return BadHex;
      }
      var high, low := NibbleOf(hex[i]), NibbleOf(hex[i + 1]);
      UnhexPair(bytes, hex[..i], hex[i..i + 2]);
      assert hex[..i] + hex[i..i + 2] == hex[..i + 2];
      if high == Invalid || low == Invalid {
        assert read[..i + 2] == hex[..i + 2];
        BadPrefix(read, i + 2);
        return BadHex;
      }
      bytes := bytes + [(high.bits << 4) + low.bits];
      i := i + 2;
    }
    return Bytes(bytes);
  }

  lemma EmptyHex()
    ensures Unhex([]) == Bytes([])
  {
  }

  /** A pair of characters more is a byte more. */
  lemma UnhexPair(front: seq<bv8>, hex: string, pair: string)
    requires Unhex(hex) == Bytes(front) && |pair| == 2
    ensures Unhex(hex + pair) ==
            var high, low := NibbleOf(pair[0]), NibbleOf(pair[1]);
            if high == Invalid || low == Invalid then BadHex else Bytes(front + [(high.bits << 4) + low.bits])
  {
    hide NibbleOf;
    assert (hex + pair)[..|hex|] == hex;
  }

  lemma {:induction false} OddIsBad(hex: string)
    requires |hex| % 2 == 1
    ensures Unhex(hex) == BadHex
  {
    if |hex| > 1 {
      OddIsBad(hex[..|hex| - 2]);
    }
  }

  lemma {:induction false} BadPrefix(hex: string, n: nat)
    requires n <= |hex| && n % 2 == 0 && Unhex(hex[..n]) == BadHex
    ensures Unhex(hex) == BadHex
  {
    hide NibbleOf;
    if |hex| % 2 == 1 {
      OddIsBad(hex);
    } else if n < |hex| {
      assert hex[..|hex| - 2][..n] == hex[..n];
      BadPrefix(hex[..|hex| - 2], n);
    } else {
      assert hex[..n] == hex;
    }
  }

  /** The digits in order, in the upper and in the lower case. */
  const UPPER := "0123456789ABCDEF"
  const LOWER := "0123456789abcdef"

  /** A digit stands for its place in order, in either case; nothing else is a digit. */
  lemma DigitsInOrder(c: char, n: bv8)
    requires n < 16
    ensures 0 <= n as int < 16 && Digit(n) == UPPER[n as int]
    ensures NibbleOf(c) == Value(n) <==> c == UPPER[n as int] || c == LOWER[n as int]
  {
  }

  /** Bytes are printed in their order. */
  lemma {:induction false} HexJoin(a: seq<bv8>, b: seq<bv8>)
    ensures HexOf(a + b) == HexOf(a) + HexOf(b)
  {
    hide Pair;
    if b == [] {
      assert a + b == a;
    } else {
      assert (a + b)[..|a + b| - 1] == a + b[..|b| - 1];
      HexJoin(a, b[..|b| - 1]);
    }
  }

  /** The digit of the sixteens comes before that of the ones. */
  lemma PairIsSixteensFirst(c: bv8)
    ensures c / 16 < 16 && Pair(c) == [Digit(c / 16), Digit(c % 16)]
  {
    hide Digit;
  }

  lemma DigitRead(n: bv8)
    requires n < 16
    ensures NibbleOf(Digit(n)) == Value(n)
  {
  }

  lemma PairRead(c: bv8)
    ensures |Pair(c)| == 2 && NibbleOf(Pair(c)[0]) == Value(c >> 4) && NibbleOf(Pair(c)[1]) == Value(c & 0x0f)
    ensures ((c >> 4) << 4) + (c & 0x0f) == c
  {
    hide NibbleOf, Digit;
    DigitRead(c >> 4);
    DigitRead(c & 0x0f);
  }

  /** Decoding the digits printed gives the bytes back. */
  lemma HexRoundTrip(bytes: seq<bv8>)
    ensures Decoding(HexOf(bytes)) == Bytes(bytes)
  {
    hide Unhex, HexOf;
    UnhexOfHex(bytes);
    NoEndInHex(bytes);
    NoEnd(HexOf(bytes), 0);
    assert HexOf(bytes)[..|HexOf(bytes)|] == HexOf(bytes);
  }

  lemma {:induction false} NoEnd(hex: string, i: nat)
    requires i <= |hex| && END !in hex
    ensures EndFrom(hex, i) == |hex|
    decreases |hex| - i
  {
    if i + 1 < |hex| {
      NoEnd(hex, i + 2);
    }
  }

  lemma {:induction false} NoEndInHex(bytes: seq<bv8>)
    ensures END !in HexOf(bytes)
  {
    hide Digit;
    if bytes != [] {
      NoEndInHex(bytes[..|bytes| - 1]);
      DigitIsNoEnd(bytes[|bytes| - 1] >> 4);
      DigitIsNoEnd(bytes[|bytes| - 1] & 0x0f);
    }
  }

  lemma DigitIsNoEnd(n: bv8)
    requires n < 16
    ensures Digit(n) != END
  {
  }

  /** Bytes after which the character comes in the high place are all that is read. */
  lemma EndCutsOff(bytes: seq<bv8>, rest: string)
    ensures Decoding(HexOf(bytes) + [END] + rest) == Bytes(bytes)
  {
    hide Unhex, HexOf;
    UnhexOfHex(bytes);
    NoEndInHex(bytes);
    HexIsEven(bytes);
    EndAt(HexOf(bytes), rest, 0);
    assert (HexOf(bytes) + [END] + rest)[..|HexOf(bytes)|] == HexOf(bytes);
  }

  lemma {:induction false} EndAt(hex: string, rest: string, i: nat)
    requires i <= |hex| && |hex| % 2 == i % 2 && END !in hex
    ensures EndFrom(hex + [END] + rest, i) == |hex|
    decreases |hex| - i
  {
    if i < |hex| {
      assert hex[i] in hex;
      EndAt(hex, rest, i + 2);
    }
  }

  lemma {:induction false} HexIsEven(bytes: seq<bv8>)
    ensures |HexOf(bytes)| % 2 == 0
  {
    if bytes != [] {
      HexIsEven(bytes[..|bytes| - 1]);
    }
  }

  lemma {:induction false} UnhexOfHex(bytes: seq<bv8>)
    ensures Unhex(HexOf(bytes)) == Bytes(bytes)
  {
    hide Pair, NibbleOf, Unhex;
    if bytes == [] {
      EmptyHex();
    } else {
      var front, last := bytes[..|bytes| - 1], bytes[|bytes| - 1];
      UnhexOfHex(front);
      PairRead(last);
      UnhexPair(front, HexOf(front), Pair(last));
    }
  }
}
