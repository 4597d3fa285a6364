/** Hexadecimal text as the scripts write it and JavaScript's `parseInt` reads it. */
module Hex {
  import opened Basics

  function Digit(n: nat): char
    requires n < 16
  {
    "0123456789abcdef"[n]
  }

  /** `b.toString(16).padStart(2, "0")`. */
  function ByteHex(b: byte): string {
    [Digit(b / 16), Digit(b % 16)]
  }

  function ToHex(bs: Bytes): (r: string)
    ensures |r| == 2 * |bs|
  {
    if bs == [] then [] else ByteHex(bs[0]) + ToHex(bs[1..])
  }

  /** `n.toString(16)`. */
  function NumberHex(n: nat): string {
    if n < 16 then [Digit(n)] else NumberHex(n / 16) + [Digit(n % 16)]
  }

  function PadStart(s: string, width: nat): string
    decreases width - |s|
  {
    if |s| >= width then s else PadStart(['0'] + s, width)
  }

  // ------------------------------------------------------------------
  // parseInt(s, 16)
  // ------------------------------------------------------------------

  function DigitValue(c: char): Option<nat> {
    if '0' <= c <= '9' then Some(c as int - '0' as int)
    else if 'a' <= c <= 'f' then Some(c as int - 'a' as int + 10)
    else if 'A' <= c <= 'F' then Some(c as int - 'A' as int + 10)
    else None
  }

  predicate IsSpace(c: char) {
    var n := c as int;
    || 9 <= n <= 13 || n == 0x20 || n == 0xA0 || n == 0x1680 || 0x2000 <= n <= 0x200A || n == 0x2028 || n == 0x2029
    || n == 0x202F || n == 0x205F || n == 0x3000 || n == 0xFEFF
  }

  function SkipSpace(s: string): string {
    if s != [] && IsSpace(s[0]) then SkipSpace(s[1..]) else s
  }

  /** The longest run of digits from the start, after those already read; nothing read counts as zero. */
  function ReadDigits(acc: nat, s: string): nat
    decreases s
  {
    if s != [] && DigitValue(s[0]).Some? then ReadDigits(16 * acc + DigitValue(s[0]).value, s[1..]) else acc
  }

  /** White space, a sign and a `0x` are skipped; text without digits gives NaN, which a byte array stores as 0. */
  function ParseInt(s: string): int {
    var t := SkipSpace(s);
    var unsigned := if t != [] && (t[0] == '+' || t[0] == '-') then t[1..] else t;
    var hasRadix := |unsigned| >= 2 && unsigned[0] == '0' && (unsigned[1] == 'x' || unsigned[1] == 'X');
    var digits := if hasRadix then unsigned[2..] else unsigned;
    if t != [] && t[0] == '-' then 0 - (ReadDigits(0, digits) as int) else ReadDigits(0, digits)
  }

  /** Decodes pair by pair; a last odd character falls outside the array and is dropped. */
  function Unhex(s: string): (r: Bytes)
    ensures |r| == |s| / 2
  {
    if |s| < 2 then [] else [ParseInt(s[..2]) % 256] + Unhex(s[2..])
  }

  lemma UnhexPair(pair: string, rest: string)
    requires |pair| == 2
    ensures Unhex(pair + rest) == [ParseInt(pair) % 256] + Unhex(rest)
  {
    hide ParseInt;
    assert (pair + rest)[..2] == pair && (pair + rest)[2..] == rest;
  }

  lemma UnhexStep(hex: string, i: nat, done: Bytes)
    requires i + 2 <= |hex|
    ensures done + Unhex(hex[i..]) == done + [ParseInt(hex[i..i + 2]) % 256] + Unhex(hex[i + 2..])
  {
    hide Unhex, ParseInt;
    assert hex[i..] == hex[i..i + 2] + hex[i + 2..];
    UnhexPair(hex[i..i + 2], hex[i + 2..]);
  }

  lemma UnhexRest(hex: string, i: nat)
    requires i <= |hex| <= i + 1
    ensures Unhex(hex[i..]) == []
  {
  }

  method HexToBytes(hex: string) returns (bytes: array<byte>)
    ensures fresh(bytes)
    ensures bytes[..] == Unhex(hex)
  {
    hide ParseInt, Unhex;
    bytes := new byte[|hex| / 2](_ => 0);
    var i := 0;
    assert hex[0..] == hex;
    while i < |hex|
      invariant 0 <= i <= |hex| + 1 && i % 2 == 0
      invariant i <= |hex| ==> bytes[..i / 2] + Unhex(hex[i..]) == Unhex(hex)
      invariant i == |hex| + 1 ==> bytes[..] == Unhex(hex)
    {
      if i + 2 <= |hex| {
        UnhexStep(hex, i, bytes[..i / 2]);
        bytes[i / 2] := ParseInt(hex[i..i + 2]) % 256;
        assert bytes[..(i + 2) / 2] == bytes[..i / 2] + [ParseInt(hex[i..i + 2]) % 256];
      } else {
        UnhexRest(hex, i);
        assert bytes[..i / 2] == bytes[..];
      }
      i := i + 2;
    }
    if i == |hex| {
      UnhexRest(hex, i);
      assert bytes[..i / 2] == bytes[..];
    }
  }

  lemma PairOfDigits(a: char, b: char)
    requires DigitValue(a).Some? && DigitValue(b).Some?
    ensures ParseInt([a, b]) == 16 * DigitValue(a).value + DigitValue(b).value
  {
    var s := [a, b];
    assert s[1..] == [b] && s[1..][1..] == [];
    assert ReadDigits(0, s) == ReadDigits(DigitValue(a).value, [b]);
    assert ReadDigits(DigitValue(a).value, [b]) == ReadDigits(16 * DigitValue(a).value + DigitValue(b).value, []);
  }

  lemma DigitRoundTrip(n: nat)
    requires n < 16
    ensures DigitValue(Digit(n)) == Some(n)
  {
  }

  lemma TwoDigits(hi: nat, lo: nat)
    requires hi < 16 && lo < 16
    ensures ParseInt([Digit(hi), Digit(lo)]) == 16 * hi + lo
  {
    DigitRoundTrip(hi);
    DigitRoundTrip(lo);
    PairOfDigits(Digit(hi), Digit(lo));
  }

  lemma {:induction false} UnhexAppend(a: string, b: string)
    requires |a| % 2 == 0
    ensures Unhex(a + b) == Unhex(a) + Unhex(b)
  {
    assert Unhex([]) == [];
    hide Unhex, ParseInt;
    if a == [] {
      assert a + b == b;
    } else {
      var pair, rest := a[..2], a[2..];
      assert a == pair + rest && a + b == pair + (rest + b);
      UnhexPair(pair, rest);
      UnhexPair(pair, rest + b);
      UnhexAppend(rest, b);
    }
  }

  /** Decoding undoes encoding. */
  lemma {:induction false} UnhexToHex(bs: Bytes)
    ensures Unhex(ToHex(bs)) == bs
  {
    hide ParseInt, Digit;
    if bs != [] {
      var s := ToHex(bs);
      assert s[..2] == ByteHex(bs[0]) && s[2..] == ToHex(bs[1..]);
      TwoDigits(bs[0] / 16, bs[0] % 16);
      UnhexToHex(bs[1..]);
    }
  }

  lemma FourDigits(a: nat, b: nat, c: nat, d: nat)
    requires a < 16 && b < 16 && c < 16 && d < 16
    ensures Unhex([Digit(a), Digit(b), Digit(c), Digit(d)]) == [16 * a + b, 16 * c + d]
  {
    hide ParseInt;
    var s := [Digit(a), Digit(b), Digit(c), Digit(d)];
    TwoDigits(a, b);
    TwoDigits(c, d);
    assert s[..2] == [Digit(a), Digit(b)] && s[2..] == [Digit(c), Digit(d)];
    assert s[2..][..2] == s[2..] && s[2..][2..] == [];
  }

  lemma PadToFour(n: nat)
    requires n < 0x1_0000
    ensures PadStart(NumberHex(n), 4)
            == [Digit(n / 16 / 16 / 16), Digit(n / 16 / 16 % 16), Digit(n / 16 % 16), Digit(n % 16)]
  {
    hide Digit;
    ZeroDigit();
    var one := [Digit(n % 16)];
    var two := [Digit(n / 16 % 16)] + one;
    var three := [Digit(n / 16 / 16 % 16)] + two;
    PadOnce(one);
    PadOnce(two);
    PadOnce(three);
    assert n >= 16 ==> NumberHex(n) == NumberHex(n / 16) + one;
    assert n >= 256 ==> NumberHex(n / 16) == NumberHex(n / 16 / 16) + [Digit(n / 16 % 16)];
    assert n >= 4096 ==> NumberHex(n / 16 / 16) == [Digit(n / 16 / 16 / 16)] + [Digit(n / 16 / 16 % 16)];
  }

  lemma PadOnce(s: string)
    requires |s| < 4
    ensures PadStart(s, 4) == PadStart(['0'] + s, 4)
  {
  }

  lemma ZeroDigit()
    ensures Digit(0) == '0'
  {
  }

  /** Four padded hex digits are the two big-endian bytes of a 16-bit number. */
  lemma PaddedLength(n: nat)
    requires n < 0x1_0000
    ensures |PadStart(NumberHex(n), 4)| == 4 && Unhex(PadStart(NumberHex(n), 4)) == [n / 256, n % 256]
  {
    hide Digit, NumberHex, PadStart, Unhex;
    PadToFour(n);
    FourDigits(n / 16 / 16 / 16, n / 16 / 16 % 16, n / 16 % 16, n % 16);
  }
}
