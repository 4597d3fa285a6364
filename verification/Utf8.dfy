/** UTF-8 as section 3 of RFC 3629 defines it and Rust's `from_utf8` checks it. */
module Utf8 {
  import opened Basics

  type Scalar = c: int | 0 <= c < 0xD800 || 0xE000 <= c < 0x11_0000

  type Text = seq<Scalar>

  // ------------------------------------------------------------------
  // Text as a string
  // ------------------------------------------------------------------

  function Scalars(s: string): (r: Text)
    ensures |r| == |s| && forall i :: 0 <= i < |s| ==> r[i] == s[i] as int
  {
    seq(|s|, i requires 0 <= i < |s| => s[i] as int)
  }

  function Chars(t: Text): (r: string)
    ensures |r| == |t| && forall i :: 0 <= i < |t| ==> r[i] == t[i] as char
  {
    seq(|t|, i requires 0 <= i < |t| => t[i] as char)
  }

  lemma CharsOfScalars(s: string)
    ensures Chars(Scalars(s)) == s
  {
  }

  lemma ScalarsOfChars(t: Text)
    ensures Scalars(Chars(t)) == t
  {
  }

  // ------------------------------------------------------------------
  // Decoding and encoding
  // ------------------------------------------------------------------

  predicate Continues(b: Bytes, i: nat) {
    i < |b| && 0x80 <= b[i] < 0xC0
  }

  /** Six payload bits of a continuation byte after those before it. */
  function Join(high: int, b: int): int {
    64 * high + (b - 0x80)
  }

  /** The first scalar value and the number of bytes it takes. */
  function DecodeOne(b: Bytes): (r: Option<(Scalar, nat)>)
    ensures r.Some? ==> 0 < r.value.1 <= |b|
  {
    if b == [] then None
    else if b[0] < 0x80 then Some((b[0], 1))
    else if b[0] < 0xC2 then None
    else if b[0] < 0xE0 then
      if Continues(b, 1) then Some((Join(b[0] as int - 0xC0, b[1]), 2)) else None
    else if b[0] < 0xF0 then
      if Continues(b, 1) && Continues(b, 2) && !(b[0] == 0xE0 && b[1] < 0xA0) && !(b[0] == 0xED && b[1] >= 0xA0)
      then Some((Join(Join(b[0] as int - 0xE0, b[1]), b[2]), 3)) else None
    else if b[0] < 0xF5 then
      if Continues(b, 1) && Continues(b, 2) && Continues(b, 3)
         && !(b[0] == 0xF0 && b[1] < 0x90) && !(b[0] == 0xF4 && b[1] >= 0x90)
      then Some((Join(Join(Join(b[0] as int - 0xF0, b[1]), b[2]), b[3]), 4)) else None
    else None
  }

  function Decode(b: Bytes): Option<Text>
    decreases |b|
  {
    if b == [] then Some([]) else
      match DecodeOne(b)
      case None => None
      case Some((c, n)) =>
        match Decode(b[n..])
        case None => None
        case Some(rest) => Some([c] + rest)
  }

  function EncodeOne(c: Scalar): (r: Bytes)
    ensures 0 < |r| <= 4
  {
    if c < 0x80 then [c]
    else if c < 0x800 then [0xC0 + c / 64, 0x80 + c % 64]
    else if c < 0x1_0000 then [0xE0 + c / 64 / 64, 0x80 + c / 64 % 64, 0x80 + c % 64]
    else [0xF0 + c / 64 / 64 / 64, 0x80 + c / 64 / 64 % 64, 0x80 + c / 64 % 64, 0x80 + c % 64]
  }

  function Encode(t: Text): Bytes {
    if t == [] then [] else EncodeOne(t[0]) + Encode(t[1..])
  }

  // ------------------------------------------------------------------
  // Decoding inverts encoding and accepts nothing else
  // ------------------------------------------------------------------

  lemma DecodeOneEncoded(c: Scalar, rest: Bytes)
    ensures DecodeOne(EncodeOne(c) + rest) == Some((c, |EncodeOne(c)|))
  {
    var e, b := EncodeOne(c), EncodeOne(c) + rest;
    assert b[0] == e[0];
    if c >= 0x80 { assert b[1] == e[1]; }
    if c >= 0x800 { assert b[2] == e[2]; }
    if c >= 0x1_0000 { assert b[3] == e[3]; }
  }

  lemma SplitJoin(high: int, b: int)
    requires 0x80 <= b < 0xC0
    ensures Join(high, b) / 64 == high && 0x80 + Join(high, b) % 64 == b
  {
  }

  lemma EncodeOneDecoded(b: Bytes)
    requires DecodeOne(b).Some?
    ensures EncodeOne(DecodeOne(b).value.0) == b[..DecodeOne(b).value.1]
  {
    var (c, n) := DecodeOne(b).value;
    if n == 2 {
      SplitJoin(b[0] as int - 0xC0, b[1]);
    } else if n == 3 {
      var high := Join(b[0] as int - 0xE0, b[1]);
      SplitJoin(b[0] as int - 0xE0, b[1]);
      SplitJoin(high, b[2]);
    } else if n == 4 {
      var high := Join(b[0] as int - 0xF0, b[1]);
      SplitJoin(b[0] as int - 0xF0, b[1]);
      SplitJoin(high, b[2]);
      SplitJoin(Join(high, b[2]), b[3]);
    }
  }

  lemma {:induction false} DecodeEncode(t: Text)
    ensures Decode(Encode(t)) == Some(t)
  {
    hide DecodeOne, EncodeOne;
    if t != [] {
      var b := Encode(t);
      assert b == EncodeOne(t[0]) + Encode(t[1..]);
      DecodeOneEncoded(t[0], Encode(t[1..]));
      DecodeEncode(t[1..]);
      assert b[|EncodeOne(t[0])|..] == Encode(t[1..]) && [t[0]] + t[1..] == t;
    }
  }

  lemma {:induction false} EncodeDecode(b: Bytes)
    requires Decode(b).Some?
    ensures Encode(Decode(b).value) == b
    decreases |b|
  {
    hide DecodeOne, EncodeOne;
    if b != [] {
      var n := DecodeOne(b).value.1;
      EncodeOneDecoded(b);
      EncodeDecode(b[n..]);
      assert b == b[..n] + b[n..];
    }
  }

  /** The decoder accepts exactly the encodings, and yields what was encoded. */
  lemma DecodesExactlyEncodings(b: Bytes, t: Text)
    ensures Decode(b) == Some(t) <==> b == Encode(t)
  {
    DecodeEncode(t);
    if Decode(b) == Some(t) { EncodeDecode(b); }
  }

  // ------------------------------------------------------------------
  // Byte order is code point order (section 1 of RFC 3629)
  // ------------------------------------------------------------------

  /** Different first scalars differ, in the same direction, at some byte both of them have. */
  lemma FirstDifference(a: Bytes, b: Bytes) returns (i: nat)
    requires DecodeOne(a).Some? && DecodeOne(b).Some? && DecodeOne(a).value.0 != DecodeOne(b).value.0
    ensures i < DecodeOne(a).value.1 && i < DecodeOne(b).value.1
    ensures a[..i] == b[..i] && a[i] != b[i]
    ensures CompareInt(a[i], b[i]) == CompareInt(DecodeOne(a).value.0, DecodeOne(b).value.0)
  {
    if a[0] != b[0] {
      i := 0;
    } else if a[1] != b[1] {
      i := 1;
    } else if a[2] != b[2] {
      i := 2;
    } else {
      i := 3;
    }
  }

  lemma SameFirst(a: Bytes, b: Bytes)
    requires DecodeOne(a).Some? && DecodeOne(b).Some? && DecodeOne(a).value.0 == DecodeOne(b).value.0
    ensures DecodeOne(a) == DecodeOne(b)
    ensures a[..DecodeOne(a).value.1] == b[..DecodeOne(b).value.1]
  {
    EncodeOneDecoded(a);
    EncodeOneDecoded(b);
  }

  /** For valid UTF-8, comparing bytes is comparing code points. */
  lemma {:induction false} OrderIsCodePointOrder(a: Bytes, b: Bytes)
    requires Decode(a).Some? && Decode(b).Some?
    ensures Compare(a, b) == Compare(Decode(a).value, Decode(b).value)
    decreases |a|
  {
    hide DecodeOne;
    if a != [] && b != [] {
      var (x, m) := DecodeOne(a).value;
      var (y, n) := DecodeOne(b).value;
      if x == y {
        SameFirst(a, b);
        OrderIsCodePointOrder(a[m..], b[n..]);
        ComparePrefix(a[..m], a[m..], b[n..]);
        assert a == a[..m] + a[m..] && b == a[..m] + b[n..];
      } else {
        var i := FirstDifference(a, b);
        CompareAt(a, b, i);
      }
    }
  }
}
