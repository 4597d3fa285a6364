/** Comparing proven values: raw bytes, UTF-8 text, or decimal numbers of 128 bits. */
module Conditions {
  import opened Basics
  import opened Errors
  import Utf8

  datatype ValueEncoding = RawBytes | Text | Numeric

  function CompareValues(actual: Bytes, threshold: Bytes, encoding: ValueEncoding): Result<Ordering, ContractError> {
    match encoding
    case RawBytes => Ok(Compare(actual, threshold))
    case Text =>
      if Utf8.Decode(actual).None? || Utf8.Decode(threshold).None? then Err(ValueDecodeError)
      else Ok(Compare(actual, threshold))
    case Numeric =>
      match (ParseU128(actual), ParseU128(threshold))
      case (Ok(a), Ok(b)) => Ok(CompareInt(a, b))
      case _ => Err(ValueDecodeError)
  }

  /** Text compares as bytes do, and that is the order of the code points. */
  lemma TextOrder(a: Bytes, b: Bytes)
    requires Utf8.Decode(a).Some? && Utf8.Decode(b).Some?
    ensures CompareValues(a, b, Text) == CompareValues(a, b, RawBytes)
            == Ok(Compare(Utf8.Decode(a).value, Utf8.Decode(b).value))
  {
    Utf8.OrderIsCodePointOrder(a, b);
  }

  // ------------------------------------------------------------------
  // parse_u128
  // ------------------------------------------------------------------

  /** The Unicode White_Space property, which Rust's `trim` uses. */
  predicate IsSpace(c: int) {
    || 9 <= c <= 13 || c == 0x20 || c == 0x85 || c == 0xA0 || c == 0x1680 || 0x2000 <= c <= 0x200A
    || c == 0x2028 || c == 0x2029 || c == 0x202F || c == 0x205F || c == 0x3000
  }

  predicate IsQuote(c: int) {
    c == 34
  }

  predicate IsDigit(c: int) {
    48 <= c <= 57
  }

  predicate All(p: int -> bool, t: seq<int>) {
    forall i :: 0 <= i < |t| ==> p(t[i])
  }

  function TrimStart(p: int -> bool, t: seq<int>): seq<int> {
    if t != [] && p(t[0]) then TrimStart(p, t[1..]) else t
  }

  function TrimEnd(p: int -> bool, t: seq<int>): seq<int> {
    if t != [] && p(t[|t| - 1]) then TrimEnd(p, t[..|t| - 1]) else t
  }

  function Trim(p: int -> bool, t: seq<int>): seq<int> {
    TrimEnd(p, TrimStart(p, t))
  }

  /** Rust's checked accumulation of decimal digits. */
  function ParseDigits(acc: nat, t: seq<int>): Option<nat>
    decreases t
  {
    if t == [] then Some(acc)
    else if !IsDigit(t[0]) || acc * 10 >= U128 || acc * 10 + (t[0] - 48) >= U128 then None
    else ParseDigits(acc * 10 + (t[0] - 48), t[1..])
  }

  /** `str::parse::<u128>`: digits after an optional plus sign. */
  function ParseInteger(t: seq<int>): Option<nat> {
    if t == [] then None
    else if t[0] == 43 && |t| > 1 then ParseDigits(0, t[1..])
    else ParseDigits(0, t)
  }

  function ParseU128(b: Bytes): Result<nat, ContractError> {
    match Utf8.Decode(b)
    case None => Err(ValueDecodeError)
    case Some(t) =>
      match ParseInteger(Trim(IsQuote, Trim(IsSpace, t)))
      case None => Err(ValueDecodeError)
      case Some(n) => Ok(n)
  }

  // ------------------------------------------------------------------
  // Decimal numerals
  // ------------------------------------------------------------------

  /** The number a run of digits denotes after those already read. */
  function Value(acc: nat, t: seq<int>): nat
    requires All(IsDigit, t)
    decreases t
  {
    if t == [] then acc else Value(acc * 10 + (t[0] - 48), t[1..])
  }

  lemma {:induction false} ValueGrows(acc: nat, t: seq<int>)
    requires All(IsDigit, t)
    ensures Value(acc, t) >= acc
    decreases t
  {
    if t != [] { ValueGrows(acc * 10 + (t[0] - 48), t[1..]); }
  }

  /** Digits parse to their value when it fits 128 bits, and to an error, never a wrapped value, when it does not. */
  lemma {:induction false} ParseDigitsExact(acc: nat, t: seq<int>)
    requires All(IsDigit, t) && acc < U128
    ensures ParseDigits(acc, t) == if Value(acc, t) < U128 then Some(Value(acc, t)) else None
    decreases t
  {
    if t != [] {
      var next := acc * 10 + (t[0] - 48);
      ValueGrows(next, t[1..]);
      if next < U128 { ParseDigitsExact(next, t[1..]); }
    }
  }

  lemma {:induction false} ValueAppend(acc: nat, t: seq<int>, d: int)
    requires All(IsDigit, t) && IsDigit(d)
    ensures All(IsDigit, t + [d]) && Value(acc, t + [d]) == 10 * Value(acc, t) + (d - 48)
    decreases t
  {
    if t == [] {
      assert t + [d] == [d];
    } else {
      assert (t + [d])[1..] == t[1..] + [d];
      ValueAppend(acc * 10 + (t[0] - 48), t[1..], d);
    }
  }

  /** The usual decimal text of a number. */
  function Decimal(n: nat): (r: Utf8.Text)
    ensures r != [] && All(IsDigit, r)
  {
    if n < 10 then [48 + n] else Decimal(n / 10) + [48 + n % 10]
  }

  lemma {:induction false} ValueOfDecimal(n: nat)
    ensures Value(0, Decimal(n)) == n
  {
    if n >= 10 {
      ValueOfDecimal(n / 10);
      ValueAppend(0, Decimal(n / 10), 48 + n % 10);
    }
  }

  function Zeros(k: nat): (r: Utf8.Text)
    ensures All(IsDigit, r) && |r| == k
  {
    if k == 0 then [] else [48] + Zeros(k - 1)
  }

  lemma ZeroFirst(t: seq<int>)
    requires All(IsDigit, t)
    ensures All(IsDigit, [48] + t) && Value(0, [48] + t) == Value(0, t)
  {
    assert ([48] + t)[1..] == t;
  }

  lemma {:induction false} LeadingZeros(k: nat, t: seq<int>)
    requires All(IsDigit, t)
    ensures All(IsDigit, Zeros(k) + t) && Value(0, Zeros(k) + t) == Value(0, t)
  {
    if k == 0 {
      assert Zeros(k) + t == t;
    } else {
      LeadingZeros(k - 1, t);
      var rest := Zeros(k - 1) + t;
      assert Zeros(k) + t == [48] + rest;
      ZeroFirst(rest);
    }
  }

  // ------------------------------------------------------------------
  // Trimming
  // ------------------------------------------------------------------

  lemma {:induction false} TrimStartSkips(p: int -> bool, pad: seq<int>, t: seq<int>)
    requires All(p, pad)
    ensures TrimStart(p, pad + t) == TrimStart(p, t)
  {
    if pad == [] {
      assert pad + t == t;
    } else {
      assert (pad + t)[1..] == pad[1..] + t;
      TrimStartSkips(p, pad[1..], t);
    }
  }

  lemma {:induction false} TrimEndSkips(p: int -> bool, t: seq<int>, pad: seq<int>)
    requires All(p, pad)
    ensures TrimEnd(p, t + pad) == TrimEnd(p, t)
  {
    if pad == [] {
      assert t + pad == t;
    } else {
      var n := |pad| - 1;
      assert (t + pad)[..|t| + n] == t + pad[..n] && (t + pad)[|t| + n] == pad[n];
      TrimEndSkips(p, t, pad[..n]);
    }
  }

  /** Trimming removes padding on both sides of a text whose ends are not padding. */
  lemma TrimPadded(p: int -> bool, before: seq<int>, t: seq<int>, after: seq<int>)
    requires All(p, before) && All(p, after) && t != [] && !p(t[0]) && !p(t[|t| - 1])
    ensures Trim(p, before + t + after) == t
  {
    assert before + t + after == before + (t + after);
    TrimStartSkips(p, before, t + after);
    TrimEndSkips(p, t, after);
  }

  lemma {:induction false} TrimStartSplits(p: int -> bool, t: seq<int>) returns (k: nat)
    ensures k <= |t| && All(p, t[..k]) && TrimStart(p, t) == t[k..]
  {
    if t != [] && p(t[0]) {
      var k' := TrimStartSplits(p, t[1..]);
      k := k' + 1;
      assert t[..k] == [t[0]] + t[1..][..k'];
    } else {
      k := 0;
    }
  }

  lemma {:induction false} TrimEndSplits(p: int -> bool, t: seq<int>) returns (k: nat)
    ensures k <= |t| && All(p, t[k..]) && TrimEnd(p, t) == t[..k]
  {
    if t != [] && p(t[|t| - 1]) {
      var init := t[..|t| - 1];
      k := TrimEndSplits(p, init);
      assert t[k..] == init[k..] + [t[|t| - 1]] && t[..k] == init[..k];
    } else {
      k := |t|;
    }
  }

  /** What trimming cuts off is padding. */
  lemma TrimSplits(p: int -> bool, t: seq<int>) returns (i: nat, j: nat)
    ensures i <= j <= |t| && Trim(p, t) == t[i..j] && All(p, t[..i]) && All(p, t[j..])
  {
    i := TrimStartSplits(p, t);
    var k := TrimEndSplits(p, t[i..]);
    j := i + k;
    assert t[i..][..k] == t[i..j] && t[i..][k..] == t[j..];
  }

  // ------------------------------------------------------------------
  // The law
  // ------------------------------------------------------------------

  /** Every way to write a number: white space around double quotes around an optional plus sign and digits. */
  datatype Spelling = Spelling(
    before: Utf8.Text, quotes: Utf8.Text, plus: bool, digits: Utf8.Text, quotes': Utf8.Text, after: Utf8.Text)
  {
    predicate Valid() {
      && All(IsSpace, before) && All(IsSpace, after) && All(IsQuote, quotes) && All(IsQuote, quotes')
      && digits != [] && All(IsDigit, digits)
    }

    function Numeral(): Utf8.Text {
      if plus then [43] + digits else digits
    }

    function Text(): Utf8.Text {
      before + (quotes + Numeral() + quotes') + after
    }

    function Number(): nat
      requires Valid()
    {
      Value(0, digits)
    }
  }

  lemma TrimSpelling(s: Spelling)
    requires s.Valid()
    ensures Trim(IsQuote, Trim(IsSpace, s.Text())) == s.Numeral()
  {
    var quoted, numeral := s.quotes + s.Numeral() + s.quotes', s.Numeral();
    assert quoted[0] == if s.quotes == [] then numeral[0] else s.quotes[0];
    assert quoted[|quoted| - 1] == if s.quotes' == [] then numeral[|numeral| - 1] else s.quotes'[|s.quotes'| - 1];
    TrimPadded(IsSpace, s.before, quoted, s.after);
    TrimPadded(IsQuote, s.quotes, numeral, s.quotes');
  }

  /** A number however it is spelled parses to itself when it is below 2^128, and to an error otherwise. */
  lemma ParseSpelling(s: Spelling)
    requires s.Valid()
    ensures ParseU128(Utf8.Encode(s.Text())) == if s.Number() < U128 then Ok(s.Number()) else Err(ValueDecodeError)
  {
    Utf8.DecodeEncode(s.Text());
    TrimSpelling(s);
    ParseDigitsExact(0, s.digits);
    if s.plus { assert s.Numeral()[1..] == s.digits; }
  }

  lemma {:induction false} ParsedAreDigits(acc: nat, t: seq<int>)
    requires ParseDigits(acc, t).Some?
    ensures All(IsDigit, t)
    decreases t
  {
    if t != [] {
      ParsedAreDigits(acc * 10 + (t[0] - 48), t[1..]);
      assert t == [t[0]] + t[1..];
    }
  }

  lemma SplitTwice(t: seq<int>, i: nat, j: nat)
    requires i <= j <= |t|
    ensures t == t[..i] + t[i..j] + t[j..]
  {
  }

  lemma FindSpelling(t: Utf8.Text) returns (s: Spelling)
    requires ParseInteger(Trim(IsQuote, Trim(IsSpace, t))).Some?
    ensures s.Valid() && s.Text() == t
  {
    var i, j := TrimSplits(IsSpace, t);
    var quoted := t[i..j];
    var k, l := TrimSplits(IsQuote, quoted);
    var numeral := quoted[k..l];
    var plus := numeral[0] == 43 && |numeral| > 1;
    var digits := if plus then numeral[1..] else numeral;
    ParsedAreDigits(0, digits);
    s := Spelling(t[..i], quoted[..k], plus, digits, quoted[l..], t[j..]);
    assert s.Numeral() == numeral by { if plus { assert [43] + numeral[1..] == numeral; } }
    SplitTwice(quoted, k, l);
    SplitTwice(t, i, j);
  }

  /** `parse_u128` accepts exactly the spellings of the numbers below 2^128, each as the number it denotes. */
  lemma ParseExact(b: Bytes, n: nat)
    ensures ParseU128(b) == Ok(n)
            <==> exists s: Spelling :: s.Valid() && b == Utf8.Encode(s.Text()) && n == s.Number() < U128
  {
    if ParseU128(b) == Ok(n) {
      var t := Utf8.Decode(b).value;
      var s := FindSpelling(t);
      Utf8.EncodeDecode(b);
      ParseSpelling(s);
      assert s.Valid() && b == Utf8.Encode(s.Text()) && n == s.Number() < U128;
    }
    if s: Spelling :| s.Valid() && b == Utf8.Encode(s.Text()) && n == s.Number() < U128 { ParseSpelling(s); }
  }

  /** Writing a number in decimal, with leading zeros or not, and parsing any spelling of that gives it back. */
  lemma DecimalRoundTrip(n: nat, zeros: nat, s: Spelling)
    requires s.Valid() && s.digits == Zeros(zeros) + Decimal(n)
    ensures ParseU128(Utf8.Encode(s.Text())) == if n < U128 then Ok(n) else Err(ValueDecodeError)
  {
    ValueOfDecimal(n);
    LeadingZeros(zeros, Decimal(n));
    ParseSpelling(s);
  }

  /** `Numeric` comparison sees the numbers alone: white space, quotes, signs and leading zeros do not matter to it. */
  lemma NumericOrder(a: Spelling, b: Spelling)
    requires a.Valid() && b.Valid()
    ensures CompareValues(Utf8.Encode(a.Text()), Utf8.Encode(b.Text()), Numeric)
            == if a.Number() < U128 && b.Number() < U128 then Ok(CompareInt(a.Number(), b.Number()))
               else Err(ValueDecodeError)
  {
    ParseSpelling(a);
    ParseSpelling(b);
  }
}
