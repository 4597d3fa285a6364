/** The watcher's numeric check in 64-bit floats, against the Hub's exact one. */
module Watcher {
  import opened Basics
  import opened Conditions
  import Hub
  import JsonPath
  import Utf8

  const SIGNIFICAND: nat := 0x20_0000_0000_0000  // 2^53

  // ------------------------------------------------------------------
  // Rounding an integer to a double: to nearest, ties to even
  // ------------------------------------------------------------------

  /** The unit in the last place of `n`: the least power of two from `u` on that leaves fewer than 54 bits. */
  function UnitFrom(u: nat, n: nat): (r: nat)
    requires u > 0
    ensures u <= r && n < r * SIGNIFICAND
    decreases n - u
  {
    if n < u * SIGNIFICAND then u else UnitFrom(2 * u, n)
  }

  function RoundTo(n: nat, u: nat): nat
    requires u > 0
  {
    var q, r := n / u, n % u;
    if 2 * r < u || (2 * r == u && q % 2 == 0) then q * u else (q + 1) * u
  }

  function Double(n: nat): nat {
    RoundTo(n, UnitFrom(1, n))
  }

  lemma QuotientBounds(n: nat, u: nat, k: nat)
    requires u > 0
    ensures n < k * u ==> n / u + 1 <= k
    ensures n >= k * u ==> n / u >= k
  {
    var q, r := n / u, n % u;
    assert n == q * u + r;
    if q >= k {
      assert q * u >= k * u;
    } else {
      assert (q + 1) * u <= k * u;
    }
  }

  lemma RoundToBounds(n: nat, u: nat)
    requires u > 0
    ensures n / u * u <= RoundTo(n, u) <= (n / u + 1) * u
  {
    assert (n / u + 1) * u == n / u * u + u;
  }

  lemma RoundToSameQuotient(n: nat, m: nat, u: nat)
    requires u > 0 && n / u == m / u && n % u <= m % u
    ensures RoundTo(n, u) <= RoundTo(m, u)
  {
    var low, high := n / u * u, (n / u + 1) * u;
    assert high == low + u;
  }

  lemma ProductsGrow(a: nat, b: nat, u: nat)
    requires a <= b
    ensures a * u <= b * u
  {
  }

  lemma QuotientMonotone(n: nat, m: nat, u: nat)
    requires u > 0 && n <= m
    ensures n / u <= m / u && (n / u == m / u ==> n % u <= m % u)
  {
    assert n == n / u * u + n % u && m == m / u * u + m % u;
    QuotientBounds(m, u, n / u);
  }

  lemma RoundToMonotone(n: nat, m: nat, u: nat)
    requires u > 0 && n <= m
    ensures RoundTo(n, u) <= RoundTo(m, u)
  {
    hide RoundTo;
    QuotientMonotone(n, m, u);
    if n / u < m / u {
      RoundToBounds(n, u);
      RoundToBounds(m, u);
      ProductsGrow(n / u + 1, m / u, u);
    } else {
      RoundToSameQuotient(n, m, u);
    }
  }

  /** A larger number has a larger or equal unit; a strictly larger unit is at least twice the smaller one. */
  lemma {:induction false} UnitsGrow(u: nat, n: nat, m: nat)
    requires u > 0 && n <= m
    ensures UnitFrom(u, n) <= UnitFrom(u, m)
    ensures UnitFrom(u, n) < UnitFrom(u, m) ==> 2 * UnitFrom(u, n) <= UnitFrom(u, m)
    ensures UnitFrom(u, m) > u ==> 2 * m >= UnitFrom(u, m) * SIGNIFICAND
    decreases m - u
  {
    if m < u * SIGNIFICAND {
    } else if n < u * SIGNIFICAND {
      UnitsGrow(2 * u, m, m);
    } else {
      UnitsGrow(2 * u, n, m);
    }
  }

  lemma BelowTop(n: nat, u: nat)
    requires u > 0 && n < u * SIGNIFICAND
    ensures RoundTo(n, u) <= u * SIGNIFICAND
  {
    hide RoundTo;
    QuotientBounds(n, u, SIGNIFICAND);
    RoundToBounds(n, u);
    ProductsGrow(n / u + 1, SIGNIFICAND, u);
  }

  lemma AboveBottom(m: nat, v: nat)
    requires v > 0 && 2 * m >= v * SIGNIFICAND
    ensures 2 * RoundTo(m, v) >= v * SIGNIFICAND
  {
    hide RoundTo;
    var half := SIGNIFICAND / 2;
    assert m >= half * v;
    QuotientBounds(m, v, half);
    RoundToBounds(m, v);
    ProductsGrow(half, m / v, v);
  }

  /** Rounding never swaps two numbers. */
  lemma DoubleMonotone(n: nat, m: nat)
    requires n <= m
    ensures Double(n) <= Double(m)
  {
    hide RoundTo, UnitFrom;
    var u, v := UnitFrom(1, n), UnitFrom(1, m);
    UnitsGrow(1, n, m);
    if u == v {
      RoundToMonotone(n, m, u);
    } else {
      BelowTop(n, u);
      AboveBottom(m, v);
    }
  }

  lemma DoubleExactBelow53Bits(n: nat)
    requires n < SIGNIFICAND
    ensures Double(n) == n
  {
    assert UnitFrom(1, n) == 1;
    assert n / 1 == n && n % 1 == 0;
  }

  // ------------------------------------------------------------------
  // checkCondition on plain decimal values
  // ------------------------------------------------------------------

  /** `valueStr.replace(/"/g, "")`. */
  function WithoutQuotes(t: seq<int>): seq<int> {
    if t == [] then [] else (if IsQuote(t[0]) then [] else [t[0]]) + WithoutQuotes(t[1..])
  }

  /** A plain decimal numeral, bare or between double quotes. */
  function Plain(digits: Utf8.Text, quoted: bool): Spelling {
    var quotes: Utf8.Text := if quoted then [34] else [];
    Spelling([], quotes, false, digits, quotes, [])
  }

  lemma {:induction false} WithoutQuotesOfDigits(t: seq<int>)
    requires All(IsDigit, t)
    ensures WithoutQuotes(t) == t && WithoutQuotes(t + [34]) == t
    decreases t
  {
    if t == [] {
      assert t + [34] == [34];
    } else {
      assert (t + [34])[1..] == t[1..] + [34];
      WithoutQuotesOfDigits(t[1..]);
      assert [t[0]] + t[1..] == t;
    }
  }

  /** `parseFloat(text.replace(/"/g, ""))` where what remains is a run of digits. */
  function ParseFloat(t: seq<int>): nat
    requires All(IsDigit, WithoutQuotes(t))
  {
    Double(Value(0, WithoutQuotes(t)))
  }

  lemma PlainText(digits: Utf8.Text, quoted: bool)
    ensures Plain(digits, quoted).Text() == if quoted then [34] + (digits + [34]) else digits
  {
  }

  lemma QuoteDropped(t: seq<int>)
    ensures WithoutQuotes([34] + t) == WithoutQuotes(t)
  {
    assert ([34] + t)[1..] == t;
  }

  lemma PlainParses(digits: Utf8.Text, quoted: bool)
    requires Plain(digits, quoted).Valid()
    ensures WithoutQuotes(Plain(digits, quoted).Text()) == digits
  {
    hide Spelling.Text, WithoutQuotes;
    WithoutQuotesOfDigits(digits);
    PlainText(digits, quoted);
    if quoted { QuoteDropped(digits + [34]); }
  }

  predicate CheckGreater(value: seq<int>, threshold: seq<int>)
    requires All(IsDigit, WithoutQuotes(value)) && All(IsDigit, WithoutQuotes(threshold))
  {
    ParseFloat(value) > ParseFloat(threshold)
  }

  predicate CheckLess(value: seq<int>, threshold: seq<int>)
    requires All(IsDigit, WithoutQuotes(value)) && All(IsDigit, WithoutQuotes(threshold))
  {
    ParseFloat(value) < ParseFloat(threshold)
  }

  /**
   * The Hub's verdict on two numbers, however they are spelled, is their exact comparison, and a number of 2^128 or
   * more on either side never passes.
   */
  lemma HubComparesExactly(svc: Hub.Services, a: Spelling, t: Spelling)
    requires a.Valid() && t.Valid()
    ensures var value, threshold := Utf8.Encode(a.Text()), Utf8.Encode(t.Text());
            && (Hub.CheckCondition(svc, Hub.GreaterThan(threshold, Numeric), value) == Pass
                <==> t.Number() < a.Number() < U128)
            && (Hub.CheckCondition(svc, Hub.LessThan(threshold, Numeric), value) == Pass
                <==> a.Number() < t.Number() < U128)
  {
    hide CompareValues;
    NumericOrder(a, t);
  }

  /**
   * Over all of u128 the watcher submits only what the Hub accepts: its float comparison holds exactly when the Hub's
   * condition does and the two numbers round to different floats. Below 2^53 they always do.
   */
  lemma WatcherIsSound(svc: Hub.Services, a: Utf8.Text, qa: bool, t: Utf8.Text, qt: bool)
    requires Plain(a, qa).Valid() && Value(0, a) < U128 && Plain(t, qt).Valid() && Value(0, t) < U128
    ensures var value, threshold := Plain(a, qa).Text(), Plain(t, qt).Text();
            && All(IsDigit, WithoutQuotes(value)) && All(IsDigit, WithoutQuotes(threshold))
            && var distinct := Double(Value(0, a)) != Double(Value(0, t));
               var greater := Hub.GreaterThan(Utf8.Encode(threshold), Numeric);
               var less := Hub.LessThan(Utf8.Encode(threshold), Numeric);
               && (CheckGreater(value, threshold)
                   <==> distinct && Hub.CheckCondition(svc, greater, Utf8.Encode(value)) == Pass)
               && (CheckLess(value, threshold)
                   <==> distinct && Hub.CheckCondition(svc, less, Utf8.Encode(value)) == Pass)
               && (Value(0, a) < SIGNIFICAND && Value(0, t) < SIGNIFICAND
                   ==> (distinct <==> Value(0, a) != Value(0, t)))
  {
    hide Hub.CheckCondition, Double, WithoutQuotes, Value;
    PlainParses(a, qa);
    PlainParses(t, qt);
    HubComparesExactly(svc, Plain(a, qa), Plain(t, qt));
    var n, m := Value(0, a), Value(0, t);
    if n <= m { DoubleMonotone(n, m); }
    if m <= n { DoubleMonotone(m, n); }
    if n < SIGNIFICAND && m < SIGNIFICAND {
      DoubleExactBelow53Bits(n);
      DoubleExactBelow53Bits(m);
    }
  }

  lemma RoundsToSignificand()
    ensures Double(SIGNIFICAND + 1) == Double(SIGNIFICAND)
  {
    assert UnitFrom(1, SIGNIFICAND) == UnitFrom(2, SIGNIFICAND) == 2;
    assert UnitFrom(1, SIGNIFICAND + 1) == UnitFrom(2, SIGNIFICAND + 1) == 2;
  }

  /** The value 2^53 + 1 exceeds the threshold 2^53: the Hub would accept it, and the watcher does not submit it. */
  lemma WatcherMisses(svc: Hub.Services)
    ensures var value := Plain(Decimal(SIGNIFICAND + 1), false).Text();
            var threshold := Plain(Decimal(SIGNIFICAND), false).Text();
            && Hub.CheckCondition(svc, Hub.GreaterThan(Utf8.Encode(threshold), Numeric), Utf8.Encode(value)) == Pass
            && All(IsDigit, WithoutQuotes(value)) && All(IsDigit, WithoutQuotes(threshold))
            && !CheckGreater(value, threshold)
  {
    hide Hub.CheckCondition, Double, Decimal, Value;
    var a, t := Decimal(SIGNIFICAND + 1), Decimal(SIGNIFICAND);
    ValueOfDecimal(SIGNIFICAND + 1);
    ValueOfDecimal(SIGNIFICAND);
    HubComparesExactly(svc, Plain(a, false), Plain(t, false));
    PlainParses(a, false);
    PlainParses(t, false);
    RoundsToSignificand();
  }

  /**
   * On JSON that both sides parse alike, the watcher predicts the Hub's verdict on a path that is missing or ends in
   * a scalar, provided the script engine adds nothing under the path's names.
   */
  lemma JsonVerdictPredicted(svc: Hub.Services, engine: JsonPath.Engine, value: Bytes, path: string, expected: string)
    requires svc.parseJson(value).Some?
    requires var found := JsonPath.Lookup(svc.parseJson(value).value, JsonPath.Split(path));
             && (found.Some? ==> JsonPath.IsScalar(found.value))
             && (found.None? ==> JsonPath.AddsNothing(engine, JsonPath.Split(path)))
    ensures Hub.CheckCondition(svc, Hub.JsonPathEquals(path, expected), value) == Pass
            <==> JsonPath.WatcherMatches(engine, svc.parseJson(value).value, path, expected)
  {
    hide JsonPath.WatcherMatches, JsonPath.Lookup, JsonPath.AddsNothing, JsonPath.OnChainText;
    var document := svc.parseJson(value).value;
    if JsonPath.Lookup(document, JsonPath.Split(path)).Some? {
      JsonPath.ScalarAgreement(engine, svc.renderJson, document, path, expected);
    } else {
      JsonPath.Agreement(engine, svc.renderJson, document, path, expected);
    }
  }
}
