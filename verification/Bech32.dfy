/** Decoding a bech32 address: the 5-to-8-bit loop on a 32-bit accumulator that is never masked (BIP 173). */
module Bech32 {
  import opened Basics
  import Hex

  type Quintet = v: int | 0 <= v < 32

  function Pow2(k: nat): (r: nat)
    ensures r > 0
  {
    if k == 0 then 1 else 2 * Pow2(k - 1)
  }

  // ------------------------------------------------------------------
  // Bit strings as numbers
  // ------------------------------------------------------------------

  function Base32(vs: seq<Quintet>): nat {
    if vs == [] then 0 else 32 * Base32(vs[..|vs| - 1]) + vs[|vs| - 1]
  }

  function Base256(bs: Bytes): nat {
    if bs == [] then 0 else 256 * Base256(bs[..|bs| - 1]) + bs[|bs| - 1]
  }

  /** The last `n` base-256 digits of a number. */
  function Digits256(v: nat, n: nat): (r: Bytes)
    ensures |r| == n
  {
    if n == 0 then [] else Digits256(v / 256, n - 1) + [v % 256]
  }

  function Digits32(v: nat, n: nat): (r: seq<Quintet>)
    ensures |r| == n
  {
    if n == 0 then [] else Digits32(v / 32, n - 1) + [v % 32]
  }

  /** `x >> k`, rounding down. */
  function ShiftRight(x: int, k: nat): (r: int)
    ensures x >= 0 ==> r >= 0
    decreases k
  {
    if k == 0 then x else ShiftRight(x / 2, k - 1)
  }

  function ShiftLeft(x: nat, k: nat): nat
    decreases k
  {
    if k == 0 then x else ShiftLeft(2 * x, k - 1)
  }

  /** The whole bytes among the leading bits of the concatenated 5-bit groups. */
  function Octets(vs: seq<Quintet>): Bytes {
    Digits256(ShiftRight(Base32(vs), 5 * |vs| % 8), 5 * |vs| / 8)
  }

  /** The 8-to-5 regrouping: the bits of the bytes, padded on the right with zeros to whole groups. */
  function Quintets(bs: Bytes): seq<Quintet> {
    var n := (8 * |bs| + 4) / 5;
    Digits32(ShiftLeft(Base256(bs), 5 * n - 8 * |bs|), n)
  }

  lemma {:induction false} DigitsOfBase256(bs: Bytes)
    ensures Digits256(Base256(bs), |bs|) == bs
  {
    if bs != [] { DigitsOfBase256(bs[..|bs| - 1]); }
  }

  lemma {:induction false} Base32OfDigits(v: nat, n: nat)
    requires v < Pow2(5 * n)
    ensures Base32(Digits32(v, n)) == v
  {
    if n > 0 {
      Pow2Five(5 * n - 5);
      Base32OfDigits(v / 32, n - 1);
      var ds := Digits32(v, n);
      assert ds[..n - 1] == Digits32(v / 32, n - 1);
    }
  }

  lemma Pow2Five(k: nat)
    ensures Pow2(k + 5) == 32 * Pow2(k)
  {
    assert Pow2(k + 2) == 4 * Pow2(k) && Pow2(k + 4) == 4 * Pow2(k + 2);
  }

  lemma Pow2Eight(k: nat)
    ensures Pow2(k + 8) == 256 * Pow2(k)
  {
    Pow2Five(k);
    assert Pow2(k + 7) == 4 * Pow2(k + 5);
  }

  lemma {:induction false} Base256Bound(bs: Bytes)
    ensures Base256(bs) < Pow2(8 * |bs|)
  {
    if bs != [] {
      Base256Bound(bs[..|bs| - 1]);
      Pow2Eight(8 * |bs| - 8);
    }
  }

  lemma {:induction false} ShiftBound(x: nat, bound: nat, k: nat)
    requires x < Pow2(bound)
    ensures ShiftLeft(x, k) < Pow2(bound + k)
    decreases k
  {
    if k > 0 { ShiftBound(2 * x, bound + 1, k - 1); }
  }

  lemma {:induction false} ShiftBack(x: nat, k: nat)
    ensures ShiftRight(ShiftLeft(x, k), k) == x
    decreases k
  {
    if k > 0 {
      ShiftBack(2 * x, k - 1);
      ShiftTwice(ShiftLeft(x, k), k - 1, 1);
    }
  }

  lemma {:induction false} ShiftTwice(x: int, a: nat, b: nat)
    ensures ShiftRight(x, a + b) == ShiftRight(ShiftRight(x, a), b)
    decreases a
  {
    if a > 0 { ShiftTwice(x / 2, a - 1, b); }
  }

  /** Regrouping to bytes undoes the zero-padded regrouping of every byte string. */
  lemma OctetsInvertsQuintets(bs: Bytes)
    ensures Octets(Quintets(bs)) == bs
  {
    hide Pow2, Base256, Base32, Digits32, Digits256;
    var n := (8 * |bs| + 4) / 5;
    var pad := 5 * n - 8 * |bs|;
    Base256Bound(bs);
    ShiftBound(Base256(bs), 8 * |bs|, pad);
    Base32OfDigits(ShiftLeft(Base256(bs), pad), n);
    ShiftBack(Base256(bs), pad);
    DigitsOfBase256(bs);
  }

  // ------------------------------------------------------------------
  // The loop
  // ------------------------------------------------------------------

  /** A number as a signed 32-bit integer. */
  function Int32(x: int): int {
    if x % U32 >= 0x8000_0000 then x % U32 - U32 else x % U32
  }

  /** `(acc << 5) | v`: the shift leaves the low five bits free, so the union is a sum. */
  function Push(acc: int, v: Quintet): int {
    Int32(acc * 32) + v
  }

  /** `(acc >> bits) & 0xff`, with the sign-extending shift. */
  function Window(acc: int, bits: nat): byte {
    ShiftRight(acc, bits) % 256
  }

  /** The accumulator has lost only bits above the 32nd. */
  predicate Holds(acc: int, v: nat) {
    acc % U32 == v % U32
  }

  lemma PushHolds(acc: int, v: nat, q: Quintet)
    requires Holds(acc, v)
    ensures Holds(Push(acc, q), 32 * v + q)
  {
    var k := (acc - v) / U32;
    assert acc == v + U32 * k;
    var shifted := Int32(acc * 32);
    assert shifted % U32 == acc * 32 % U32;
    var j := (acc * 32 - shifted) / U32;
    assert shifted + q == 32 * v + q + U32 * (32 * k - j);
  }

  lemma ShiftFive(x: int)
    ensures ShiftRight(x, 5) == x / 32
  {
    assert ShiftRight(x, 5) == ShiftRight(x / 2 / 2, 3) == ShiftRight(x / 2 / 2 / 2 / 2, 1);
  }

  lemma ShiftEight(x: int)
    ensures ShiftRight(x, 8) == x / 256
  {
    ShiftTwice(x, 5, 3);
    ShiftFive(x);
    assert ShiftRight(x / 32, 3) == x / 32 / 2 / 2 / 2;
  }

  /** Five more bits, none of them emitted: the emitted bytes still are the leading bits. */
  lemma PushKeepsLeading(v: nat, q: Quintet, bits: nat)
    ensures ShiftRight(32 * v + q, bits + 5) == ShiftRight(v, bits)
  {
    ShiftTwice(32 * v + q, 5, bits);
    ShiftFive(32 * v + q);
  }

  lemma LowByteEqual(x: int, y: int, m: int)
    requires y == x + 256 * m
    ensures y % 256 == x % 256
  {
  }

  /** Shifting by at most four, the bits lost above the 32nd stay above the byte that is taken. */
  lemma LowByteSurvives(x: int, y: int, m: int, bits: nat)
    requires bits <= 4 && y == x + 4096 * m
    ensures ShiftRight(y, bits) % 256 == ShiftRight(x, bits) % 256
  {
    if bits == 0 {
      LowByteEqual(x, y, 16 * m);
    } else if bits == 1 {
      LowByteEqual(x / 2, y / 2, 8 * m);
    } else if bits == 2 {
      LowByteEqual(x / 2 / 2, y / 2 / 2, 4 * m);
    } else if bits == 3 {
      LowByteEqual(x / 2 / 2 / 2, y / 2 / 2 / 2, 2 * m);
      assert ShiftRight(y, 3) == ShiftRight(y / 2, 2) && ShiftRight(x, 3) == ShiftRight(x / 2, 2);
    } else {
      LowByteEqual(x / 2 / 2 / 2 / 2, y / 2 / 2 / 2 / 2, m);
      assert ShiftRight(y, 4) == ShiftRight(y / 2 / 2, 2) && ShiftRight(x, 4) == ShiftRight(x / 2 / 2, 2);
    }
  }

  /** The byte emitted from the wrapped accumulator is the next byte of the exact bit string. */
  lemma WindowIsNextByte(acc: int, v: nat, bits: nat)
    requires Holds(acc, v) && bits <= 4
    ensures 256 * ShiftRight(v, bits + 8) + Window(acc, bits) == ShiftRight(v, bits)
  {
    var k := (acc - v) / U32;
    assert acc == v + U32 * k;
    LowByteSurvives(v, acc, 0x10_0000 * k, bits);
    ShiftTwice(v, bits, 8);
    ShiftEight(ShiftRight(v, bits));
  }

  method Regroup(values: seq<Quintet>) returns (bytes: Bytes)
    ensures bytes == Octets(values)
  {
    hide Octets, Push, Window, Holds, Base32, Base256, Digits256, ShiftRight;
    bytes := [];
    var acc, bits := 0, 0;
    Started();
    for i := 0 to |values|
      invariant 0 <= bits < 8 && 8 * |bytes| + bits == 5 * i
      invariant Holds(acc, Base32(values[..i]))
      invariant Base256(bytes) == ShiftRight(Base32(values[..i]), bits)
    {
      ghost var v := Base32(values[..i]);
      ghost var w := Base32(values[..i + 1]);
      Base32Snoc(values, i);
      PushHolds(acc, v, values[i]);
      PushKeepsLeading(v, values[i], bits);
      acc := Push(acc, values[i]);
      bits := bits + 5;
      while bits >= 8
        invariant 0 <= bits <= 12 && 8 * |bytes| + bits == 5 * (i + 1)
        invariant Base256(bytes) == ShiftRight(w, bits)
      {
        bits := bits - 8;
        WindowIsNextByte(acc, w, bits);
        Base256Snoc(bytes, Window(acc, bits));
        bytes := bytes + [Window(acc, bits)];
      }
    }
    assert values[..|values|] == values;
    DigitsOfBase256(bytes);
    Finished(values, bytes, bits);
  }

  lemma Base32Snoc(vs: seq<Quintet>, i: nat)
    requires i < |vs|
    ensures Base32(vs[..i + 1]) == 32 * Base32(vs[..i]) + vs[i]
  {
    assert vs[..i + 1][..i] == vs[..i];
  }

  lemma Base256Snoc(bs: Bytes, b: byte)
    ensures Base256(bs + [b]) == 256 * Base256(bs) + b
  {
    assert (bs + [b])[..|bs|] == bs;
  }

  lemma Started()
    ensures Holds(0, Base32([])) && ShiftRight(Base32([]), 0) == 0 == Base256([])
  {
  }

  lemma Finished(values: seq<Quintet>, bytes: Bytes, bits: nat)
    requires bits < 8 && 8 * |bytes| + bits == 5 * |values|
    requires Base256(bytes) == ShiftRight(Base32(values), bits)
    requires Digits256(Base256(bytes), |bytes|) == bytes
    ensures bytes == Octets(values)
  {
    hide Base256, Base32, Digits256, ShiftRight;
    assert 5 * |values| % 8 == bits && 5 * |values| / 8 == |bytes|;
  }

  // ------------------------------------------------------------------
  // Addresses
  // ------------------------------------------------------------------

  const CHARSET := "qpzry9x8gf2tvdw0s3jn54khce6mua7l"

  function IndexOf(s: string, c: char): (r: int)
    ensures -1 <= r < |s| && (r >= 0 ==> s[r] == c)
  {
    if s == [] then -1 else if s[0] == c then 0 else
      var rest := IndexOf(s[1..], c);
      if rest < 0 then -1 else rest + 1
  }

  function LastIndexOf(s: string, c: char): (r: int)
    ensures -1 <= r < |s| && (r >= 0 ==> s[r] == c)
  {
    if s == [] then -1 else if s[|s| - 1] == c then |s| - 1 else LastIndexOf(s[..|s| - 1], c)
  }

  /** What stands between the last separator and the six characters of the checksum. */
  function DataPart(addr: string): string {
    var start, end := LastIndexOf(addr, '1') + 1, |addr| - 6;
    if start <= end then addr[start..end] else ""
  }

  /** The 5-bit groups of the data characters; none if one of them is not in the alphabet. */
  function Groups(data: string): Option<seq<Quintet>> {
    if data == [] then Some([]) else
      var n := |data| - 1;
      var v := IndexOf(CHARSET, data[n]);
      match Groups(data[..n])
      case None => None
      case Some(vs) => if v < 0 then None else Some(vs + [v])
  }

  function AddressBytes(addr: string): Option<Bytes> {
    match Groups(DataPart(addr))
    case None => None
    case Some(vs) => Some(Octets(vs))
  }

  lemma {:induction false} BadCharacter(data: string, i: nat)
    requires i < |data| && (Groups(data[..i]).None? || IndexOf(CHARSET, data[i]) < 0)
    ensures Groups(data).None?
  {
    hide IndexOf, CHARSET;
    var n := |data| - 1;
    if i < n {
      assert data[..n][..i] == data[..i];
      BadCharacter(data[..n], i);
    }
  }

  /** `None` stands for the exception on a character outside the alphabet. */
  method AddrToHex(addr: string) returns (r: Option<string>)
    ensures r == match AddressBytes(addr) case None => None case Some(bytes) => Some(Hex.ToHex(bytes))
  {
    hide Octets, IndexOf;
    var data := DataPart(addr);
    var values: seq<Quintet> := [];
    for i := 0 to |data|
      invariant Groups(data[..i]) == Some(values)
    {
      var v := IndexOf(CHARSET, data[i]);
      if v < 0 {
        BadCharacter(data, i);
        return None;
      }
      assert data[..i + 1][..i] == data[..i];
      values := values + [v];
    }
    assert data[..|data|] == data;
    var bytes := Regroup(values);
    r := Some(Hex.ToHex(bytes));
  }

  function Characters(vs: seq<Quintet>): (r: string)
    ensures |r| == |vs|
  {
    if vs == [] then [] else Characters(vs[..|vs| - 1]) + [CHARSET[vs[|vs| - 1]]]
  }

  lemma CharsetIndex(v: Quintet)
    ensures IndexOf(CHARSET, CHARSET[v]) == v
  {
    hide IndexOf;
    FirstOccurrence(CHARSET, v);
  }

  lemma {:induction false} FirstOccurrence(s: string, i: nat)
    requires i < |s| && forall j :: 0 <= j < i ==> s[j] != s[i]
    ensures IndexOf(s, s[i]) == i
  {
    if i > 0 { FirstOccurrence(s[1..], i - 1); }
  }

  lemma {:induction false} GroupsOfCharacters(vs: seq<Quintet>)
    ensures Groups(Characters(vs)) == Some(vs)
  {
    hide IndexOf, CHARSET;
    if vs != [] {
      var n := |vs| - 1;
      GroupsOfCharacters(vs[..n]);
      CharsetIndex(vs[n]);
      assert Characters(vs)[..n] == Characters(vs[..n]);
      assert vs[..n] + [vs[n]] == vs;
    }
  }

  lemma {:induction false} LastSeparator(prefix: string, tail: string)
    requires forall i :: 0 <= i < |tail| ==> tail[i] != '1'
    ensures LastIndexOf(prefix + "1" + tail, '1') == |prefix|
  {
    var s := prefix + "1" + tail;
    if tail != [] {
      assert s[..|s| - 1] == prefix + "1" + tail[..|tail| - 1];
      LastSeparator(prefix, tail[..|tail| - 1]);
    }
  }

  lemma {:induction false} NoOnes(vs: seq<Quintet>)
    ensures forall i :: 0 <= i < |vs| ==> Characters(vs)[i] != '1'
  {
    if vs != [] { NoOnes(vs[..|vs| - 1]); }
  }

  /**
   * The address BIP 173 writes for a byte string, whatever its human-readable part and its six checksum characters,
   * decodes to exactly those bytes.
   */
  lemma AddressRoundTrip(prefix: string, bs: Bytes, checksum: seq<Quintet>)
    requires |checksum| == 6
    ensures AddressBytes(prefix + "1" + Characters(Quintets(bs) + checksum)) == Some(bs)
  {
    hide Quintets, Octets, Groups, DataPart, Characters;
    NoOnes(Quintets(bs));
    NoOnes(checksum);
    CharactersAppend(Quintets(bs), checksum);
    DataPartBetween(prefix, Characters(Quintets(bs)), Characters(checksum));
    GroupsOfCharacters(Quintets(bs));
    OctetsInvertsQuintets(bs);
  }

  lemma DataPartBetween(prefix: string, data: string, checksum: string)
    requires |checksum| == 6
    requires forall i :: 0 <= i < |data| ==> data[i] != '1'
    requires forall i :: 0 <= i < |checksum| ==> checksum[i] != '1'
    ensures DataPart(prefix + "1" + (data + checksum)) == data
  {
    hide LastIndexOf;
    LastSeparator(prefix, data + checksum);
    var addr := prefix + "1" + (data + checksum);
    assert addr[|prefix| + 1..|addr| - 6] == data;
  }

  lemma NoCharacters()
    ensures Characters([]) == ""
  {
  }

  lemma CharactersSnoc(vs: seq<Quintet>, v: Quintet)
    ensures Characters(vs + [v]) == Characters(vs) + [CHARSET[v]]
  {
    assert (vs + [v])[..|vs|] == vs;
  }

  lemma {:induction false} CharactersAppend(a: seq<Quintet>, b: seq<Quintet>)
    ensures Characters(a + b) == Characters(a) + Characters(b)
  {
    hide Characters;
    if b == [] {
      assert a + b == a;
      NoCharacters();
    } else {
      var n := |b| - 1;
      var init := a + b[..n];
      assert a + b == init + [b[n]];
      CharactersSnoc(init, b[n]);
      CharactersSnoc(b[..n], b[n]);
      assert b == b[..n] + [b[n]];
      CharactersAppend(a, b[..n]);
    }
  }
}
