/** Base-128 varints: the 64-bit reader on chain and the 32-bit writer in the scripts. */
module Varint {
  import opened Basics

  function Encode(n: nat): (r: Bytes)
    ensures r != []
  {
    if n < 128 then [n] else [n % 128 + 128] + Encode(n / 128)
  }

  /** Values a varint of at most `left` bytes may carry when its last byte holds one bit. */
  function Cap(left: nat): nat {
    if left == 0 then 0 else if left == 1 then 2 else 128 * Cap(left - 1)
  }

  /** The reader: at most ten bytes, the tenth below 2; yields the value and what follows it. */
  function Decode(b: Bytes, left: nat := 10): (r: Option<(nat, Bytes)>)
    ensures r.Some? ==> |r.value.1| < |b|
  {
    if b == [] || left == 0 then None
    else if b[0] < 128 then
      if left == 1 && b[0] >= 2 then None else Some((b[0], b[1..]))
    else
      match Decode(b[1..], left - 1)
      case None => None
      case Some((v, rest)) => Some((b[0] - 128 + 128 * v, rest))
  }

  lemma CapIsU64()
    ensures Cap(10) == U64
  {
    assert Cap(2) == 256 && Cap(4) == 128 * 128 * 256;
    assert Cap(6) == 128 * 128 * Cap(4) && Cap(8) == 128 * 128 * Cap(6) && Cap(10) == 128 * 128 * Cap(8);
  }

  lemma {:induction false} DecodeEncodeUpTo(n: nat, rest: Bytes, left: nat)
    requires n < Cap(left)
    ensures Decode(Encode(n) + rest, left) == Some((n, rest))
  {
    var b := Encode(n) + rest;
    if n < 128 {
      assert b[1..] == rest;
    } else {
      assert left > 1;
      assert b[1..] == Encode(n / 128) + rest;
      DecodeEncodeUpTo(n / 128, rest, left - 1);
    }
  }

  /** Every 64-bit value survives writing and reading, whatever bytes follow it. */
  lemma DecodeEncode(n: nat, rest: Bytes)
    requires n < U64
    ensures Decode(Encode(n) + rest) == Some((n, rest))
  {
    CapIsU64();
    DecodeEncodeUpTo(n, rest, 10);
  }

  /** Varints delimit themselves: bytes appended after one do not change how it reads. */
  lemma {:induction false} SelfDelimiting(b: Bytes, more: Bytes, left: nat)
    requires Decode(b, left).Some?
    ensures Decode(b + more, left) == Some((Decode(b, left).value.0, Decode(b, left).value.1 + more))
  {
    assert (b + more)[1..] == b[1..] + more;
    if b[0] >= 128 {
      SelfDelimiting(b[1..], more, left - 1);
    }
  }

  lemma EncodeStep(n: nat)
    ensures Encode(n) == if n < 128 then [n] else [n % 128 + 128] + Encode(n / 128)
  {
  }

  lemma ConsSplits(first: byte, rest: Bytes, x: Bytes)
    ensures ([first] + rest + x)[0] == first && ([first] + rest + x)[1..] == rest + x
  {
  }

  /** An encoding and what follows it: the first byte, and what comes after that. */
  lemma EncodeSplits(n: nat, x: Bytes)
    ensures (Encode(n) + x)[0] == if n < 128 then n else n % 128 + 128
    ensures (Encode(n) + x)[1..] == if n < 128 then x else Encode(n / 128) + x
  {
    EncodeStep(n);
    hide Encode;
    if n < 128 { ConsSplits(n, [], x); } else { ConsSplits(n % 128 + 128, Encode(n / 128), x); }
  }

  lemma SameNumber(a: nat, b: nat)
    requires a / 128 == b / 128 && a % 128 == b % 128
    ensures a == b
  {
  }

  /** No encoding is a proper prefix of another. */
  lemma {:induction false} PrefixFree(a: nat, x: Bytes, b: nat, y: Bytes)
    requires Encode(a) + x == Encode(b) + y
    ensures a == b && x == y
  {
    hide Encode;
    EncodeSplits(a, x);
    EncodeSplits(b, y);
    if a >= 128 {
      PrefixFree(a / 128, x, b / 128, y);
      SameNumber(a, b);
    }
  }

  /** Dropping leading bytes of an encoding leaves the encoding of a much smaller number. */
  lemma {:induction false} EncodeTail(n: nat, k: nat) returns (m: nat)
    requires 0 < k < |Encode(n)|
    ensures Encode(n)[k..] == Encode(m) && m < n
  {
    assert n >= 128;
    if k == 1 {
      m := n / 128;
    } else {
      m := EncodeTail(n / 128, k - 1);
    }
  }

  function Cap128(k: nat): (r: nat)
    ensures r > 0
  {
    if k == 0 then 1 else 128 * Cap128(k - 1)
  }

  /** An encoding takes one byte for every seven bits. */
  lemma {:induction false} EncodeLength(n: nat, k: nat)
    requires k > 0
    ensures |Encode(n)| <= k <==> n < Cap128(k)
  {
    assert Cap128(k) == 128 * Cap128(k - 1);
    if n >= 128 && k > 1 { EncodeLength(n / 128, k - 1); }
  }

  // ------------------------------------------------------------------
  // scripts/proof.ts: numbers are doubles, but `&` and `>>>` work on 32 bits.
  // ------------------------------------------------------------------

  /** `value >>> 7`. */
  function ShiftRight7(value: nat): nat {
    value % U32 / 128
  }

  /** What the script's loop still has to push for `value`. */
  function Script(value: nat): (r: Bytes)
    ensures r != []
  {
    if value > 127 then [value % 128 + 128] + Script(ShiftRight7(value)) else [value]
  }

  lemma ScriptStep(done: Bytes, v: nat)
    ensures v > 127 ==> done + [v % 128 + 128] + Script(ShiftRight7(v)) == done + Script(v)
    ensures v <= 127 ==> Script(v) == [v % 128]
  {
  }

  method EncodeVarint(value: nat) returns (bytes: Bytes)
    ensures bytes == Script(value)
  {
    hide Script;
    bytes := [];
    var v := value;
    while v > 127
      invariant bytes + Script(v) == Script(value)
    {
      ScriptStep(bytes, v);
      bytes := bytes + [v % 128 + 128];
      v := ShiftRight7(v);
    }
    ScriptStep(bytes, v);
    bytes := bytes + [v % 128];
  }

  lemma {:induction false} ScriptIsEncode(value: nat)
    requires value < U32
    ensures Script(value) == Encode(value)
  {
    if value > 127 {
      assert value % U32 == value;
      ScriptIsEncode(value / 128);
    }
  }

  lemma LowBits(value: nat)
    ensures value % 128 + 128 * (value % 0x1_0000_0000 / 128) == value % 0x1_0000_0000
  {
    var q, low := value / 0x1_0000_0000, value % 0x1_0000_0000;
    var k := 0x200_0000 * q + low / 128;
    assert value == 0x1_0000_0000 * q + low && low == 128 * (low / 128) + low % 128;
    assert value == 128 * k + low % 128;
    assert value % 128 == low % 128;
  }

  lemma DecodeMore(first: byte, rest: Bytes, left: nat)
    requires first >= 128 && left > 0 && Decode(rest, left - 1).Some?
    ensures var (v, after) := Decode(rest, left - 1).value;
            Decode([first] + rest, left) == Some((first - 128 + 128 * v, after))
  {
    assert ([first] + rest)[1..] == rest;
  }

  lemma ScriptWraps(value: nat, rest: Bytes)
    requires value >= U32
    ensures Decode(Script(value) + rest) == Some((value % U32, rest))
    ensures |Script(value)| <= 5
  {
    hide Encode, Decode;
    var high := ShiftRight7(value);
    assert Cap128(4) == 0x1000_0000 && high < 0x200_0000;
    ScriptIsEncode(high);
    EncodeLength(high, 4);
    CapIsU64();
    DecodeEncodeUpTo(high, rest, 9);
    DecodeMore(value % 128 + 128, Encode(high) + rest, 10);
    assert Script(value) + rest == [value % 128 + 128] + (Encode(high) + rest);
    LowBits(value);
  }

  /** The script's bytes always number at most five and always read back as the low 32 bits. */
  lemma ScriptReadsBack(value: nat, rest: Bytes)
    ensures Decode(Script(value) + rest) == Some((value % U32, rest))
    ensures |Script(value)| <= 5
  {
    if value < U32 {
      ScriptIsEncode(value);
      assert Cap128(5) == 0x8_0000_0000;
      EncodeLength(value, 5);
      DecodeEncode(value, rest);
    } else {
      ScriptWraps(value, rest);
    }
  }

  /** Exactly the lengths below 2^32 survive the script's writer. */
  lemma ScriptExactBelow32Bits(value: nat, rest: Bytes)
    ensures Decode(Script(value) + rest) == Some((value, rest)) <==> value < U32
  {
    hide Decode, Script;
    ScriptReadsBack(value, rest);
  }

  /** The length 2^32 is written as that of no bytes at all. */
  lemma ScriptWrapsToZero()
    ensures Decode(Script(U32)) == Some((0, []))
  {
    hide Decode, Script;
    ScriptReadsBack(U32, []);
    assert Script(U32) + [] == Script(U32);
  }
}
