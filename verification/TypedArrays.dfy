/** Byte buffers of the scripts: concatenation into a fresh array at a moving offset. */
module TypedArrays {
  import opened Basics

  function Flatten(parts: seq<Bytes>): Bytes {
    if parts == [] then [] else parts[0] + Flatten(parts[1..])
  }

  lemma FlattenCons(p: Bytes, parts: seq<Bytes>)
    ensures Flatten([p] + parts) == p + Flatten(parts)
  {
    assert ([p] + parts)[1..] == parts;
  }

  lemma {:induction false} FlattenAppend(a: seq<Bytes>, b: seq<Bytes>)
    ensures Flatten(a + b) == Flatten(a) + Flatten(b)
  {
    if a == [] {
      assert a + b == b;
    } else {
      assert (a + b)[1..] == a[1..] + b;
      FlattenAppend(a[1..], b);
    }
  }

  lemma FlattenSnoc(parts: seq<Bytes>, i: nat)
    requires i < |parts|
    ensures Flatten(parts[..i + 1]) == Flatten(parts[..i]) + parts[i]
  {
    FlattenAppend(parts[..i], [parts[i]]);
    assert parts[..i] + [parts[i]] == parts[..i + 1];
    assert Flatten([parts[i]]) == parts[i] + Flatten([]);
  }

  /** `target.set(source, offset)`. */
  method SetAt(target: array<byte>, source: Bytes, offset: nat)
    requires offset + |source| <= target.Length
    modifies target
    ensures target[..] == old(target[..offset]) + source + old(target[offset + |source|..])
  {
    for i := 0 to |source|
      invariant target[..offset] == old(target[..offset]) && target[offset..offset + i] == source[..i]
      invariant target[offset + i..] == old(target[offset + i..])
    {
      target[offset + i] := source[i];
    }
    assert target[..] == target[..offset] + target[offset..offset + |source|] + target[offset + |source|..];
  }

  /** Sums the lengths, allocates, and copies every part to its place. */
  method ConcatBytes(parts: seq<Bytes>) returns (result: array<byte>)
    ensures fresh(result)
    ensures result[..] == Flatten(parts)
  {
    var total := 0;
    for i := 0 to |parts|
      invariant total == |Flatten(parts[..i])|
    {
      total := total + |parts[i]|;
      FlattenSnoc(parts, i);
    }
    assert parts[..|parts|] == parts;
    result := new byte[total](_ => 0);
    var offset: nat := 0;
    for i := 0 to |parts|
      invariant offset + |Flatten(parts[i..])| == total == result.Length
      invariant result[..offset] == Flatten(parts[..i])
    {
      assert parts[i..][0] == parts[i] && parts[i..][1..] == parts[i + 1..];
      SetAt(result, parts[i], offset);
      FlattenSnoc(parts, i);
      offset := offset + |parts[i]|;
    }
    assert result[..offset] == result[..];
  }
}
