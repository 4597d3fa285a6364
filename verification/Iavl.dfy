/** A module's IAVL tree, its hashing, and what proofs against its root establish. */
module Iavl {
  import opened Basics
  import opened Ics23
  import HashTree
  import Varint

  datatype Iavl = Leaf(version: nat, key: Bytes, value: Bytes) | Node(version: nat, left: Iavl, right: Iavl)

  const SEP: Bytes := [32]

  function Height(t: Iavl): nat {
    match t
    case Leaf(_, _, _) => 0
    case Node(_, left, right) => 1 + if Height(left) > Height(right) then Height(left) else Height(right)
  }

  function Size(t: Iavl): (r: nat)
    ensures r > Height(t)
  {
    match t
    case Leaf(_, _, _) => 1
    case Node(_, left, right) => Size(left) + Size(right)
  }

  /** The key-value pairs the tree stores. */
  function Contents(t: Iavl): map<Bytes, Bytes> {
    match t
    case Leaf(_, key, value) => map[key := value]
    case Node(_, left, right) => Contents(left) + Contents(right)
  }

  /** Keys are not empty and grow from left to right; numbers fit the 64-bit fields that get hashed. */
  predicate WellFormed(t: Iavl) {
    && t.version < 0x8000_0000_0000_0000 && Size(t) < 0x8000_0000_0000_0000
    && match t
       case Leaf(_, key, _) => key != []
       case Node(_, left, right) =>
         && WellFormed(left) && WellFormed(right)
         && forall l, r :: l in Contents(left) && r in Contents(right) ==> Compare(l, r) == Less
  }

  /** The zig-zag varint of a number that is not negative. */
  function ZigZag(n: nat): Bytes {
    Varint.Encode(2 * n)
  }

  function Header(height: nat, size: nat, version: nat): Bytes {
    ZigZag(height) + (ZigZag(size) + ZigZag(version))
  }

  function Shape(t: Iavl): HashTree.Tree {
    match t
    case Leaf(version, key, value) => HashTree.Leaf(Header(0, 1, version), key, value)
    case Node(version, left, right) => HashTree.Node(Header(Height(t), Size(t), version), Shape(left), Shape(right))
  }

  function Root(H: Hasher, t: Iavl): (r: Bytes)
    ensures |r| == 32
  {
    HashTree.Root(H, SEP, Shape(t))
  }

  // ------------------------------------------------------------------
  // Headers
  // ------------------------------------------------------------------

  predicate HeaderFits(height: nat, size: nat, version: nat) {
    height < 0x8000_0000_0000_0000 && size < 0x8000_0000_0000_0000 && version < 0x8000_0000_0000_0000
  }

  lemma ReadZigZag(n: nat, rest: Bytes)
    requires n < 0x8000_0000_0000_0000
    ensures ReadNat(ZigZag(n) + rest) == Some((n, rest))
  {
    Varint.DecodeEncode(2 * n, rest);
  }

  lemma ReadHeader(height: nat, size: nat, version: nat, rest: Bytes, minHeight: nat)
    requires HeaderFits(height, size, version) && minHeight <= height
    ensures ReadIavlPrefix(Header(height, size, version) + rest, minHeight) == Some(rest)
  {
    hide ReadNat, ZigZag;
    assert Header(height, size, version) + rest == ZigZag(height) + (ZigZag(size) + (ZigZag(version) + rest));
    ReadZigZag(height, ZigZag(size) + (ZigZag(version) + rest));
    ReadZigZag(size, ZigZag(version) + rest);
    ReadZigZag(version, rest);
  }

  lemma HeaderBytes(height: nat, size: nat, version: nat)
    requires HeaderFits(height, size, version)
    ensures 3 <= |Header(height, size, version)| <= 30
    ensures Header(height, size, version)[0] == 0 <==> height == 0
  {
    assert Varint.Cap128(10) == 0x40_0000_0000_0000_0000;
    Varint.EncodeLength(2 * height, 10);
    Varint.EncodeLength(2 * size, 10);
    Varint.EncodeLength(2 * version, 10);
  }

  lemma {:induction false} ShapeHonest(t: Iavl)
    requires WellFormed(t)
    ensures HashTree.Honest(IAVL, SEP, Shape(t)) && HashTree.PrefixesReach(IAVL, SEP, Shape(t))
  {
    match t
    case Leaf(version, _, _) => HeaderBytes(0, 1, version);
    case Node(version, left, right) =>
      HeaderBytes(Height(t), Size(t), version);
      ShapeHonest(left);
      ShapeHonest(right);
  }

  // ------------------------------------------------------------------
  // Soundness
  // ------------------------------------------------------------------

  /** The spec's rule for leaf prefixes: three varints, nothing left over. */
  predicate LeafPrefix(p: Bytes) {
    p != [] && p[0] == 0 && ReadIavlPrefix(p, 0) == Some([])
  }

  lemma HeaderOfLeaf(version: nat)
    requires version < 0x8000_0000_0000_0000
    ensures LeafPrefix(Header(0, 1, version))
  {
    HeaderBytes(0, 1, version);
    ReadHeader(0, 1, version, [], 0);
    assert Header(0, 1, version) + [] == Header(0, 1, version);
  }

  lemma {:induction false} LeafInContents(t: Iavl, leaf: HashTree.Tree)
    requires WellFormed(t) && leaf in HashTree.Leaves(Shape(t))
    ensures leaf.Leaf? && leaf.key in Contents(t) && Contents(t)[leaf.key] == leaf.value
    ensures LeafPrefix(leaf.prefix)
    decreases t
  {
    match t
    case Leaf(version, _, _) => HeaderOfLeaf(version);
    case Node(_, left, right) =>
      if leaf in HashTree.Leaves(Shape(left)) {
        LeafInContents(left, leaf);
        if leaf.key in Contents(right) { CompareSelf(leaf.key); }
      } else {
        LeafInContents(right, leaf);
      }
  }

  lemma {:induction false} CompareSelf(a: seq<int>)
    ensures Compare(a, a) == Equal
  {
    if a != [] { CompareSelf(a[1..]); }
  }

  lemma {:induction false} LeafValueHashed(H: Hasher, sep: Bytes, t: HashTree.Tree, leaf: HashTree.Tree)
    requires leaf in HashTree.Leaves(t) && leaf.Leaf?
    ensures leaf.value in HashTree.TreeImages(H, sep, t)
    decreases t
  {
    if t.Node? {
      LeafValueHashed(H, sep, if leaf in HashTree.Leaves(t.left) then t.left else t.right, leaf);
    }
  }

  /** The value's part of a leaf image has 33 bytes, so equal images split at the same place. */
  lemma LeafImageSplits(H: Hasher, p: Bytes, k: Bytes, v: Bytes, p': Bytes, k': Bytes, v': Bytes)
    requires HashTree.LeafImage(H, p, k, v) == HashTree.LeafImage(H, p', k', v')
    ensures p + Prefixed(k) == p' + Prefixed(k') && H.Hash(v) == H.Hash(v')
  {
    hide Prefixed;
    HashPrefixed(H, v);
    HashPrefixed(H, v');
    SameLengthTails(p + Prefixed(k), Prefixed(H.Hash(v)), p' + Prefixed(k'), Prefixed(H.Hash(v')));
  }

  lemma HashPrefixed(H: Hasher, v: Bytes)
    ensures |Prefixed(H.Hash(v))| == 33 && Prefixed(H.Hash(v))[1..] == H.Hash(v)
  {
    assert Prefixed(H.Hash(v)) == [32] + H.Hash(v);
  }

  lemma SameLengthTails(a: Bytes, x: Bytes, b: Bytes, y: Bytes)
    requires a + x == b + y && |x| == |y|
    ensures a == b && x == y
  {
    assert (a + x)[..|a|] == a && (b + y)[..|a|] == b;
    assert (a + x)[|a|..] == x && (b + y)[|a|..] == y;
  }

  lemma ReadNatMore(b: Bytes, more: Bytes)
    requires ReadNat(b).Some?
    ensures ReadNat(b + more) == Some((ReadNat(b).value.0, ReadNat(b).value.1 + more))
  {
    Varint.SelfDelimiting(b, more, 10);
  }

  lemma ReadIavlPrefixMore(b: Bytes, more: Bytes)
    requires ReadIavlPrefix(b, 0) == Some([])
    ensures ReadIavlPrefix(b + more, 0) == Some(more)
  {
    var r1 := ReadNat(b).value.1;
    var r2 := ReadNat(r1).value.1;
    ReadNatMore(b, more);
    ReadNatMore(r1, more);
    ReadNatMore(r2, more);
    assert [] + more == more;
  }

  /** With prefixes of three varints and nothing left over, a leaf image determines its key. */
  lemma LeafKeyDetermined(p: Bytes, k: Bytes, p': Bytes, k': Bytes)
    requires LeafPrefix(p) && LeafPrefix(p')
    requires p + Prefixed(k) == p' + Prefixed(k')
    ensures k == k'
  {
    ReadIavlPrefixMore(p, Prefixed(k));
    ReadIavlPrefixMore(p', Prefixed(k'));
    Varint.PrefixFree(|k|, k, |k'|, k');
  }

  ghost predicate Proven(H: Hasher, t: Iavl, ep: ExistenceProof) {
    || (ep.key in Contents(t) && Contents(t)[ep.key] == ep.value)
    || HashTree.CollisionIn(H, HashTree.TreeImages(H, SEP, Shape(t)) + HashTree.ProofImages(H, ep))
  }

  lemma ProvenByVerdict(H: Hasher, t: Iavl, ep: ExistenceProof, v: HashTree.Verdict)
    requires WellFormed(t) && ep.leaf.Some? && LeafPrefix(ep.leaf.value.prefix)
    requires HashTree.Certified(H, SEP, Shape(t), HashTree.ProofLeafImage(H, ep),
                                HashTree.TreeImages(H, SEP, Shape(t)) + HashTree.ProofImages(H, ep), v)
    ensures Proven(H, t, ep)
  {
    hide LeafPrefix, WellFormed, Shape, Contents, HashTree.CollisionIn, HashTree.Leaves, HashTree.RootImage;
    hide HashTree.ProofLeafImage, HashTree.TreeImages;
    var images := HashTree.TreeImages(H, SEP, Shape(t)) + HashTree.ProofImages(H, ep);
    match v
    case Collision(x, y) =>
      HashTree.CollisionOf(H, images, x, y);
    case AtLeaf(leaf) =>
      LeafInContents(t, leaf);
      LeafValueHashed(H, SEP, Shape(t), leaf);
      SameLeaf(H, leaf, ep);
      if leaf.value != ep.value { HashTree.CollisionOf(H, images, leaf.value, ep.value); }
  }

  /** A conforming proof that reaches the root of a tree proves a pair of that tree, or exhibits a collision. */
  lemma Sound(H: Hasher, t: Iavl, ep: ExistenceProof)
    requires WellFormed(t) && Conforms(IAVL, ep)
    requires CalculateExistenceRoot(H, ep) == Some(Root(H, t))
    ensures Proven(H, t, ep)
  {
    hide ReadIavlPrefix, Proven, HashTree.Honest, HashTree.Certified, CalculateExistenceRoot;
    ShapeHonest(t);
    var v := HashTree.ProofEndsAtLeaf(H, IAVL, SEP, Shape(t), ep);
    ProvenByVerdict(H, t, ep, v);
  }

  lemma SameLeaf(H: Hasher, leaf: HashTree.Tree, ep: ExistenceProof)
    requires leaf.Leaf? && LeafPrefix(leaf.prefix) && ep.leaf.Some? && LeafPrefix(ep.leaf.value.prefix)
    requires HashTree.RootImage(H, SEP, leaf) == HashTree.ProofLeafImage(H, ep)
    ensures leaf.key == ep.key && H.Hash(leaf.value) == H.Hash(ep.value)
  {
    LeafImageSplits(H, leaf.prefix, leaf.key, leaf.value, ep.leaf.value.prefix, ep.key, ep.value);
    LeafKeyDetermined(leaf.prefix, leaf.key, ep.leaf.value.prefix, ep.key);
  }

  // ------------------------------------------------------------------
  // Completeness
  // ------------------------------------------------------------------

  lemma {:induction false} ShapeKeys(t: Iavl)
    ensures HashTree.Keys(Shape(t)) == Contents(t).Keys
  {
    if t.Node? { ShapeKeys(t.left); ShapeKeys(t.right); }
  }

  predicate HeadersOk(path: seq<InnerOp>) {
    forall i :: 0 <= i < |path| ==> IavlInnerPrefix(path[i].prefix, i + 1)
  }

  lemma HeadersAppend(init: seq<InnerOp>, last: InnerOp)
    requires HeadersOk(init) && IavlInnerPrefix(last.prefix, |init| + 1)
    ensures HeadersOk(init + [last])
  {
    hide IavlInnerPrefix;
  }

  /** Every step's header carries a height of at least its layer, and 1 or 34 bytes follow the header. */
  lemma {:induction false} PathHeaders(H: Hasher, t: Iavl, key: Bytes)
    requires WellFormed(t) && key in HashTree.Keys(Shape(t))
    ensures |HashTree.PathTo(H, SEP, Shape(t), key)| <= Height(t) && HeadersOk(HashTree.PathTo(H, SEP, Shape(t), key))
  {
    hide IavlInnerPrefix, HashTree.StepAt, Contents, Header;
    match t
    case Leaf(_, _, _) =>
    case Node(version, left, right) =>
      var child := if key in HashTree.Keys(Shape(left)) then left else right;
      PathHeaders(H, child, key);
      var init := HashTree.PathTo(H, SEP, Shape(child), key);
      StepHeader(H, t, key, |init| + 1);
      HeadersAppend(init, HashTree.StepAt(H, SEP, Shape(t), key));
  }

  lemma StepHeader(H: Hasher, t: Iavl, key: Bytes, layer: nat)
    requires WellFormed(t) && t.Node? && layer <= Height(t)
    ensures IavlInnerPrefix(HashTree.StepAt(H, SEP, Shape(t), key).prefix, layer)
  {
    hide ReadIavlPrefix, HashTree.Root, HashTree.Keys, Contents, Header;
    var step := HashTree.StepAt(H, SEP, Shape(t), key);
    var header := Header(Height(t), Size(t), t.version);
    var left := HashTree.Root(H, SEP, Shape(t.left));
    var rest := if key in HashTree.Keys(Shape(t.left)) then SEP else SEP + left + SEP;
    assert step.prefix == header + rest;
    ReadHeader(Height(t), Size(t), t.version, rest, layer);
  }

  function ProofOf(H: Hasher, t: Iavl, key: Bytes): ExistenceProof
    requires key in Contents(t)
  {
    ShapeKeys(t);
    HashTree.ProofOf(H, SEP, Shape(t), key)
  }

  /** Every step to a right child leaves a header short enough for the spec's bound of 12. */
  predicate StepsFit(t: Iavl, key: Bytes)
    requires key in Contents(t)
  {
    ShapeKeys(t);
    HashTree.StepsFit(IAVL, SEP, Shape(t), key)
  }

  lemma ConformsByParts(ep: ExistenceProof, prefix: Bytes)
    requires ep.leaf == Some(LeafOpWith(prefix)) && LeafPrefix(prefix) && HeadersOk(ep.path)
    ensures Conforms(IAVL, ep) <==> HashTree.Shaped(IAVL, ep.path)
  {
    hide ReadIavlPrefix, IavlInnerPrefix, InnerShape;
    if Conforms(IAVL, ep) {
      forall i | 0 <= i < |ep.path| ensures InnerShape(IAVL, ep.path[i]) {
        assert InnerConforms(IAVL, ep.path[i], i + 1);
      }
    }
  }

  lemma ProofOfConforms(H: Hasher, t: Iavl, key: Bytes)
    requires WellFormed(t) && key in Contents(t)
    ensures Conforms(IAVL, ProofOf(H, t, key)) <==> StepsFit(t, key)
    ensures ProofOf(H, t, key).value == Contents(t)[key] && key != []
  {
    hide Conforms, LeafPrefix, HeadersOk, HashTree.Honest, HashTree.PrefixesReach, HashTree.Shaped;
    hide HashTree.Leaves, HashTree.LeafAt;
    ShapeKeys(t);
    ShapeHonest(t);
    var leaf := HashTree.LeafAt(Shape(t), key);
    LeafInContents(t, leaf);
    KeysNonEmpty(t, key);
    HashTree.PathToShape(H, IAVL, SEP, Shape(t), key);
    PathHeaders(H, t, key);
    ConformsByParts(ProofOf(H, t, key), leaf.prefix);
  }

  lemma {:induction false} KeysNonEmpty(t: Iavl, key: Bytes)
    requires WellFormed(t) && key in Contents(t)
    ensures key != []
  {
    if t.Node? { KeysNonEmpty(if key in Contents(t.left) then t.left else t.right, key); }
  }

  /** The proof read off the tree verifies exactly when the value is not empty and the headers on its path fit. */
  lemma Complete(H: Hasher, t: Iavl, key: Bytes)
    requires WellFormed(t) && key in Contents(t)
    ensures VerifyExistence(H, IAVL, ProofOf(H, t, key), Root(H, t), key, Contents(t)[key])
            <==> Contents(t)[key] != [] && StepsFit(t, key)
  {
    ShapeKeys(t);
    ProofOfConforms(H, t, key);
    var ep := ProofOf(H, t, key);
    if ep.value != [] && StepsFit(t, key) {
      HashTree.ProofOfReachesRoot(H, IAVL, SEP, Shape(t), key);
    }
  }

  // ------------------------------------------------------------------
  // Which headers fit
  // ------------------------------------------------------------------

  /** A root of version 2^62 over two leaves: its header takes 12 bytes, and the length byte after it is too much. */
  const LONG_HEADER := Node(0x4000_0000_0000_0000, Leaf(0, [1], [7]), Leaf(0, [2], [7]))

  /** A well-formed tree of whose right leaf the honest proof is refused. */
  lemma LongHeaderRefused(H: Hasher)
    ensures WellFormed(LONG_HEADER) && [2] in Contents(LONG_HEADER) && Contents(LONG_HEADER)[[2]] == [7]
    ensures !VerifyExistence(H, IAVL, ProofOf(H, LONG_HEADER, [2]), Root(H, LONG_HEADER), [2], [7])
  {
    hide ProofOf, Conforms, CalculateExistenceRoot, Root;
    var t := LONG_HEADER;
    assert Compare([1], [2]) == Less;
    EncodeTenBytes();
    assert |Header(Height(t), Size(t), t.version)| > 11;
    Complete(H, t, [2]);
  }

  lemma EncodeTenBytes()
    ensures |ZigZag(0x4000_0000_0000_0000)| > 9
  {
    hide Varint.Encode;
    assert Varint.Cap128(9) == 0x8000_0000_0000_0000;
    Varint.EncodeLength(0x8000_0000_0000_0000, 9);
  }

  predicate Modest(t: Iavl) {
    && t.version < 0x4_0000_0000 && Size(t) < 0x4_0000_0000 && Height(t) < 64
    && (t.Node? ==> Modest(t.left) && Modest(t.right))
  }

  /** With fewer than 2^34 keys, versions below 2^34 and a height below 64, every honest proof fits. */
  lemma {:induction false} ModestFits(t: Iavl, key: Bytes)
    requires Modest(t) && key in Contents(t)
    ensures StepsFit(t, key)
  {
    hide Header;
    ShapeKeys(t);
    if t.Node? {
      ShapeKeys(t.left);
      ModestHeader(Height(t), Size(t), t.version);
      ModestFits(if key in Contents(t.left) then t.left else t.right, key);
    }
  }

  lemma ModestHeader(height: nat, size: nat, version: nat)
    requires height < 64 && size < 0x4_0000_0000 && version < 0x4_0000_0000
    ensures |Header(height, size, version)| <= 11
  {
    hide Varint.Encode;
    assert Varint.Cap128(1) == 128 && Varint.Cap128(5) == 0x8_0000_0000;
    Varint.EncodeLength(2 * height, 1);
    Varint.EncodeLength(2 * size, 5);
    Varint.EncodeLength(2 * version, 5);
  }
}
