/**
 * Binary hash trees in the two shapes of the Cosmos stores, and what an existence proof
 * against the root of an honestly built one establishes.
 */
module HashTree {
  import opened Basics
  import opened Ics23

  datatype Tree = Leaf(prefix: Bytes, key: Bytes, value: Bytes) | Node(prefix: Bytes, left: Tree, right: Tree)

  function LeafImage(H: Hasher, prefix: Bytes, key: Bytes, value: Bytes): Bytes {
    prefix + Prefixed(key) + Prefixed(H.Hash(value))
  }

  /** `sep` stands before either child hash: empty in the multistore, a length byte in IAVL. */
  function NodeImage(sep: Bytes, prefix: Bytes, left: Bytes, right: Bytes): Bytes {
    prefix + sep + left + sep + right
  }

  function RootImage(H: Hasher, sep: Bytes, t: Tree): Bytes
    decreases t, 0
  {
    match t
    case Leaf(prefix, key, value) => LeafImage(H, prefix, key, value)
    case Node(prefix, left, right) => NodeImage(sep, prefix, Root(H, sep, left), Root(H, sep, right))
  }

  function Root(H: Hasher, sep: Bytes, t: Tree): (r: Bytes)
    ensures |r| == 32
    decreases t, 1
  {
    H.Hash(RootImage(H, sep, t))
  }

  function Leaves(t: Tree): set<Tree> {
    match t
    case Leaf(_, _, _) => {t}
    case Node(_, left, right) => Leaves(left) + Leaves(right)
  }

  // ------------------------------------------------------------------
  // The strings that get hashed, and collisions among them
  // ------------------------------------------------------------------

  function TreeImages(H: Hasher, sep: Bytes, t: Tree): set<Bytes> {
    match t
    case Leaf(_, _, value) => {RootImage(H, sep, t), value}
    case Node(_, left, right) => {RootImage(H, sep, t)} + TreeImages(H, sep, left) + TreeImages(H, sep, right)
  }

  /** The path fold when every step hashes with SHA-256. */
  function PathHash(H: Hasher, leafImage: Bytes, path: seq<InnerOp>): (r: Bytes)
    ensures |r| == 32
    decreases path, 1
  {
    H.Hash(PathImage(H, leafImage, path))
  }

  function PathImage(H: Hasher, leafImage: Bytes, path: seq<InnerOp>): Bytes
    decreases path, 0
  {
    if path == [] then leafImage else
      var op := path[|path| - 1];
      op.prefix + PathHash(H, leafImage, path[..|path| - 1]) + op.suffix
  }

  function PathImages(H: Hasher, leafImage: Bytes, path: seq<InnerOp>): set<Bytes> {
    {PathImage(H, leafImage, path)} + if path == [] then {} else PathImages(H, leafImage, path[..|path| - 1])
  }

  function ProofLeafImage(H: Hasher, ep: ExistenceProof): Bytes
    requires ep.leaf.Some?
  {
    LeafImage(H, ep.leaf.value.prefix, ep.key, ep.value)
  }

  function ProofImages(H: Hasher, ep: ExistenceProof): set<Bytes> {
    if ep.leaf.None? then {} else PathImages(H, ProofLeafImage(H, ep), ep.path) + {ep.value}
  }

  /** Two different strings among the given ones that hash alike. */
  ghost predicate CollisionIn(H: Hasher, images: set<Bytes>) {
    exists x, y :: x in images && y in images && x != y && H.Hash(x) == H.Hash(y)
  }

  lemma CollisionOf(H: Hasher, images: set<Bytes>, x: Bytes, y: Bytes)
    requires x in images && y in images && x != y && H.Hash(x) == H.Hash(y)
    ensures CollisionIn(H, images)
  {
  }

  lemma CollisionWidens(H: Hasher, small: set<Bytes>, large: set<Bytes>)
    requires CollisionIn(H, small) && small <= large
    ensures CollisionIn(H, large)
  {
  }

  // ------------------------------------------------------------------
  // Honest trees
  // ------------------------------------------------------------------

  predicate SpecFor(spec: ProofSpec, sep: Bytes) {
    (spec == IAVL && |sep| == 1) || (spec == TENDERMINT && sep == [])
  }

  /** What any honestly built tree of either kind satisfies. */
  predicate Honest(spec: ProofSpec, sep: Bytes, t: Tree) {
    match t
    case Leaf(prefix, _, _) => prefix != [] && prefix[0] == 0
    case Node(prefix, left, right) =>
      && prefix != [] && prefix[0] != 0
      && |prefix| + |sep| < spec.minPrefix + spec.childSize
      && Honest(spec, sep, left) && Honest(spec, sep, right)
  }

  // ------------------------------------------------------------------
  // Soundness
  // ------------------------------------------------------------------

  /** For a conforming proof the root calculation is the plain hash fold. */
  lemma {:induction false} PathIsHash(H: Hasher, leafImage: Bytes, path: seq<InnerOp>)
    requires forall i :: 0 <= i < |path| ==> path[i].hash == Sha256
    ensures ApplyPath(H, H.Hash(leafImage), path) == Some(PathHash(H, leafImage, path))
  {
    if path == [] {
    } else {
      PathIsHash(H, leafImage, path[..|path| - 1]);
    }
  }

  lemma SlotCounts(n: nat, size: nat)
    requires WholeSlots(n, size)
    ensures n == 0 || n == size || n >= 2 * size
  {
    if n > size { assert WholeSlots(n - size, size); }
  }

  /** Prefix bounds and a suffix of whole child slots leave the child only the left or the right slot. */
  lemma ChildAlignment(spec: ProofSpec, sep: Bytes, op: InnerOp, child: Bytes, prefix: Bytes, left: Bytes, right: Bytes)
    requires SpecFor(spec, sep) && InnerShape(spec, op)
    requires |child| == |left| == |right| == 32
    requires |prefix| + |sep| < spec.minPrefix + spec.childSize
    requires op.prefix + child + op.suffix == NodeImage(sep, prefix, left, right)
    ensures child == left || child == right
  {
    var image := NodeImage(sep, prefix, left, right);
    var c := spec.childSize;
    Middle(op.prefix, child, op.suffix);
    SlotCounts(|op.suffix|, c);
    assert |op.prefix| + |op.suffix| == |prefix| + |sep| + c;
    if |op.suffix| == 0 {
      assert image == (prefix + sep + left + sep) + right + [];
      Middle(prefix + sep + left + sep, right, []);
    } else {
      assert image == (prefix + sep) + left + (sep + right);
      Middle(prefix + sep, left, sep + right);
    }
  }

  lemma Middle(a: Bytes, b: Bytes, c: Bytes)
    ensures (a + b + c)[|a|..|a| + |b|] == b
  {
  }

  predicate Shaped(spec: ProofSpec, path: seq<InnerOp>) {
    forall i :: 0 <= i < |path| ==> InnerShape(spec, path[i])
  }

  lemma ShapedSplit(spec: ProofSpec, init: seq<InnerOp>, last: InnerOp)
    ensures Shaped(spec, init + [last]) <==> Shaped(spec, init) && InnerShape(spec, last)
  {
    var path := init + [last];
    assert path[|init|] == last && forall i :: 0 <= i < |init| ==> init[i] == path[i];
  }

  /** Leaf and inner images differ in their first byte. */
  lemma InnerImageStarts(spec: ProofSpec, sep: Bytes, op: InnerOp, child: Bytes)
    requires SpecFor(spec, sep) && InnerShape(spec, op)
    ensures op.prefix != [] && (op.prefix + child + op.suffix)[0] == op.prefix[0] != 0
  {
  }

  /** One step down from an inner image that equals the image of `t`'s root: the fold continues at a child of `t`. */
  lemma StepDown(H: Hasher, spec: ProofSpec, sep: Bytes, t: Tree, op: InnerOp, child: Bytes) returns (next: Tree)
    requires SpecFor(spec, sep) && Honest(spec, sep, t) && InnerShape(spec, op) && |child| == 32
    requires op.prefix + child + op.suffix == RootImage(H, sep, t)
    ensures t.Node? && (next == t.left || next == t.right) && Honest(spec, sep, next) && child == Root(H, sep, next)
  {
    InnerImageStarts(spec, sep, op, child);
    assert t.Node?;
    var l, r := Root(H, sep, t.left), Root(H, sep, t.right);
    ChildAlignment(spec, sep, op, child, t.prefix, l, r);
    next := if child == l then t.left else t.right;
  }

  /** Where following a proof down an honest tree ends. */
  datatype Verdict = AtLeaf(leaf: Tree) | Collision(x: Bytes, y: Bytes)

  ghost predicate Certified(H: Hasher, sep: Bytes, t: Tree, leafImage: Bytes, images: set<Bytes>, v: Verdict) {
    match v
    case AtLeaf(leaf) => leaf in Leaves(t) && RootImage(H, sep, leaf) == leafImage
    case Collision(x, y) => x in images && y in images && x != y && H.Hash(x) == H.Hash(y)
  }

  lemma CertifiedFromChild(H: Hasher, sep: Bytes, t: Tree, next: Tree, leafImage: Bytes, path: seq<InnerOp>, v: Verdict)
    requires t.Node? && (next == t.left || next == t.right) && path != []
    requires Certified(H, sep, next, leafImage,
                       TreeImages(H, sep, next) + PathImages(H, leafImage, path[..|path| - 1]), v)
    ensures Certified(H, sep, t, leafImage, TreeImages(H, sep, t) + PathImages(H, leafImage, path), v)
  {
  }

  /** A path that hashes to an honest root starts at one of the tree's leaf images, or exhibits a collision. */
  lemma {:induction false} PathEndsAtLeaf(H: Hasher, spec: ProofSpec, sep: Bytes, t: Tree, leafImage: Bytes,
                                          path: seq<InnerOp>)
    returns (v: Verdict)
    requires SpecFor(spec, sep) && Honest(spec, sep, t)
    requires leafImage != [] && leafImage[0] == 0
    requires Shaped(spec, path)
    requires PathHash(H, leafImage, path) == Root(H, sep, t)
    ensures Certified(H, sep, t, leafImage, TreeImages(H, sep, t) + PathImages(H, leafImage, path), v)
    decreases t
  {
    var x, y := PathImage(H, leafImage, path), RootImage(H, sep, t);
    if x != y {
      v := Collision(x, y);
    } else if path == [] {
      v := AtLeaf(t);
    } else {
      var init := path[..|path| - 1];
      var next := StepDown(H, spec, sep, t, path[|path| - 1], PathHash(H, leafImage, init));
      v := PathEndsAtLeaf(H, spec, sep, next, leafImage, init);
      CertifiedFromChild(H, sep, t, next, leafImage, path, v);
    }
  }

  lemma ConformingPath(spec: ProofSpec, ep: ExistenceProof)
    requires Conforms(spec, ep)
    ensures Shaped(spec, ep.path) && forall i :: 0 <= i < |ep.path| ==> ep.path[i].hash == Sha256
  {
    forall i | 0 <= i < |ep.path| ensures InnerShape(spec, ep.path[i]) {
      assert InnerConforms(spec, ep.path[i], i + 1);
    }
  }

  lemma RootOfConforming(H: Hasher, spec: ProofSpec, ep: ExistenceProof)
    requires Conforms(spec, ep) && ep.key != [] && ep.value != []
    ensures CalculateExistenceRoot(H, ep) == Some(PathHash(H, ProofLeafImage(H, ep), ep.path))
  {
    ConformingPath(spec, ep);
    PathIsHash(H, ProofLeafImage(H, ep), ep.path);
  }

  /** An accepted proof against an honest root starts at one of the tree's leaves, or exhibits a collision. */
  lemma ProofEndsAtLeaf(H: Hasher, spec: ProofSpec, sep: Bytes, t: Tree, ep: ExistenceProof) returns (v: Verdict)
    requires SpecFor(spec, sep) && Honest(spec, sep, t) && Conforms(spec, ep)
    requires CalculateExistenceRoot(H, ep) == Some(Root(H, sep, t))
    ensures Certified(H, sep, t, ProofLeafImage(H, ep), TreeImages(H, sep, t) + ProofImages(H, ep), v)
  {
    RootOfConforming(H, spec, ep);
    ConformingPath(spec, ep);
    var image := ProofLeafImage(H, ep);
    v := PathEndsAtLeaf(H, spec, sep, t, image, ep.path);
  }

  // ------------------------------------------------------------------
  // Completeness
  // ------------------------------------------------------------------

  function Keys(t: Tree): (r: set<Bytes>)
    ensures r != {}
  {
    match t
    case Leaf(_, key, _) => {key}
    case Node(_, left, right) => var l := Keys(left); assert exists k :: k in l; l + Keys(right)
  }

  function LeafAt(t: Tree, key: Bytes): (r: Tree)
    requires key in Keys(t)
    ensures r.Leaf? && r.key == key && r in Leaves(t)
  {
    match t
    case Leaf(_, _, _) => t
    case Node(_, left, right) => if key in Keys(left) then LeafAt(left, key) else LeafAt(right, key)
  }

  /** The last step of the audit path, next to the root of `t`. */
  function StepAt(H: Hasher, sep: Bytes, t: Tree, key: Bytes): InnerOp
    requires t.Node?
  {
    if key in Keys(t.left) then InnerOp(Sha256, t.prefix + sep, sep + Root(H, sep, t.right))
    else InnerOp(Sha256, t.prefix + sep + Root(H, sep, t.left) + sep, [])
  }

  /** The audit path a node reads off its tree, leaf end first. */
  function PathTo(H: Hasher, sep: Bytes, t: Tree, key: Bytes): seq<InnerOp>
    requires key in Keys(t)
  {
    match t
    case Leaf(_, _, _) => []
    case Node(_, left, right) =>
      PathTo(H, sep, if key in Keys(left) then left else right, key) + [StepAt(H, sep, t, key)]
  }

  function ProofOf(H: Hasher, sep: Bytes, t: Tree, key: Bytes): ExistenceProof
    requires key in Keys(t)
  {
    var leaf := LeafAt(t, key);
    ExistenceProof(key, leaf.value, Some(LeafOpWith(leaf.prefix)), PathTo(H, sep, t, key))
  }

  lemma {:induction false} PathToReachesRoot(H: Hasher, sep: Bytes, t: Tree, key: Bytes)
    requires key in Keys(t)
    ensures PathHash(H, RootImage(H, sep, LeafAt(t, key)), PathTo(H, sep, t, key)) == Root(H, sep, t)
  {
    match t
    case Leaf(_, _, _) =>
    case Node(prefix, left, right) =>
      var child := if key in Keys(left) then left else right;
      PathToReachesRoot(H, sep, child, key);
      var path := PathTo(H, sep, t, key);
      assert path[..|path| - 1] == PathTo(H, sep, child, key);
      var step := path[|path| - 1];
      assert step.prefix + Root(H, sep, child) + step.suffix == RootImage(H, sep, t);
  }

  lemma ProofOfReachesRoot(H: Hasher, spec: ProofSpec, sep: Bytes, t: Tree, key: Bytes)
    requires key in Keys(t) && Conforms(spec, ProofOf(H, sep, t, key))
    requires key != [] && ProofOf(H, sep, t, key).value != []
    ensures CalculateExistenceRoot(H, ProofOf(H, sep, t, key)) == Some(Root(H, sep, t))
  {
    hide Conforms, CalculateExistenceRoot, PathHash, PathTo;
    RootOfConforming(H, spec, ProofOf(H, sep, t, key));
    PathToReachesRoot(H, sep, t, key);
  }

  /** The steps that a spec's prefix bounds admit: a right child may follow only a short enough node prefix. */
  predicate StepsFit(spec: ProofSpec, sep: Bytes, t: Tree, key: Bytes)
    requires key in Keys(t)
  {
    match t
    case Leaf(_, _, _) => true
    case Node(prefix, left, right) =>
      if key in Keys(left) then StepsFit(spec, sep, left, key)
      else |prefix| + |sep| <= spec.maxPrefix && StepsFit(spec, sep, right, key)
  }

  predicate PrefixesReach(spec: ProofSpec, sep: Bytes, t: Tree) {
    t.Node? ==>
      && spec.minPrefix <= |t.prefix| + |sep| <= spec.maxPrefix + spec.childSize
      && PrefixesReach(spec, sep, t.left) && PrefixesReach(spec, sep, t.right)
  }

  lemma StepAtShape(H: Hasher, spec: ProofSpec, sep: Bytes, t: Tree, key: Bytes)
    requires SpecFor(spec, sep) && Honest(spec, sep, t) && PrefixesReach(spec, sep, t) && t.Node?
    ensures InnerShape(spec, StepAt(H, sep, t, key)) <==> (key in Keys(t.left) || |t.prefix| + |sep| <= spec.maxPrefix)
  {
    var c := spec.childSize;
    assert WholeSlots(c - c, c);
    assert WholeSlots(c, c);
  }

  lemma {:induction false} PathToShape(H: Hasher, spec: ProofSpec, sep: Bytes, t: Tree, key: Bytes)
    requires SpecFor(spec, sep) && Honest(spec, sep, t) && PrefixesReach(spec, sep, t) && key in Keys(t)
    ensures Shaped(spec, PathTo(H, sep, t, key)) <==> StepsFit(spec, sep, t, key)
  {
    if t.Node? {
      var child := if key in Keys(t.left) then t.left else t.right;
      ShapedSplit(spec, PathTo(H, sep, child, key), StepAt(H, sep, t, key));
      StepAtShape(H, spec, sep, t, key);
      PathToShape(H, spec, sep, child, key);
    }
  }
}
