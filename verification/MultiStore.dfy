/** The multistore: named module trees committed in one simple Merkle tree, whose root is the AppHash. */
module MultiStore {
  import opened Basics
  import opened Ics23
  import HashTree
  import Iavl
  import Varint

  datatype Store = Store(name: Bytes, tree: Option<Iavl.Iavl>)

  function CommitRoot(H: Hasher, s: Store): (r: Bytes)
    ensures |r| == 32
  {
    match s.tree
    case None => H.Hash([])
    case Some(t) => Iavl.Root(H, t)
  }

  // ------------------------------------------------------------------
  // The simple tree, shaped as in section 2.1 of RFC 6962
  // ------------------------------------------------------------------

  /** The largest power of two below `n`, reached by doubling `k`. */
  function SplitFrom(k: nat, n: nat): (r: nat)
    requires 0 < k < n
    ensures k <= r < n <= 2 * r
    decreases n - k
  {
    if 2 * k >= n then k else SplitFrom(2 * k, n)
  }

  datatype Entry = Entry(name: Bytes, root: Bytes)

  function Shape(entries: seq<Entry>): HashTree.Tree
    requires entries != []
    decreases |entries|
  {
    if |entries| == 1 then HashTree.Leaf([0], entries[0].name, entries[0].root)
    else
      var k := SplitFrom(1, |entries|);
      HashTree.Node([1], Shape(entries[..k]), Shape(entries[k..]))
  }

  function Entries(H: Hasher, ms: seq<Store>): (r: seq<Entry>)
    ensures |r| == |ms|
    ensures forall i :: 0 <= i < |ms| ==> r[i] == Entry(ms[i].name, CommitRoot(H, ms[i]))
  {
    if ms == [] then [] else [Entry(ms[0].name, CommitRoot(H, ms[0]))] + Entries(H, ms[1..])
  }

  function AppHash(H: Hasher, ms: seq<Store>): Bytes {
    if ms == [] then H.Hash([]) else HashTree.Root(H, [], Shape(Entries(H, ms)))
  }

  // ------------------------------------------------------------------
  // Store names
  // ------------------------------------------------------------------

  /** Some ending of the name is itself a length-prefixed string that is not empty. */
  predicate Ambiguous(name: Bytes) {
    exists i, j :: 0 <= i < j < |name| && name[i..] == Prefixed(name[j..])
  }

  /** What hashing leaves open: a leaf prefix and another key that give a store's leaf image. */
  ghost predicate ReadsAs(name: Bytes, prefix: Bytes, key: Bytes) {
    prefix != [] && prefix[0] == 0 && key != [] && prefix + Prefixed(key) == [0] + Prefixed(name)
  }

  lemma SameTail(a: Bytes, x: Bytes, b: Bytes, y: Bytes)
    requires a + x == b + y && |b| <= |a|
    ensures y[|a| - |b|..] == x
  {
    assert (a + x)[|a|..] == x && (b + y)[|a|..] == y[|a| - |b|..];
  }

  lemma OnlyReadAsItself(name: Bytes, prefix: Bytes, key: Bytes)
    requires ReadsAs(name, prefix, key)
    ensures key == name || Ambiguous(name)
  {
    hide Varint.Encode;
    var extra, length := prefix[1..], Varint.Encode(|name|);
    var whole := extra + Prefixed(key);
    assert prefix == [0] + extra;
    assert whole == (prefix + Prefixed(key))[1..] == ([0] + Prefixed(name))[1..] == length + name;
    if |extra| == 0 {
      assert whole == Prefixed(key);
      Varint.PrefixFree(|key|, key, |name|, name);
    } else if |extra| < |length| {
      var m := Varint.EncodeTail(|name|, |extra|);
      assert Prefixed(key) == whole[|extra|..] == length[|extra|..] + name;
      Varint.PrefixFree(|key|, key, m, name);
    } else {
      var i, j := |extra| - |length|, |name| - |key|;
      SameTail(extra, Prefixed(key), length, name);
      assert Prefixed(key)[|Varint.Encode(|key|)|..] == key;
      assert name[j..] == name[i..][j - i..] == key;
    }
  }

  /** A name with a second reading: the one byte `A` after its own length. */
  lemma AmbiguousName()
    ensures ReadsAs([1, 65], [0, 2], [65]) && Ambiguous([1, 65])
  {
    assert [1, 65] == Prefixed([65]) && [0] + Prefixed([1, 65]) == [0, 2] + Prefixed([65]);
    assert [1, 65][0..] == Prefixed([1, 65][1..]);
  }

  /** The tendermint spec leaves no other reading of a store's leaf exactly when its name is not ambiguous. */
  lemma ReadingsAreUnique(name: Bytes)
    ensures (forall prefix, key :: ReadsAs(name, prefix, key) ==> key == name) <==> !Ambiguous(name)
  {
    if Ambiguous(name) {
      var i, j :| 0 <= i < j < |name| && name[i..] == Prefixed(name[j..]);
      var prefix := [0] + (Varint.Encode(|name|) + name[..i]);
      assert name == name[..i] + name[i..];
      assert prefix + Prefixed(name[j..]) == [0] + Prefixed(name);
      assert ReadsAs(name, prefix, name[j..]);
    } else {
      forall prefix, key | ReadsAs(name, prefix, key) ensures key == name { OnlyReadAsItself(name, prefix, key); }
    }
  }

  /** Names of printable ASCII shorter than 32 bytes, as the Cosmos modules use, are never ambiguous. */
  lemma ShortPrintableNames(name: Bytes)
    requires Printable(name) && |name| < 32
    ensures !Ambiguous(name)
  {
    forall i, j | 0 <= i < j < |name| ensures name[i..] != Prefixed(name[j..]) {
      assert name[i..][0] == name[i] && Prefixed(name[j..])[0] == |name| - j;
    }
  }

  // ------------------------------------------------------------------
  // Honest multistores
  // ------------------------------------------------------------------

  /** Well-formed trees under different names that are not empty. */
  predicate Named(ms: seq<Store>) {
    && (forall i :: 0 <= i < |ms| ==> ms[i].name != [])
    && (forall i :: 0 <= i < |ms| ==> ms[i].tree.Some? ==> Iavl.WellFormed(ms[i].tree.value))
    && (forall i, j :: 0 <= i < j < |ms| ==> ms[i].name != ms[j].name)
  }

  predicate WellFormed(ms: seq<Store>) {
    Named(ms) && forall i :: 0 <= i < |ms| ==> !Ambiguous(ms[i].name)
  }

  /** The store of that name maps the key to the value. */
  predicate Holds(ms: seq<Store>, name: Bytes, key: Bytes, value: Bytes) {
    exists i :: 0 <= i < |ms| && ms[i].name == name && ms[i].tree.Some? && HasPair(ms[i].tree.value, key, value)
  }

  predicate HasPair(t: Iavl.Iavl, key: Bytes, value: Bytes) {
    key in Iavl.Contents(t) && Iavl.Contents(t)[key] == value
  }

  lemma HoldsOnce(ms: seq<Store>, name: Bytes, key: Bytes, value: Bytes, value': Bytes)
    requires WellFormed(ms) && Holds(ms, name, key, value) && Holds(ms, name, key, value')
    ensures value == value'
  {
  }

  lemma ShapeSplits(entries: seq<Entry>) returns (left: seq<Entry>, right: seq<Entry>)
    requires |entries| > 1
    ensures left != [] && right != [] && |left| < |entries| && |right| < |entries| && entries == left + right
    ensures Shape(entries) == HashTree.Node([1], Shape(left), Shape(right))
  {
    var k := SplitFrom(1, |entries|);
    left, right := entries[..k], entries[k..];
  }

  lemma {:induction false} ShapeHonest(entries: seq<Entry>)
    requires entries != []
    ensures HashTree.Honest(TENDERMINT, [], Shape(entries)) && HashTree.PrefixesReach(TENDERMINT, [], Shape(entries))
    decreases |entries|
  {
    if |entries| > 1 {
      var left, right := ShapeSplits(entries);
      ShapeHonest(left);
      ShapeHonest(right);
    }
  }

  /** The leaves are the entries, in any order. */
  lemma {:induction false} ShapeLeaves(entries: seq<Entry>, leaf: HashTree.Tree) returns (i: nat)
    requires entries != [] && leaf in HashTree.Leaves(Shape(entries))
    ensures i < |entries| && leaf == HashTree.Leaf([0], entries[i].name, entries[i].root)
    decreases |entries|
  {
    if |entries| == 1 {
      i := 0;
    } else {
      var k := SplitFrom(1, |entries|);
      if leaf in HashTree.Leaves(Shape(entries[..k])) {
        i := ShapeLeaves(entries[..k], leaf);
      } else {
        i := ShapeLeaves(entries[k..], leaf);
        i := k + i;
      }
    }
  }

  // ------------------------------------------------------------------
  // Soundness of the multistore level
  // ------------------------------------------------------------------

  /** Every string hashed to compute the AppHash from the stores' roots. */
  function CommitImages(H: Hasher, ms: seq<Store>): set<Bytes> {
    if ms == [] then {[]} else HashTree.TreeImages(H, [], Shape(Entries(H, ms)))
  }

  ghost predicate Committed(H: Hasher, ms: seq<Store>, ep: ExistenceProof) {
    || (exists i :: 0 <= i < |ms| && ms[i].name == ep.key && CommitRoot(H, ms[i]) == ep.value)
    || HashTree.CollisionIn(H, CommitImages(H, ms) + HashTree.ProofImages(H, ep))
  }

  lemma CommittedByVerdict(H: Hasher, ms: seq<Store>, ep: ExistenceProof, v: HashTree.Verdict)
    requires WellFormed(ms) && ms != [] && ep.leaf.Some? && ep.key != []
    requires ep.leaf.value.prefix != [] && ep.leaf.value.prefix[0] == 0
    requires HashTree.Certified(H, [], Shape(Entries(H, ms)), HashTree.ProofLeafImage(H, ep),
                                HashTree.TreeImages(H, [], Shape(Entries(H, ms))) + HashTree.ProofImages(H, ep), v)
    ensures Committed(H, ms, ep)
  {
    hide HashTree.CollisionIn, HashTree.Leaves, HashTree.TreeImages, HashTree.ProofLeafImage;
    hide HashTree.RootImage, Shape, Ambiguous, Entries;
    var images := CommitImages(H, ms) + HashTree.ProofImages(H, ep);
    match v
    case Collision(x, y) =>
      HashTree.CollisionOf(H, images, x, y);
    case AtLeaf(leaf) =>
      var i := ShapeLeaves(Entries(H, ms), leaf);
      Iavl.LeafValueHashed(H, [], Shape(Entries(H, ms)), leaf);
      SameLeaf(H, ms[i].name, leaf.value, ep);
      if leaf.value != ep.value { HashTree.CollisionOf(H, images, leaf.value, ep.value); }
  }

  lemma SameLeaf(H: Hasher, name: Bytes, root: Bytes, ep: ExistenceProof)
    requires !Ambiguous(name) && ep.leaf.Some? && ep.key != []
    requires ep.leaf.value.prefix != [] && ep.leaf.value.prefix[0] == 0
    requires HashTree.RootImage(H, [], HashTree.Leaf([0], name, root)) == HashTree.ProofLeafImage(H, ep)
    ensures name == ep.key && H.Hash(root) == H.Hash(ep.value)
  {
    hide Ambiguous, Prefixed;
    Iavl.LeafImageSplits(H, [0], name, root, ep.leaf.value.prefix, ep.key, ep.value);
    OnlyReadAsItself(name, ep.leaf.value.prefix, ep.key);
  }

  /** A conforming proof that reaches the AppHash proves a store's root under its name, or exhibits a collision. */
  lemma Sound(H: Hasher, ms: seq<Store>, ep: ExistenceProof)
    requires WellFormed(ms) && Conforms(TENDERMINT, ep)
    requires CalculateExistenceRoot(H, ep) == Some(AppHash(H, ms))
    ensures Committed(H, ms, ep)
  {
    hide HashTree.Honest, HashTree.Certified, HashTree.CollisionIn, InnerShape, Shape, Entries, HashTree.RootImage;
    hide ApplyLeaf, ApplyPath, Ambiguous, Iavl.WellFormed, HashTree.TreeImages, HashTree.ProofImages, Committed;
    hide InnerConforms, ReadIavlPrefix;
    if ms == [] {
      EmptyCommitsNothing(H, ms, ep);
    } else {
      ShapeHonest(Entries(H, ms));
      var v := HashTree.ProofEndsAtLeaf(H, TENDERMINT, [], Shape(Entries(H, ms)), ep);
      CommittedByVerdict(H, ms, ep, v);
    }
  }

  lemma EmptyCommitsNothing(H: Hasher, ms: seq<Store>, ep: ExistenceProof)
    requires ms == [] && Conforms(TENDERMINT, ep)
    requires CalculateExistenceRoot(H, ep) == Some(H.Hash([]))
    ensures Committed(H, ms, ep)
  {
    hide HashTree.CollisionIn;
    HashTree.RootOfConforming(H, TENDERMINT, ep);
    var image := HashTree.PathImage(H, HashTree.ProofLeafImage(H, ep), ep.path);
    ImageNotEmpty(H, TENDERMINT, ep);
    HashTree.CollisionOf(H, CommitImages(H, ms) + HashTree.ProofImages(H, ep), [], image);
  }

  lemma ImageNotEmpty(H: Hasher, spec: ProofSpec, ep: ExistenceProof)
    requires Conforms(spec, ep)
    ensures HashTree.PathImage(H, HashTree.ProofLeafImage(H, ep), ep.path) != []
  {
    if ep.path != [] {
      var op := ep.path[|ep.path| - 1];
      assert |HashTree.PathHash(H, HashTree.ProofLeafImage(H, ep), ep.path[..|ep.path| - 1])| == 32;
    }
  }

  // ------------------------------------------------------------------
  // Completeness of the multistore level
  // ------------------------------------------------------------------

  function Names(entries: seq<Entry>): set<Bytes> {
    set e | e in entries :: e.name
  }

  lemma NamesAppend(a: seq<Entry>, b: seq<Entry>)
    ensures Names(a + b) == Names(a) + Names(b)
  {
    assert forall e :: e in a + b <==> e in a || e in b;
  }

  lemma NameOfOne(entries: seq<Entry>)
    requires |entries| == 1
    ensures Names(entries) == {entries[0].name}
  {
  }

  lemma {:induction false} ShapeKeys(entries: seq<Entry>)
    requires entries != []
    ensures HashTree.Keys(Shape(entries)) == Names(entries)
    decreases |entries|
  {
    hide Names;
    if |entries| == 1 {
      NameOfOne(entries);
    } else {
      var left, right := ShapeSplits(entries);
      ShapeKeys(left);
      ShapeKeys(right);
      NamesAppend(left, right);
    }
  }

  lemma {:induction false} ShapeFits(entries: seq<Entry>, name: Bytes)
    requires entries != []
    ensures name in HashTree.Keys(Shape(entries)) ==> HashTree.StepsFit(TENDERMINT, [], Shape(entries), name)
    decreases |entries|
  {
    hide HashTree.Honest;
    if |entries| > 1 {
      hide Shape;
      var left, right := ShapeSplits(entries);
      ShapeFits(left, name);
      ShapeFits(right, name);
    }
  }

  function StoreProof(H: Hasher, ms: seq<Store>, i: nat): ExistenceProof
    requires i < |ms|
  {
    var entries := Entries(H, ms);
    ShapeKeys(entries);
    assert entries[i] in entries;
    HashTree.ProofOf(H, [], Shape(entries), ms[i].name)
  }

  lemma StoreProofConforms(H: Hasher, ms: seq<Store>, i: nat)
    requires Named(ms) && i < |ms|
    ensures Conforms(TENDERMINT, StoreProof(H, ms, i)) && StoreProof(H, ms, i).leaf == Some(LeafOpWith([0]))
    ensures StoreProof(H, ms, i).key == ms[i].name && StoreProof(H, ms, i).value == CommitRoot(H, ms[i])
  {
    hide HashTree.Honest, HashTree.PrefixesReach, HashTree.StepsFit, HashTree.PathTo, Shape, InnerShape;
    hide Ambiguous, Iavl.WellFormed;
    hide IavlInnerPrefix, ReadIavlPrefix, CommitRoot, HashTree.Leaves, HashTree.Keys;
    var entries := Entries(H, ms);
    var name := ms[i].name;
    ShapeKeys(entries);
    ShapeFits(entries, name);
    assert entries[i] in entries;
    ShapeHonest(entries);
    HashTree.PathToShape(H, TENDERMINT, [], Shape(entries), name);
    var j := ShapeLeaves(entries, HashTree.LeafAt(Shape(entries), name));
  }

  /** The proof of a store's root, read off the simple tree, always verifies. */
  lemma Complete(H: Hasher, ms: seq<Store>, i: nat)
    requires Named(ms) && i < |ms|
    ensures VerifyExistence(H, TENDERMINT, StoreProof(H, ms, i), AppHash(H, ms), ms[i].name, CommitRoot(H, ms[i]))
  {
    hide Conforms, CalculateExistenceRoot, Shape, Ambiguous, Iavl.WellFormed, HashTree.ProofOf, HashTree.Keys;
    hide HashTree.Root, CommitRoot;
    var entries := Entries(H, ms);
    ShapeKeys(entries);
    assert entries[i] in entries;
    StoreProofConforms(H, ms, i);
    HashTree.ProofOfReachesRoot(H, TENDERMINT, [], Shape(entries), ms[i].name);
  }

  // ------------------------------------------------------------------
  // Ambiguous names are exactly the unsound ones
  // ------------------------------------------------------------------

  /** The proof of a store's root, presented under another reading of its name. */
  function Misread(H: Hasher, ms: seq<Store>, i: nat, prefix: Bytes, other: Bytes): ExistenceProof
    requires i < |ms|
  {
    StoreProof(H, ms, i).(key := other, leaf := Some(LeafOpWith(prefix)))
  }

  lemma MisreadLeaf(H: Hasher, ms: seq<Store>, i: nat, prefix: Bytes, other: Bytes)
    requires Named(ms) && i < |ms| && ReadsAs(ms[i].name, prefix, other)
    ensures StoreProof(H, ms, i).leaf.Some? && other != []
    ensures HashTree.ProofLeafImage(H, Misread(H, ms, i, prefix, other))
            == HashTree.ProofLeafImage(H, StoreProof(H, ms, i))
    ensures Conforms(TENDERMINT, Misread(H, ms, i, prefix, other))
  {
    hide StoreProof, Prefixed, InnerConforms;
    StoreProofConforms(H, ms, i);
  }

  /** Under the other reading, too, the proof verifies against the honest AppHash. */
  lemma MisreadVerifies(H: Hasher, ms: seq<Store>, i: nat, prefix: Bytes, other: Bytes)
    requires Named(ms) && i < |ms| && ReadsAs(ms[i].name, prefix, other)
    ensures VerifyExistence(H, TENDERMINT, Misread(H, ms, i, prefix, other), AppHash(H, ms), other,
                            CommitRoot(H, ms[i]))
  {
    hide Conforms, CalculateExistenceRoot, StoreProof, ReadsAs, CommitRoot, AppHash, HashTree.ProofLeafImage;
    StoreProofConforms(H, ms, i);
    Complete(H, ms, i);
    MisreadLeaf(H, ms, i, prefix, other);
    HashTree.RootOfConforming(H, TENDERMINT, StoreProof(H, ms, i));
    HashTree.RootOfConforming(H, TENDERMINT, Misread(H, ms, i, prefix, other));
  }

  /** Every proof that conforms to the spec and reaches the AppHash proves what the multistore committed. */
  ghost predicate SoundFor(H: Hasher, ms: seq<Store>) {
    forall ep :: Conforms(TENDERMINT, ep) && CalculateExistenceRoot(H, ep) == Some(AppHash(H, ms)) ==>
      Committed(H, ms, ep)
  }

  /** A hash function that keeps a commitment of one store free of collisions. */
  function LengthHasher(): Hasher {
    Hasher(x => if |x| == 32 then [1] + ZEROS[1..] else ZEROS)
  }

  lemma LengthHashed(x: Bytes)
    ensures LengthHasher().Hash(x)[0] == if |x| == 32 then 1 else 0
  {
  }

  lemma LengthsDoNotCollide(x: Bytes, y: Bytes)
    requires |x| != 32 == |y|
    ensures !HashTree.CollisionIn(LengthHasher(), {x, y})
  {
    hide LengthHasher;
    LengthHashed(x);
    LengthHashed(y);
  }

  /** Its commitment and the misread proof hash two strings alone: the leaf image and the root, of different lengths. */
  lemma MisreadImages(H: Hasher, s: Store, prefix: Bytes, other: Bytes) returns (image: Bytes)
    requires Named([s]) && ReadsAs(s.name, prefix, other)
    ensures |image| > 32
    ensures CommitImages(H, [s]) + HashTree.ProofImages(H, Misread(H, [s], 0, prefix, other))
            == {image, CommitRoot(H, s)}
  {
    hide Conforms, Prefixed, ReadsAs, CommitRoot;
    var entries := Entries(H, [s]);
    var ep, leaf := Misread(H, [s], 0, prefix, other), HashTree.Leaf([0], s.name, CommitRoot(H, s));
    MisreadLeaf(H, [s], 0, prefix, other);
    StoreProofConforms(H, [s], 0);
    assert entries == [Entry(s.name, CommitRoot(H, s))] && Shape(entries) == leaf && ep.path == [];
    Iavl.HashPrefixed(H, CommitRoot(H, s));
    image := HashTree.RootImage(H, [], leaf);
    assert CommitImages(H, [s]) == {image, CommitRoot(H, s)} == HashTree.ProofImages(H, ep);
  }

  lemma MisreadIsUncommitted(s: Store, prefix: Bytes, other: Bytes)
    requires Named([s]) && ReadsAs(s.name, prefix, other) && other != s.name
    ensures !SoundFor(LengthHasher(), [s])
  {
    hide Conforms, CalculateExistenceRoot, CommitRoot, ReadsAs, CommitImages, HashTree.ProofImages, AppHash, StoreProof;
    hide HashTree.CollisionIn, LengthHasher;
    var H, ms := LengthHasher(), [s];
    var ep := Misread(H, ms, 0, prefix, other);
    MisreadVerifies(H, ms, 0, prefix, other);
    var image := MisreadImages(H, s, prefix, other);
    LengthsDoNotCollide(image, CommitRoot(H, s));
    assert !Committed(H, ms, ep);
  }

  /** The check is sound for a store under every hash function exactly when the store's name is not ambiguous. */
  lemma SoundExactlyWhenUnambiguous(s: Store)
    requires Named([s])
    ensures (forall H :: SoundFor(H, [s])) <==> !Ambiguous(s.name)
  {
    if Ambiguous(s.name) {
      ReadingsAreUnique(s.name);
      var prefix, other :| ReadsAs(s.name, prefix, other) && other != s.name;
      MisreadIsUncommitted(s, prefix, other);
    } else {
      forall H, ep | Conforms(TENDERMINT, ep) && CalculateExistenceRoot(H, ep) == Some(AppHash(H, [s]))
        ensures Committed(H, [s], ep)
      {
        Sound(H, [s], ep);
      }
    }
  }
}
