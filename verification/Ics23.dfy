/** Existence proofs and their checking, as ICS 23 (Vector Commitments) defines them and the ics23 crate does it. */
module Ics23 {
  import opened Basics
  import Varint

  const ZEROS: Bytes := [0, 0, 0, 0, 0, 0, 0, 0, 0, 0, 0, 0, 0, 0, 0, 0, 0, 0, 0, 0, 0, 0, 0, 0, 0, 0, 0, 0, 0, 0, 0, 0]

  /** SHA-256 enters only as some function with 32-byte results; nothing says that it is injective. */
  datatype Hasher = Hasher(f: Bytes -> Bytes) {
    function Hash(x: Bytes): (r: Bytes)
      ensures |r| == 32
    {
      if |f(x)| == 32 then f(x) else ZEROS
    }
  }

  datatype HashOp = NoHash | Sha256 | OtherHash

  datatype LengthOp = NoPrefix | VarProto | OtherLength

  datatype LeafOp = LeafOp(hash: HashOp, prehashKey: HashOp, prehashValue: HashOp, length: LengthOp, prefix: Bytes)

  datatype InnerOp = InnerOp(hash: HashOp, prefix: Bytes, suffix: Bytes)

  datatype ExistenceProof = ExistenceProof(key: Bytes, value: Bytes, leaf: Option<LeafOp>, path: seq<InnerOp>)

  /** A batch lists existence proofs among others; a compressed proof stands here as the batch it expands to. */
  datatype CommitmentProof =
    | Exist(proof: ExistenceProof)
    | Batch(entries: seq<Option<ExistenceProof>>)
    | NoExistence

  datatype ProofSpec = ProofSpec(childSize: nat, minPrefix: nat, maxPrefix: nat, iavl: bool)

  const IAVL := ProofSpec(33, 4, 12, true)
  const TENDERMINT := ProofSpec(32, 1, 1, false)

  // Both specs fix these leaf operations and the leaf prefix byte 0x00.
  function LeafOpWith(prefix: Bytes): LeafOp {
    LeafOp(Sha256, NoHash, Sha256, VarProto, prefix)
  }

  // ------------------------------------------------------------------
  // Computing the root
  // ------------------------------------------------------------------

  /** Operations outside both specs are refused here rather than by the spec check that would follow. */
  function DoHash(H: Hasher, op: HashOp, data: Bytes): Option<Bytes> {
    match op
    case NoHash => Some(data)
    case Sha256 => Some(H.Hash(data))
    case OtherHash => None
  }

  function Prefixed(data: Bytes): Bytes {
    Varint.Encode(|data|) + data
  }

  function DoLength(op: LengthOp, data: Bytes): Option<Bytes> {
    match op
    case NoPrefix => Some(data)
    case VarProto => Some(Prefixed(data))
    case OtherLength => None
  }

  function PrepareLeafData(H: Hasher, prehash: HashOp, length: LengthOp, data: Bytes): Option<Bytes> {
    if data == [] then None else
      match DoHash(H, prehash, data)
      case None => None
      case Some(hashed) => DoLength(length, hashed)
  }

  function ApplyLeaf(H: Hasher, leaf: LeafOp, key: Bytes, value: Bytes): Option<Bytes> {
    match (PrepareLeafData(H, leaf.prehashKey, leaf.length, key),
           PrepareLeafData(H, leaf.prehashValue, leaf.length, value))
    case (Some(k), Some(v)) => DoHash(H, leaf.hash, leaf.prefix + k + v)
    case _ => None
  }

  function ApplyInner(H: Hasher, op: InnerOp, child: Bytes): Option<Bytes> {
    if child == [] then None else DoHash(H, op.hash, op.prefix + child + op.suffix)
  }

  /** Folds the path over a leaf hash; the last step is the one next to the root. */
  function ApplyPath(H: Hasher, leafHash: Bytes, path: seq<InnerOp>): Option<Bytes> {
    if path == [] then Some(leafHash) else
      match ApplyPath(H, leafHash, path[..|path| - 1])
      case None => None
      case Some(child) => ApplyInner(H, path[|path| - 1], child)
  }

  function CalculateExistenceRoot(H: Hasher, ep: ExistenceProof): Option<Bytes> {
    if ep.key == [] || ep.value == [] || ep.leaf.None? then None else
      match ApplyLeaf(H, ep.leaf.value, ep.key, ep.value)
      case None => None
      case Some(leafHash) => ApplyPath(H, leafHash, ep.path)
  }

  // ------------------------------------------------------------------
  // Conformance to a spec
  // ------------------------------------------------------------------

  /** A zig-zag varint that is not negative. */
  function ReadNat(b: Bytes): (r: Option<(nat, Bytes)>)
    ensures r.Some? ==> |r.value.1| < |b|
  {
    match Varint.Decode(b)
    case None => None
    case Some((n, rest)) => if n % 2 == 0 then Some((n / 2, rest)) else None
  }

  /** Height, size and version of an IAVL node, then the bytes after them; the height must reach `minHeight`. */
  function ReadIavlPrefix(prefix: Bytes, minHeight: nat): Option<Bytes> {
    match ReadNat(prefix)
    case None => None
    case Some((height, r1)) =>
      if height < minHeight then None else
        match ReadNat(r1)
        case None => None
        case Some((_, r2)) =>
          match ReadNat(r2)
          case None => None
          case Some((_, r3)) => Some(r3)
  }

  predicate LeafConforms(spec: ProofSpec, leaf: LeafOp) {
    && leaf == LeafOpWith(leaf.prefix)
    && leaf.prefix != [] && leaf.prefix[0] == 0
    && (spec.iavl ==> ReadIavlPrefix(leaf.prefix, 0) == Some([]))
  }

  /** `size > 0 && n % size == 0`, by repeated subtraction. */
  predicate WholeSlots(n: nat, size: nat) {
    size > 0 && (n == 0 || (n >= size && WholeSlots(n - size, size)))
  }

  lemma {:induction false} WholeSlotsIsModulo(n: nat, size: nat)
    requires size > 0
    ensures WholeSlots(n, size) <==> n % size == 0
  {
    if n >= size {
      WholeSlotsIsModulo(n - size, size);
      var q, r := (n - size) / size, (n - size) % size;
      assert n == (q + 1) * size + r;
      ModuloUnique(n, size, q + 1, r);
    }
  }

  lemma ModuloUnique(n: nat, size: nat, q: nat, r: nat)
    requires 0 <= r < size && n == q * size + r
    ensures n % size == r
  {
    var k: int := n / size - q;
    assert k * size == r - n % size;
    assert k >= 1 ==> k * size >= 1 * size;
    assert k <= -1 ==> k * size <= -1 * size;
  }

  predicate InnerShape(spec: ProofSpec, op: InnerOp) {
    && op.hash == Sha256
    && !(op.prefix != [] && op.prefix[0] == 0)
    && spec.minPrefix <= |op.prefix| <= spec.maxPrefix + spec.childSize
    && WholeSlots(|op.suffix|, spec.childSize)
  }

  predicate InnerConforms(spec: ProofSpec, op: InnerOp, layer: nat) {
    && InnerShape(spec, op)
    && (spec.iavl ==> IavlInnerPrefix(op.prefix, layer))
  }

  predicate IavlInnerPrefix(prefix: Bytes, layer: nat) {
    match ReadIavlPrefix(prefix, layer)
    case None => false
    case Some(rest) => |rest| == 1 || |rest| == 34
  }

  predicate Conforms(spec: ProofSpec, ep: ExistenceProof) {
    && ep.leaf.Some?
    && LeafConforms(spec, ep.leaf.value)
    && forall i :: 0 <= i < |ep.path| ==> InnerConforms(spec, ep.path[i], i + 1)
  }

  predicate VerifyExistence(H: Hasher, spec: ProofSpec, ep: ExistenceProof, root: Bytes, key: Bytes, value: Bytes) {
    && Conforms(spec, ep)
    && ep.key == key && ep.value == value
    && CalculateExistenceRoot(H, ep) == Some(root)
  }

  /** The existence proof a commitment proof offers for a key: itself, or a batch's first entry for it. */
  function ExistenceFor(cp: CommitmentProof, key: Bytes): Option<ExistenceProof> {
    match cp
    case Exist(ep) => Some(ep)
    case Batch(entries) => FirstFor(entries, key)
    case NoExistence => None
  }

  function FirstFor(entries: seq<Option<ExistenceProof>>, key: Bytes): Option<ExistenceProof> {
    if entries == [] then None
    else if entries[0].Some? && entries[0].value.key == key then entries[0]
    else FirstFor(entries[1..], key)
  }

  predicate VerifyMembership(H: Hasher, spec: ProofSpec, cp: CommitmentProof, root: Bytes, key: Bytes, value: Bytes) {
    match ExistenceFor(cp, key)
    case None => false
    case Some(ep) => VerifyExistence(H, spec, ep, root, key, value)
  }
}
