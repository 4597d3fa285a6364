/** The Hub's two-level check: a pair in a module's tree, and that tree's root under the AppHash. */
module Chain {
  import opened Basics
  import opened Errors
  import opened Ics23
  import HashTree
  import Iavl
  import MultiStore
  import MerkleProof
  import ProofCodec

  /** Soundness holds whatever function parses a `CommitmentProof` from its bytes; ProofCodec has the real one. */
  type Decoder = Bytes -> Option<CommitmentProof>

  function VerifyChainedMembership(H: Hasher, decode: Decoder, appHash: Bytes, proof: Bytes, keyPath: seq<Bytes>,
                                   key: Bytes, value: Bytes)
    : Outcome<ContractError>
  {
    if keyPath == [] then Fail(EmptyKeyPath) else
      match MerkleProof.DecodeMerkleProof(proof)
      case Err(e) => Fail(e)
      case Ok(raw) =>
        match (decode(raw[0]), decode(raw[1]))
        case (Some(iavl), Some(simple)) => VerifyLevels(H, iavl, simple, appHash, keyPath[0], key, value)
        case _ => Fail(ProtoDecode)
  }

  function VerifyLevels(H: Hasher, iavl: CommitmentProof, simple: CommitmentProof, appHash: Bytes, store: Bytes,
                        key: Bytes, value: Bytes)
    : Outcome<ContractError>
  {
    if !iavl.Exist? then Fail(ProofVerificationFailed) else
      match CalculateExistenceRoot(H, iavl.proof)
      case None => Fail(ProofVerificationFailed)
      case Some(moduleRoot) =>
        if !VerifyMembership(H, IAVL, iavl, moduleRoot, key, value) then Fail(ProofVerificationFailed)
        else if !VerifyMembership(H, TENDERMINT, simple, appHash, store, moduleRoot) then Fail(ProofVerificationFailed)
        else Pass
  }

  // ------------------------------------------------------------------
  // The strings hashed by an honest chain and by the check
  // ------------------------------------------------------------------

  function ModuleImages(H: Hasher, tree: Option<Iavl.Iavl>): set<Bytes> {
    match tree
    case None => {[]}
    case Some(t) => HashTree.TreeImages(H, Iavl.SEP, Iavl.Shape(t))
  }

  function StoreImages(H: Hasher, ms: seq<MultiStore.Store>): (r: set<Bytes>)
    ensures forall i :: 0 <= i < |ms| ==> ModuleImages(H, ms[i].tree) <= r
  {
    if ms == [] then {} else StoreImages(H, ms[1..]) + ModuleImages(H, ms[0].tree)
  }

  function ChainImages(H: Hasher, ms: seq<MultiStore.Store>): set<Bytes> {
    MultiStore.CommitImages(H, ms) + StoreImages(H, ms)
  }

  function OfferedImages(H: Hasher, cp: CommitmentProof, key: Bytes): set<Bytes> {
    match ExistenceFor(cp, key)
    case None => {}
    case Some(ep) => HashTree.ProofImages(H, ep)
  }

  function CheckedImages(H: Hasher, decode: Decoder, proof: Bytes, store: Bytes, key: Bytes): set<Bytes> {
    match MerkleProof.DecodeMerkleProof(proof)
    case Err(_) => {}
    case Ok(raw) =>
      match (decode(raw[0]), decode(raw[1]))
      case (Some(iavl), Some(simple)) => OfferedImages(H, iavl, key) + OfferedImages(H, simple, store)
      case _ => {}
  }

  // ------------------------------------------------------------------
  // Soundness
  // ------------------------------------------------------------------

  lemma LevelsSound(H: Hasher, ms: seq<MultiStore.Store>, iavl: ExistenceProof, simple: ExistenceProof,
                    moduleRoot: Bytes)
    requires MultiStore.WellFormed(ms) && Conforms(IAVL, iavl) && Conforms(TENDERMINT, simple)
    requires CalculateExistenceRoot(H, iavl) == Some(moduleRoot) && simple.value == moduleRoot
    requires CalculateExistenceRoot(H, simple) == Some(MultiStore.AppHash(H, ms))
    ensures
      || MultiStore.Holds(ms, simple.key, iavl.key, iavl.value)
      || HashTree.CollisionIn(H, ChainImages(H, ms) + (HashTree.ProofImages(H, iavl) + HashTree.ProofImages(H, simple)))
  {
    hide HashTree.CollisionIn, CalculateExistenceRoot, Conforms, MultiStore.AppHash, MultiStore.Ambiguous;
    hide HashTree.ProofImages, HashTree.TreeImages;
    hide Iavl.Contents, Iavl.WellFormed, Iavl.Shape, MultiStore.CommitImages;
    var images := ChainImages(H, ms) + (HashTree.ProofImages(H, iavl) + HashTree.ProofImages(H, simple));
    MultiStore.Sound(H, ms, simple);
    if i :| 0 <= i < |ms| && ms[i].name == simple.key && MultiStore.CommitRoot(H, ms[i]) == simple.value {
      match ms[i].tree
      case None => EmptyModule(H, iavl, images);
      case Some(t) =>
        Iavl.Sound(H, t, iavl);
        if !(iavl.key in Iavl.Contents(t) && Iavl.Contents(t)[iavl.key] == iavl.value) {
          var used := HashTree.TreeImages(H, Iavl.SEP, Iavl.Shape(t)) + HashTree.ProofImages(H, iavl);
          HashTree.CollisionWidens(H, used, images);
        }
    } else {
      HashTree.CollisionWidens(H, MultiStore.CommitImages(H, ms) + HashTree.ProofImages(H, simple), images);
    }
  }

  /** No conforming proof reaches the root of an empty module tree without a collision. */
  lemma EmptyModule(H: Hasher, ep: ExistenceProof, images: set<Bytes>)
    requires Conforms(IAVL, ep) && CalculateExistenceRoot(H, ep) == Some(H.Hash([]))
    requires {[]} + HashTree.ProofImages(H, ep) <= images
    ensures HashTree.CollisionIn(H, images)
  {
    hide HashTree.CollisionIn, ReadIavlPrefix, InnerConforms;
    MultiStore.ImageNotEmpty(H, IAVL, ep);
    HashTree.RootOfConforming(H, IAVL, ep);
    HashTree.CollisionOf(H, images, [], HashTree.PathImage(H, HashTree.ProofLeafImage(H, ep), ep.path));
  }

  /**
   * If the Hub accepts against the AppHash of an honest multistore, that multistore maps the key to the value
   * in the named store, or two of the strings that were actually hashed collide.
   */
  lemma Sound(H: Hasher, decode: Decoder, ms: seq<MultiStore.Store>, proof: Bytes, keyPath: seq<Bytes>, key: Bytes,
              value: Bytes)
    requires MultiStore.WellFormed(ms)
    requires VerifyChainedMembership(H, decode, MultiStore.AppHash(H, ms), proof, keyPath, key, value) == Pass
    ensures keyPath != []
    ensures
      || MultiStore.Holds(ms, keyPath[0], key, value)
      || HashTree.CollisionIn(H, ChainImages(H, ms) + CheckedImages(H, decode, proof, keyPath[0], key))
  {
    hide HashTree.CollisionIn, CalculateExistenceRoot, Conforms, MultiStore.AppHash, MultiStore.WellFormed;
    hide MultiStore.Holds;
    hide HashTree.ProofImages, ChainImages, FirstFor;
    var raw := MerkleProof.DecodeMerkleProof(proof).value;
    var iavl, simple := decode(raw[0]).value, decode(raw[1]).value;
    LevelsSound(H, ms, iavl.proof, ExistenceFor(simple, keyPath[0]).value, CalculateExistenceRoot(H, iavl.proof).value);
  }

  /** Two accepted proofs for one AppHash, store and key carry the same value, or exhibit a collision. */
  lemma OneValue(H: Hasher, decode: Decoder, ms: seq<MultiStore.Store>, keyPath: seq<Bytes>, key: Bytes,
                 proof: Bytes, value: Bytes, proof': Bytes, value': Bytes)
    requires MultiStore.WellFormed(ms)
    requires VerifyChainedMembership(H, decode, MultiStore.AppHash(H, ms), proof, keyPath, key, value) == Pass
    requires VerifyChainedMembership(H, decode, MultiStore.AppHash(H, ms), proof', keyPath, key, value') == Pass
    ensures
      || value == value'
      || HashTree.CollisionIn(H, ChainImages(H, ms) + CheckedImages(H, decode, proof, keyPath[0], key)
                                 + CheckedImages(H, decode, proof', keyPath[0], key))
  {
    hide HashTree.CollisionIn, VerifyChainedMembership, MultiStore.AppHash, MultiStore.WellFormed;
    hide MultiStore.Holds, ChainImages, CheckedImages;
    Sound(H, decode, ms, proof, keyPath, key, value);
    Sound(H, decode, ms, proof', keyPath, key, value');
    var chain := ChainImages(H, ms);
    var a, b := CheckedImages(H, decode, proof, keyPath[0], key), CheckedImages(H, decode, proof', keyPath[0], key);
    if HashTree.CollisionIn(H, chain + a) {
      HashTree.CollisionWidens(H, chain + a, chain + a + b);
    } else if HashTree.CollisionIn(H, chain + b) {
      HashTree.CollisionWidens(H, chain + b, chain + a + b);
    } else {
      MultiStore.HoldsOnce(ms, keyPath[0], key, value, value');
    }
  }

  // ------------------------------------------------------------------
  // Completeness
  // ------------------------------------------------------------------

  lemma LevelsComplete(H: Hasher, ms: seq<MultiStore.Store>, i: nat, t: Iavl.Iavl, key: Bytes)
    requires MultiStore.Named(ms) && i < |ms| && ms[i].tree == Some(t) && key in Iavl.Contents(t)
    ensures VerifyLevels(H, Exist(Iavl.ProofOf(H, t, key)), Exist(MultiStore.StoreProof(H, ms, i)),
                         MultiStore.AppHash(H, ms), ms[i].name, key, Iavl.Contents(t)[key])
            == if Iavl.Contents(t)[key] != [] && Iavl.StepsFit(t, key) then Pass else Fail(ProofVerificationFailed)
  {
    hide Conforms, CalculateExistenceRoot, MultiStore.AppHash, MultiStore.StoreProof;
    hide Iavl.Contents, Iavl.ProofOf, Iavl.StepsFit, Iavl.WellFormed, Iavl.Root;
    Iavl.Complete(H, t, key);
    MultiStore.Complete(H, ms, i);
  }

  /**
   * The proofs read off an honest multistore's trees, wrapped by the scripts' encoder, are accepted for every
   * key it stores; only an empty value, or a header too long for the IAVL spec on the key's path, is refused.
   */
  lemma Complete(H: Hasher, decode: Decoder, ms: seq<MultiStore.Store>, i: nat, t: Iavl.Iavl, key: Bytes,
                 iavlBytes: Bytes, simpleBytes: Bytes, keyPath: seq<Bytes>)
    requires MultiStore.Named(ms) && i < |ms| && ms[i].tree == Some(t) && key in Iavl.Contents(t)
    requires keyPath != [] && keyPath[0] == ms[i].name
    requires |iavlBytes| < U32 && |simpleBytes| < U32
    requires decode(iavlBytes) == Some(Exist(Iavl.ProofOf(H, t, key)))
    requires decode(simpleBytes) == Some(Exist(MultiStore.StoreProof(H, ms, i)))
    ensures VerifyChainedMembership(H, decode, MultiStore.AppHash(H, ms), MerkleProof.Build([iavlBytes, simpleBytes]),
                                    keyPath, key, Iavl.Contents(t)[key])
            == if Iavl.Contents(t)[key] != [] && Iavl.StepsFit(t, key) then Pass else Fail(ProofVerificationFailed)
  {
    hide VerifyLevels, MerkleProof.DecodeMerkleProof, MerkleProof.Build, MultiStore.AppHash;
    hide MultiStore.StoreProof, MultiStore.Named;
    hide Iavl.Contents, Iavl.ProofOf, Iavl.StepsFit;
    MerkleProof.DecodeBuild([iavlBytes, simpleBytes]);
    LevelsComplete(H, ms, i, t, key);
  }

  /** The bytes the scripts submit for a key of an honest multistore. */
  function HonestProof(H: Hasher, ms: seq<MultiStore.Store>, i: nat, t: Iavl.Iavl, key: Bytes): Bytes
    requires i < |ms| && key in Iavl.Contents(t)
  {
    MerkleProof.Build([ProofCodec.Encode(Iavl.ProofOf(H, t, key)), ProofCodec.Encode(MultiStore.StoreProof(H, ms, i))])
  }

  predicate ProofsFit(H: Hasher, ms: seq<MultiStore.Store>, i: nat, t: Iavl.Iavl, key: Bytes)
    requires i < |ms| && key in Iavl.Contents(t)
  {
    |ProofCodec.Encode(Iavl.ProofOf(H, t, key))| < U32 && |ProofCodec.Encode(MultiStore.StoreProof(H, ms, i))| < U32
  }

  /** Completeness down to the bytes: encoded, wrapped, decoded and checked, the honest proofs are accepted. */
  lemma CompleteOnTheWire(H: Hasher, ms: seq<MultiStore.Store>, i: nat, t: Iavl.Iavl, key: Bytes, keyPath: seq<Bytes>)
    requires MultiStore.Named(ms) && i < |ms| && ms[i].tree == Some(t) && key in Iavl.Contents(t)
    requires keyPath != [] && keyPath[0] == ms[i].name && ProofsFit(H, ms, i, t, key)
    ensures VerifyChainedMembership(H, ProofCodec.Decode, MultiStore.AppHash(H, ms), HonestProof(H, ms, i, t, key),
                                    keyPath, key, Iavl.Contents(t)[key])
            == if Iavl.Contents(t)[key] != [] && Iavl.StepsFit(t, key) then Pass else Fail(ProofVerificationFailed)
  {
    hide VerifyChainedMembership, MerkleProof.Build, MultiStore.AppHash, MultiStore.StoreProof, MultiStore.Named;
    hide Iavl.Contents, Iavl.ProofOf, Iavl.StepsFit, ProofCodec.Encode, ProofCodec.Decode;
    var iavl, simple := Iavl.ProofOf(H, t, key), MultiStore.StoreProof(H, ms, i);
    ProofCodec.RoundTrip(iavl);
    ProofCodec.RoundTrip(simple);
    Complete(H, ProofCodec.Decode, ms, i, t, key, ProofCodec.Encode(iavl), ProofCodec.Encode(simple), keyPath);
  }

  // ------------------------------------------------------------------
  // Ambiguous store names
  // ------------------------------------------------------------------

  lemma LevelsMisread(H: Hasher, ms: seq<MultiStore.Store>, i: nat, t: Iavl.Iavl, key: Bytes, prefix: Bytes,
                      other: Bytes)
    requires MultiStore.Named(ms) && i < |ms| && ms[i].tree == Some(t) && key in Iavl.Contents(t)
    requires Iavl.Contents(t)[key] != [] && Iavl.StepsFit(t, key)
    requires MultiStore.ReadsAs(ms[i].name, prefix, other)
    ensures VerifyLevels(H, Exist(Iavl.ProofOf(H, t, key)), Exist(MultiStore.Misread(H, ms, i, prefix, other)),
                         MultiStore.AppHash(H, ms), other, key, Iavl.Contents(t)[key]) == Pass
  {
    hide Conforms, CalculateExistenceRoot, MultiStore.AppHash, MultiStore.Misread, MultiStore.ReadsAs;
    hide Iavl.Contents, Iavl.ProofOf, Iavl.StepsFit, Iavl.WellFormed, Iavl.Root;
    Iavl.Complete(H, t, key);
    MultiStore.MisreadVerifies(H, ms, i, prefix, other);
  }

  /**
   * Where a store's name has another reading, the Hub accepts every provable pair of that store as one of the store
   * of the other name, although no store need have it: what `Sound` asks of names cannot be dropped.
   */
  lemma AmbiguousNamesAreUnsound(H: Hasher, ms: seq<MultiStore.Store>, i: nat, t: Iavl.Iavl, key: Bytes,
                                 prefix: Bytes, other: Bytes)
    requires MultiStore.Named(ms) && i < |ms| && ms[i].tree == Some(t) && key in Iavl.Contents(t)
    requires Iavl.Contents(t)[key] != [] && Iavl.StepsFit(t, key)
    requires MultiStore.ReadsAs(ms[i].name, prefix, other)
    requires |ProofCodec.Encode(Iavl.ProofOf(H, t, key))| < U32
    requires |ProofCodec.Encode(MultiStore.Misread(H, ms, i, prefix, other))| < U32
    ensures var root, value := MultiStore.AppHash(H, ms), Iavl.Contents(t)[key];
            var proof := MerkleProof.Build([ProofCodec.Encode(Iavl.ProofOf(H, t, key)),
                                            ProofCodec.Encode(MultiStore.Misread(H, ms, i, prefix, other))]);
            && VerifyChainedMembership(H, ProofCodec.Decode, root, proof, [other], key, value) == Pass
            && ((forall k :: 0 <= k < |ms| ==> ms[k].name != other) ==> !MultiStore.Holds(ms, other, key, value))
  {
    hide VerifyLevels, MerkleProof.DecodeMerkleProof, MerkleProof.Build, MultiStore.AppHash, MultiStore.Misread;
    hide MultiStore.Named, MultiStore.ReadsAs, MultiStore.HasPair;
    hide Iavl.Contents, Iavl.ProofOf, Iavl.StepsFit, ProofCodec.Encode, ProofCodec.Decode;
    var iavl, simple := Iavl.ProofOf(H, t, key), MultiStore.Misread(H, ms, i, prefix, other);
    ProofCodec.RoundTrip(iavl);
    ProofCodec.RoundTrip(simple);
    MerkleProof.DecodeBuild([ProofCodec.Encode(iavl), ProofCodec.Encode(simple)]);
    LevelsMisread(H, ms, i, t, key, prefix, other);
  }
}
