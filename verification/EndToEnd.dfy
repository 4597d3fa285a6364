/** The whole protocol: what a fired subscription says about the remote chain, and when an honest proof fires one. */
module EndToEnd {
  import opened Basics
  import opened Hub
  import opened Host
  import opened Lifecycle
  import opened Callbacks
  import Ics23
  import HashTree
  import Iavl
  import MultiStore
  import ProofCodec
  import Chain

  /** The Hub's handlers with the real two-level proof check, and the JSON library of `lib`. */
  function ChainServices(H: Ics23.Hasher, decode: Chain.Decoder, lib: Services): Services {
    lib.(verify := (appHash, proof, keyPath, key, value) =>
      Chain.VerifyChainedMembership(H, decode, appHash, proof, keyPath, key, value))
  }

  /**
   * Whatever a run has fired with the AppHash of an honest multistore was true of that multistore: the watched key
   * maps, in the store the subscription names, to a value that meets its condition; or hashed strings collide.
   */
  lemma FiredMeansTrue(H: Ics23.Hasher, decode: Chain.Decoder, lib: Services, ms: seq<MultiStore.Store>,
                       txs: seq<Tx>, id: nat)
    requires MultiStore.WellFormed(ms) && ValidRun(txs)
    requires var svc := ChainServices(H, decode, lib);
             var fs := FiringsOf(Run(svc, txs).firings, id);
             fs != [] && fs[0].msg.appHash == MultiStore.AppHash(H, ms)
    ensures var svc := ChainServices(H, decode, lib);
            var run := Run(svc, txs);
            var m := FiringsOf(run.firings, id)[0].msg;
            && id in run.world.hub.subs
            && var sub := run.world.hub.subs[id];
               && (sub.status == Triggered || sub.status == Failed(HOST_ERROR))
               && sub.keyPath != []
               && CheckCondition(svc, sub.condition, m.value) == Pass
               && (|| MultiStore.Holds(ms, sub.keyPath[0], sub.watchKey, m.value)
                   || HashTree.CollisionIn(H, Chain.ChainImages(H, ms)
                                              + Chain.CheckedImages(H, decode, m.proof, sub.keyPath[0], sub.watchKey)))
  {
    hide Run, FiringsOf, ValidRun, CheckCondition, Chain.VerifyChainedMembership, HashTree.CollisionIn;
    hide MultiStore.WellFormed, MultiStore.Holds;
    hide Chain.ChainImages, Chain.CheckedImages, MultiStore.AppHash;
    var svc := ChainServices(H, decode, lib);
    RunSettles(svc, txs, id);
    var m := FiringsOf(Run(svc, txs).firings, id)[0].msg;
    var sub := Run(svc, txs).world.hub.subs[id];
    Chain.Sound(H, decode, ms, m.proof, sub.keyPath, m.key, m.value);
  }

  /** The submission the scripts make for a key of an honest multistore. */
  function HonestSubmission(H: Ics23.Hasher, ms: seq<MultiStore.Store>, i: nat, t: Iavl.Iavl, id: nat, key: Bytes,
                            proofHeight: Height): SubmitMsg
    requires i < |ms| && key in Iavl.Contents(t)
  {
    var proof := Chain.HonestProof(H, ms, i, t, key);
    SubmitMsg(id, proofHeight, MultiStore.AppHash(H, ms), proof, key, Iavl.Contents(t)[key])
  }

  /** An active subscription that asks for exactly this and is not overdue. */
  predicate Wants(svc: Services, s: Store, id: nat, height: nat, store: Bytes, key: Bytes, value: Bytes) {
    && id in s.subs
    && var sub := s.subs[id];
       && sub.status == Active && sub.keyPath != [] && sub.keyPath[0] == store && sub.watchKey == key
       && (sub.expiresAt.None? || height <= sub.expiresAt.value)
       && CheckCondition(svc, sub.condition, value) == Pass
  }

  /** The honest submission is accepted where it is wanted, exactly when its value and headers can be proved. */
  lemma HonestIsAccepted(H: Ics23.Hasher, lib: Services,
                         ms: seq<MultiStore.Store>, i: nat, t: Iavl.Iavl, key: Bytes, s: Store, height: nat, id: nat,
                         proofHeight: Height)
    requires MultiStore.Named(ms) && i < |ms| && ms[i].tree == Some(t) && key in Iavl.Contents(t)
    requires Chain.ProofsFit(H, ms, i, t, key)
    requires Wants(ChainServices(H, ProofCodec.Decode, lib), s, id, height, ms[i].name, key,
                   Iavl.Contents(t)[key])
    ensures IsAccepted(ChainServices(H, ProofCodec.Decode, lib), s, height,
                       HonestSubmission(H, ms, i, t, id, key, proofHeight))
            <==> Iavl.Contents(t)[key] != [] && Iavl.StepsFit(t, key)
  {
    hide MultiStore.Named, MultiStore.AppHash, Iavl.Contents, Iavl.StepsFit, Chain.HonestProof, Chain.ProofsFit;
    hide Chain.VerifyChainedMembership, ProofCodec.Decode, CheckCondition;
    Chain.CompleteOnTheWire(H, ms, i, t, key, s.subs[id].keyPath);
  }

  /**
   * For every reaction of the receiver: the honest submission for a subscription that wants it takes effect, ending
   * in `Triggered` or `Failed` as the callback decides, unless the value is empty or a header is too long to prove.
   */
  lemma HonestProofFires(H: Ics23.Hasher, lib: Services,
                         ms: seq<MultiStore.Store>, i: nat, t: Iavl.Iavl, key: Bytes, w: World, height: nat, self: Addr,
                         id: nat, proofHeight: Height, reaction: seq<Act>)
    requires MultiStore.Named(ms) && i < |ms| && ms[i].tree == Some(t) && key in Iavl.Contents(t)
    requires Chain.ProofsFit(H, ms, i, t, key) && Inv(w)
    requires Wants(ChainServices(H, ProofCodec.Decode, lib), w.hub, id, height, ms[i].name, key,
                   Iavl.Contents(t)[key])
    ensures var svc := ChainServices(H, ProofCodec.Decode, lib);
            var m := HonestSubmission(H, ms, i, t, id, key, proofHeight);
            var r := Exec(svc, w, height, self, DoSubmit(m, reaction));
            if Iavl.Contents(t)[key] != [] && Iavl.StepsFit(t, key) then Resolved(svc, w, height, m, reaction, r)
            else r == Reverted
  {
    hide MultiStore.Named, MultiStore.AppHash, Iavl.Contents, Iavl.StepsFit, Chain.HonestProof, Chain.ProofsFit, Inv;
    hide Accepts, Submit, Resolved, ChainServices;
    var svc := ChainServices(H, ProofCodec.Decode, lib);
    var m := HonestSubmission(H, ms, i, t, id, key, proofHeight);
    HonestIsAccepted(H, lib, ms, i, t, key, w.hub, height, id, proofHeight);
    SubmitExact(svc, w.hub, height, m);
    if IsAccepted(svc, w.hub, height, m) { AcceptedResolves(svc, w, height, self, m, reaction); }
  }

  /**
   * After any run, a transaction with the honest submission commits: whatever the receiver does, the subscription has
   * then been fired, for the first time, by that submission.
   */
  lemma HonestProofCommits(H: Ics23.Hasher, lib: Services,
                           ms: seq<MultiStore.Store>, i: nat, t: Iavl.Iavl, key: Bytes, txs: seq<Tx>, height: nat,
                           sender: Addr, id: nat, proofHeight: Height, reaction: seq<Act>)
    requires MultiStore.Named(ms) && i < |ms| && ms[i].tree == Some(t) && key in Iavl.Contents(t)
    requires Iavl.Contents(t)[key] != [] && Iavl.StepsFit(t, key) && Chain.ProofsFit(H, ms, i, t, key) && ValidRun(txs)
    requires var svc := ChainServices(H, ProofCodec.Decode, lib);
             Wants(svc, Run(svc, txs).world.hub, id, height, ms[i].name, key, Iavl.Contents(t)[key])
    ensures var svc := ChainServices(H, ProofCodec.Decode, lib);
            var m := HonestSubmission(H, ms, i, t, id, key, proofHeight);
            var before := Run(svc, txs);
            var after := Run(svc, txs + [Tx(height, sender, [DoSubmit(m, reaction)])]);
            && FiringsOf(before.firings, id) == [] && FiringsOf(after.firings, id) == [Firing(height, m)]
            && id in before.world.hub.subs && id in after.world.hub.subs
            && var now := after.world.hub.subs[id];
               && now == before.world.hub.subs[id].(status := now.status)
               && (now.status == Triggered || now.status == Failed(HOST_ERROR))
  {
    hide MultiStore.Named, MultiStore.AppHash, Iavl.Contents, Iavl.StepsFit, Chain.HonestProof, Chain.ProofsFit, Inv;
    hide Accepts, ChainServices, ValidRun, Chain.VerifyChainedMembership, CheckCondition;
    var svc := ChainServices(H, ProofCodec.Decode, lib);
    var m := HonestSubmission(H, ms, i, t, id, key, proofHeight);
    HonestIsAccepted(H, lib, ms, i, t, key, Run(svc, txs).world.hub, height, id, proofHeight);
    AcceptedCommits(svc, txs, height, sender, m, reaction);
  }
}
