/** What committed runs of the host can do to a subscription, and to the log of the receiver it names. */
module Lifecycle {
  import opened Basics
  import opened Hub
  import opened Host

  function Find(s: Store, id: nat): Option<Subscription> {
    if id in s.subs then Some(s.subs[id]) else None
  }

  /** The submissions among these that fired a given subscription. */
  function FiringsOf(fs: seq<Firing>, id: nat): seq<Firing> {
    if fs == [] then [] else (if fs[0].msg.id == id then [fs[0]] else []) + FiringsOf(fs[1..], id)
  }

  lemma {:induction false} FiringsOfAppend(a: seq<Firing>, b: seq<Firing>, id: nat)
    ensures FiringsOf(a + b, id) == FiringsOf(a, id) + FiringsOf(b, id)
  {
    if a == [] {
      assert a + b == b;
    } else {
      assert (a + b)[1..] == a[1..] + b;
      FiringsOfAppend(a[1..], b, id);
    }
  }

  // ------------------------------------------------------------------
  // One message
  // ------------------------------------------------------------------

  /** Either nothing fired and the status is kept, or one accepted submission fired it from `Active` for good. */
  predicate Fires(svc: Services, height: nat, before: Status, sub: Subscription, fs: seq<Firing>) {
    if fs == [] then sub.status == before
    else
      && |fs| == 1 && fs[0].height == height
      && before == Active && (sub.status == Triggered || sub.status == Failed(HOST_ERROR))
      && Accepts(svc, sub, height, fs[0].msg)
  }

  /** Subscriptions appear active at the current height, never disappear, and change only in status, by firing. */
  predicate Evolves(svc: Services, height: nat, before: Option<Subscription>, after: Option<Subscription>,
                    fs: seq<Firing>)
  {
    match (before, after)
    case (None, None) => fs == []
    case (Some(_), None) => false
    case (None, Some(sub)) => sub.createdAt == height && Fires(svc, height, Active, sub, fs)
    case (Some(was), Some(sub)) => sub == was.(status := sub.status) && Fires(svc, height, was.status, sub, fs)
  }

  lemma EvolvesTwice(svc: Services, height: nat, a: Option<Subscription>, b: Option<Subscription>,
                     c: Option<Subscription>, f: seq<Firing>, g: seq<Firing>)
    requires Evolves(svc, height, a, b, f) && Evolves(svc, height, b, c, g)
    ensures Evolves(svc, height, a, c, f + g)
  {
    assert f == [] ==> f + g == g;
    assert g == [] ==> f + g == f;
  }

  lemma SubscribeEvolves(svc: Services, w: World, height: nat, sender: Addr, m: SubscribeMsg, id: nat)
    requires Inv(w) && Subscribe(w.hub, height, sender, m).result.Ok?
    ensures Evolves(svc, height, Find(w.hub, id), Find(Subscribe(w.hub, height, sender, m).store, id), [])
  {
  }

  lemma TriggerEvolves(svc: Services, s: Store, height: nat, m: SubmitMsg, status: Status, id: nat)
    requires m.id in s.subs && s.subs[m.id].status == Active && Accepts(svc, s.subs[m.id], height, m)
    requires status == Triggered || status == Failed(HOST_ERROR)
    ensures Evolves(svc, height, Find(s, id), Find(WithStatus(s, m.id, status), id), FiringsOf([Firing(height, m)], id))
  {
    hide CheckCondition;
    assert FiringsOf([Firing(height, m)][1..], id) == [];
  }

  lemma {:induction false} ExecEvolves(svc: Services, w: World, height: nat, self: Addr, act: Act, id: nat)
    requires Inv(w) && self != HUB
    ensures var r := Exec(svc, w, height, self, act);
            r.Done? ==> Evolves(svc, height, Find(w.hub, id), Find(r.world.hub, id), FiringsOf(r.firings, id))
    decreases act, 1
  {
    hide Inv, Accepts, Subscribe, Submit, Evolves;
    match act
    case DoSubscribe(m) =>
      if Subscribe(w.hub, height, self, m).result.Ok? { SubscribeEvolves(svc, w, height, self, m, id); }
    case DoSubmit(m, reaction) =>
      SubmitExact(svc, w.hub, height, m);
      if Submit(svc, w.hub, height, m).result.Ok? { SubmitEvolves(svc, w, height, self, m, reaction, id); }
    case DoNotify(receiver, reaction) =>
      if receiver in w.receivers {
        NotifyKeepsInv(w, height, self, receiver);
        ReceiversAreNotHub(w, receiver);
        ExecAllEvolves(svc, Notified(w, height, self, receiver), height, receiver, reaction, id);
      }
    case DoAttempt(body) =>
      ExecAllEvolves(svc, w, height, self, body, id);
      NothingEvolves(svc, w, height, id);
    case DoDeploy(addr, records) => NothingEvolves(svc, w, height, id);
    case DoFail =>
  }

  lemma ReceiversAreNotHub(w: World, receiver: Addr)
    requires Inv(w) && receiver in w.receivers
    ensures receiver != HUB
  {
  }

  lemma NothingEvolves(svc: Services, w: World, height: nat, id: nat)
    ensures Evolves(svc, height, Find(w.hub, id), Find(w.hub, id), [])
  {
  }

  lemma {:induction false} SubmitEvolves(svc: Services, w: World, height: nat, self: Addr, m: SubmitMsg,
                                         reaction: seq<Act>, id: nat)
    requires Inv(w) && Submit(svc, w.hub, height, m).result.Ok?
    ensures var r := Exec(svc, w, height, self, DoSubmit(m, reaction));
            r.Done? ==> Evolves(svc, height, Find(w.hub, id), Find(r.world.hub, id), FiringsOf(r.firings, id))
    decreases reaction, 1
  {
    hide Inv, Accepts, Submit, Evolves;
    SubmitExact(svc, w.hub, height, m);
    var fired, target := Firing(height, m), w.hub.subs[m.id].callbackContract;
    TriggerEvolves(svc, w.hub, height, m, Triggered, id);
    TriggerEvolves(svc, w.hub, height, m, Failed(HOST_ERROR), id);
    assert Marked(Marked(w, m.id, Triggered), m.id, Failed(HOST_ERROR)) == Marked(w, m.id, Failed(HOST_ERROR));
    if target in w.receivers {
      TriggerAndNotifyKeepInv(w, height, m.id);
      ReceiversAreNotHub(w, target);
      var w1 := Notified(Marked(w, m.id, Triggered), height, HUB, target);
      ExecAllEvolves(svc, w1, height, target, reaction, id);
      var r := ExecAll(svc, w1, height, target, reaction);
      if r.Done? {
        FiringsOfAppend([fired], r.firings, id);
        EvolvesTwice(svc, height, Find(w.hub, id), Find(w1.hub, id), Find(r.world.hub, id),
                     FiringsOf([fired], id), FiringsOf(r.firings, id));
      }
    }
  }

  lemma {:induction false} ExecAllEvolves(svc: Services, w: World, height: nat, self: Addr, acts: seq<Act>, id: nat)
    requires Inv(w) && self != HUB
    ensures var r := ExecAll(svc, w, height, self, acts);
            r.Done? ==> Evolves(svc, height, Find(w.hub, id), Find(r.world.hub, id), FiringsOf(r.firings, id))
    decreases acts, 0
  {
    hide Inv, Evolves;
    if acts == [] {
      NothingEvolves(svc, w, height, id);
    } else {
      ExecEvolves(svc, w, height, self, acts[0], id);
      ExecKeepsInv(svc, w, height, self, acts[0]);
      var r := Exec(svc, w, height, self, acts[0]);
      if r.Done? {
        ExecAllEvolves(svc, r.world, height, self, acts[1..], id);
        var r' := ExecAll(svc, r.world, height, self, acts[1..]);
        if r'.Done? {
          FiringsOfAppend(r.firings, r'.firings, id);
          EvolvesTwice(svc, height, Find(w.hub, id), Find(r.world.hub, id), Find(r'.world.hub, id),
                       FiringsOf(r.firings, id), FiringsOf(r'.firings, id));
        }
      }
    }
  }

  // ------------------------------------------------------------------
  // Whole runs
  // ------------------------------------------------------------------

  /** One more transaction moves every subscription by one evolution, possibly an idle one. */
  lemma StepEvolves(svc: Services, h: History, tx: Tx, id: nat) returns (g: seq<Firing>)
    requires Inv(h.world) && tx.sender != HUB
    ensures Evolves(svc, tx.height, Find(h.world.hub, id), Find(Step(svc, h, tx).world.hub, id), g)
    ensures FiringsOf(Step(svc, h, tx).firings, id) == FiringsOf(h.firings, id) + g
  {
    hide Inv, Evolves;
    ExecAllEvolves(svc, h.world, tx.height, tx.sender, tx.acts, id);
    NothingEvolves(svc, h.world, tx.height, id);
    var r := ExecAll(svc, h.world, tx.height, tx.sender, tx.acts);
    if r.Done? {
      FiringsOfAppend(h.firings, r.firings, id);
      g := FiringsOf(r.firings, id);
    } else {
      g := [];
    }
  }

  /**
   * A committed subscription's past: still active and never fired, or fired by exactly one submission, which its
   * terms accept, between its creation and its expiry.
   */
  predicate Settled(svc: Services, sub: Option<Subscription>, fs: seq<Firing>) {
    match sub
    case None => fs == []
    case Some(sub) =>
      if fs == [] then sub.status == Active
      else
        && |fs| == 1
        && (sub.status == Triggered || sub.status == Failed(HOST_ERROR))
        && sub.createdAt <= fs[0].height
        && Accepts(svc, sub, fs[0].height, fs[0].msg)
  }

  lemma SettledStep(svc: Services, height: nat, before: Option<Subscription>, after: Option<Subscription>,
                    f: seq<Firing>, g: seq<Firing>)
    requires Settled(svc, before, f) && Evolves(svc, height, before, after, g)
    requires before.Some? ==> before.value.createdAt <= height
    ensures Settled(svc, after, f + g) && (after.Some? ==> after.value.createdAt <= height)
  {
    hide CheckCondition;
    assert f == [] ==> f + g == g;
    assert g == [] ==> f + g == f;
  }

  /** The lifecycle of every subscription over every run. */
  lemma {:induction false} RunSettles(svc: Services, txs: seq<Tx>, id: nat)
    requires ValidRun(txs)
    ensures var sub := Find(Run(svc, txs).world.hub, id);
            && Settled(svc, sub, FiringsOf(Run(svc, txs).firings, id))
            && (sub.Some? ==> txs != [] && sub.value.createdAt <= txs[|txs| - 1].height)
  {
    if txs != [] {
      hide Inv, Evolves, Settled;
      var init, tx := txs[..|txs| - 1], txs[|txs| - 1];
      RunKeepsInv(svc, init);
      RunSettles(svc, init, id);
      var h := Run(svc, init);
      var g := StepEvolves(svc, h, tx, id);
      SettledStep(svc, tx.height, Find(h.world.hub, id), Find(Step(svc, h, tx).world.hub, id),
                  FiringsOf(h.firings, id), g);
    }
  }

  /** Later transactions keep a subscription's terms, and keep it altogether once it has left `Active`. */
  lemma {:induction false} CommittedIsFinal(svc: Services, txs: seq<Tx>, k: nat, id: nat)
    requires ValidRun(txs) && k <= |txs|
    requires Find(Run(svc, txs[..k]).world.hub, id).Some?
    ensures var was, now := Find(Run(svc, txs[..k]).world.hub, id), Find(Run(svc, txs).world.hub, id);
            && now.Some? && now.value == was.value.(status := now.value.status)
            && (was.value.status != Active ==> now == was)
    decreases txs
  {
    if k == |txs| {
      assert txs[..k] == txs;
    } else {
      hide Inv, Accepts;
      var init, tx := txs[..|txs| - 1], txs[|txs| - 1];
      assert init[..k] == txs[..k];
      RunKeepsInv(svc, init);
      CommittedIsFinal(svc, init, k, id);
      var g := StepEvolves(svc, Run(svc, init), tx, id);
    }
  }

  /** Past its expiry, an unfired subscription stays as it is, at every nesting depth of every later transaction. */
  lemma {:induction false} NeverFiresLate(svc: Services, txs: seq<Tx>, k: nat, id: nat)
    requires ValidRun(txs) && k < |txs|
    requires var was := Find(Run(svc, txs[..k]).world.hub, id);
             && was.Some? && was.value.status == Active
             && was.value.expiresAt.Some? && was.value.expiresAt.value < txs[k].height
    ensures Find(Run(svc, txs).world.hub, id) == Find(Run(svc, txs[..k]).world.hub, id)
    decreases txs
  {
    hide Inv, CheckCondition;
    var init, tx := txs[..|txs| - 1], txs[|txs| - 1];
    assert init[..k] == txs[..k];
    RunKeepsInv(svc, init);
    if k == |init| {
      assert init[..k] == init;
    } else {
      NeverFiresLate(svc, init, k, id);
    }
    var g := StepEvolves(svc, Run(svc, init), tx, id);
  }

  /**
   * Conservation: a recording receiver holds exactly one event from the Hub for each triggered subscription that
   * names it, so active and failed ones contribute none; and no committed subscription is ever marked `Expired`.
   */
  lemma Conservation(svc: Services, txs: seq<Tx>, receiver: Addr)
    requires ValidRun(txs)
    ensures var w := Run(svc, txs).world;
            && (receiver in w.receivers && w.receivers[receiver].Recorder? ==>
                  HubEvents(w.receivers[receiver].events) == |TriggeredFor(w.hub, receiver)|)
            && (receiver !in w.receivers ==> TriggeredFor(w.hub, receiver) == {})
            && NeverExpired(w.hub)
  {
    RunKeepsInv(svc, txs);
  }

  // ------------------------------------------------------------------
  // Handlers without the host: the `Expired` write is kept
  // ------------------------------------------------------------------

  /** A call of one of the handlers. */
  datatype Call =
    | SubscribeCall(height: nat, sender: Addr, sub: SubscribeMsg)
    | SubmitCall(height: nat, submit: SubmitMsg)
    | ReplyCall(id: nat, error: string)

  function Written(svc: Services, s: Store, call: Call): Store {
    match call
    case SubscribeCall(height, sender, m) => Subscribe(s, height, sender, m).store
    case SubmitCall(height, m) => Submit(svc, s, height, m).store
    case ReplyCall(id, error) => Reply(s, id, error).store
  }

  /** Calls made one after another on a store that keeps even a refused handler's writes. */
  function RawRun(svc: Services, s: Store, calls: seq<Call>): Store
    decreases calls
  {
    if calls == [] then s else RawRun(svc, Written(svc, s, calls[0]), calls[1..])
  }

  predicate IdsBelowNext(s: Store) {
    forall id :: id in s.subs ==> id < s.nextId
  }

  predicate TriesLate(calls: seq<Call>, expiry: nat) {
    forall i :: 0 <= i < |calls| && calls[i].SubmitCall? ==> calls[i].height > expiry
  }

  predicate Tried(calls: seq<Call>, id: nat) {
    exists i :: 0 <= i < |calls| && calls[i].SubmitCall? && calls[i].submit.id == id
  }

  predicate Replied(calls: seq<Call>, id: nat) {
    exists i :: 0 <= i < |calls| && calls[i].ReplyCall? && calls[i].id == id
  }

  /**
   * With the write kept, no calls of any handlers trigger an overdue subscription. Short of a reply to a callback
   * it never got, it is active or expired, and expired exactly when it was or a submission tried it.
   */
  lemma {:induction false} OverdueNeverTriggersRaw(svc: Services, s: Store, calls: seq<Call>, id: nat)
    requires IdsBelowNext(s) && id in s.subs && s.subs[id].expiresAt.Some? && s.subs[id].status != Triggered
    requires TriesLate(calls, s.subs[id].expiresAt.value)
    ensures var after := RawRun(svc, s, calls);
            && id in after.subs && after.subs[id] == s.subs[id].(status := after.subs[id].status)
            && after.subs[id].status != Triggered
            && (!Replied(calls, id) && !s.subs[id].status.Failed? ==>
                  after.subs[id].status == if s.subs[id].status == Expired || Tried(calls, id) then Expired else Active)
    decreases calls
  {
    if calls != [] {
      var first, rest := calls[0], calls[1..];
      assert forall i :: 0 <= i < |rest| ==> rest[i] == calls[i + 1];
      assert calls == [first] + rest;
      assert Tried(calls, id) <==> Tried([first], id) || Tried(rest, id);
      assert Replied(calls, id) <==> Replied([first], id) || Replied(rest, id);
      OverdueStep(svc, s, first, id);
      OverdueNeverTriggersRaw(svc, Written(svc, s, first), rest, id);
    }
  }

  lemma OverdueStep(svc: Services, s: Store, call: Call, id: nat)
    requires IdsBelowNext(s) && id in s.subs && s.subs[id].expiresAt.Some? && s.subs[id].status != Triggered
    requires TriesLate([call], s.subs[id].expiresAt.value)
    ensures var after := Written(svc, s, call);
            && IdsBelowNext(after)
            && id in after.subs && after.subs[id] == s.subs[id].(status := after.subs[id].status)
            && after.subs[id].status
               == if Replied([call], id) then Failed(call.error)
                  else if Tried([call], id) && s.subs[id].status == Active then Expired
                  else s.subs[id].status
  {
    hide Submit, Subscribe, Accepts;
    assert [call][0] == call;
    match call
    case SubscribeCall(height, sender, m) => SubscribeExact(s, height, sender, m);
    case SubmitCall(height, m) => LateSubmit(svc, s, height, m);
    case ReplyCall(_, _) =>
  }

  lemma LateSubmit(svc: Services, s: Store, height: nat, m: SubmitMsg)
    ensures var after := Submit(svc, s, height, m).store;
            && after.nextId == s.nextId && after.subs.Keys == s.subs.Keys
            && (forall id :: id in s.subs && id != m.id ==> after.subs[id] == s.subs[id])
            && (IsOverdue(s, m.id, height) ==> after == WithStatus(s, m.id, Expired))
            && (m.id in s.subs && s.subs[m.id].status != Active ==> after == s)
  {
    hide Submit;
    SubmitExact(svc, s, height, m);
  }

  lemma LateReverts(svc: Services, w: World, height: nat, self: Addr, m: SubmitMsg, reaction: seq<Act>)
    requires IsOverdue(w.hub, m.id, height)
    ensures Exec(svc, w, height, self, DoSubmit(m, reaction)) == Reverted
  {
    hide Submit;
    SubmitExact(svc, w.hub, height, m);
  }

  /** The host undoes the write: the transaction that finds a subscription overdue leaves no trace. */
  lemma ExpiryIsRolledBack(svc: Services, h: History, height: nat, sender: Addr, m: SubmitMsg, reaction: seq<Act>)
    requires IsOverdue(h.world.hub, m.id, height)
    ensures Submit(svc, h.world.hub, height, m).store == WithStatus(h.world.hub, m.id, Expired) != h.world.hub
    ensures Step(svc, h, Tx(height, sender, [DoSubmit(m, reaction)])) == h
  {
    hide Submit, Exec;
    SubmitExact(svc, h.world.hub, height, m);
    LateReverts(svc, h.world, height, sender, m, reaction);
    OneAct(svc, h.world, height, sender, DoSubmit(m, reaction));
    assert WithStatus(h.world.hub, m.id, Expired).subs[m.id].status == Expired;
  }
}
