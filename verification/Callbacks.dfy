/** What an accepted submission leads to: the receiver's callback decides between `Triggered` and `Failed`. */
module Callbacks {
  import opened Basics
  import opened Hub
  import opened Host
  import opened Lifecycle

  predicate IsAccepted(svc: Services, s: Store, height: nat, m: SubmitMsg) {
    m.id in s.subs && s.subs[m.id].status == Active && Accepts(svc, s.subs[m.id], height, m)
  }

  /** The callback's own run, on a world where the subscription is already marked. */
  function CalledBack(svc: Services, w: World, height: nat, m: SubmitMsg, reaction: seq<Act>): Ran
    requires m.id in w.hub.subs
  {
    Deliver(svc, Marked(w, m.id, Triggered), height, HUB, w.hub.subs[m.id].callbackContract, reaction)
  }

  /**
   * The submission took effect whatever the receiver did. A callback that failed leaves nothing but the mark
   * `Failed`; one that went through leaves all it did, and the subscription triggered by this submission alone.
   */
  predicate Resolved(svc: Services, w: World, height: nat, m: SubmitMsg, reaction: seq<Act>, r: Ran)
    requires m.id in w.hub.subs
  {
    match CalledBack(svc, w, height, m, reaction)
    case Reverted => r == Done(Marked(w, m.id, Failed(HOST_ERROR)), [Firing(height, m)])
    case Done(after, more) =>
      && r == Done(after, [Firing(height, m)] + more)
      && FiringsOf(r.firings, m.id) == [Firing(height, m)]
      && Find(after.hub, m.id) == Some(w.hub.subs[m.id].(status := Triggered))
  }

  /** The proof is never reverted: an accepted submission takes effect for every receiver and every reaction. */
  lemma AcceptedResolves(svc: Services, w: World, height: nat, self: Addr, m: SubmitMsg, reaction: seq<Act>)
    requires Inv(w) && IsAccepted(svc, w.hub, height, m)
    ensures Resolved(svc, w, height, m, reaction, Exec(svc, w, height, self, DoSubmit(m, reaction)))
  {
    hide Submit, Accepts, Inv, FiringsOf, Evolves;
    SubmitExact(svc, w.hub, height, m);
    var to := w.hub.subs[m.id].callbackContract;
    assert Marked(Marked(w, m.id, Triggered), m.id, Failed(HOST_ERROR)) == Marked(w, m.id, Failed(HOST_ERROR));
    if to in w.receivers {
      CallbackKeepsTrigger(svc, w, height, m, reaction);
    }
  }

  /** Whatever a receiver does in its callback, the subscription stays triggered and does not fire again. */
  lemma CallbackKeepsTrigger(svc: Services, w: World, height: nat, m: SubmitMsg, reaction: seq<Act>)
    requires Inv(w) && IsAccepted(svc, w.hub, height, m)
    ensures var r := CalledBack(svc, w, height, m, reaction);
            r.Done? ==>
              && FiringsOf([Firing(height, m)] + r.firings, m.id) == [Firing(height, m)]
              && Find(r.world.hub, m.id) == Some(w.hub.subs[m.id].(status := Triggered))
  {
    hide Inv, Accepts, ExecAll;
    var to := w.hub.subs[m.id].callbackContract;
    if to in w.receivers {
      var w1 := Notified(Marked(w, m.id, Triggered), height, HUB, to);
      TriggerAndNotifyKeepInv(w, height, m.id);
      ReceiversAreNotHub(w, to);
      ExecAllEvolves(svc, w1, height, to, reaction, m.id);
      var r := ExecAll(svc, w1, height, to, reaction);
      if r.Done? { FiringsOfAppend([Firing(height, m)], r.firings, m.id); }
    }
  }

  /** Resolved either way, the subscription keeps its terms, is triggered or failed, and was fired this once. */
  lemma ResolvedOnce(svc: Services, w: World, height: nat, m: SubmitMsg, reaction: seq<Act>, r: Ran)
    requires m.id in w.hub.subs && Resolved(svc, w, height, m, reaction, r)
    ensures r.Done? && m.id in r.world.hub.subs
    ensures var now := r.world.hub.subs[m.id];
            && now == w.hub.subs[m.id].(status := now.status)
            && (now.status == Triggered || now.status == Failed(HOST_ERROR))
    ensures FiringsOf(r.firings, m.id) == [Firing(height, m)]
  {
    hide CalledBack;
    assert FiringsOf([Firing(height, m)][1..], m.id) == [];
  }

  /** An accepted submission commits as a transaction of its own after any run, and is the subscription's first. */
  lemma AcceptedCommits(svc: Services, txs: seq<Tx>, height: nat, sender: Addr, m: SubmitMsg, reaction: seq<Act>)
    requires ValidRun(txs) && IsAccepted(svc, Run(svc, txs).world.hub, height, m)
    ensures var before := Run(svc, txs);
            var after := Run(svc, txs + [Tx(height, sender, [DoSubmit(m, reaction)])]);
            && FiringsOf(before.firings, m.id) == [] && FiringsOf(after.firings, m.id) == [Firing(height, m)]
            && m.id in after.world.hub.subs
            && var now := after.world.hub.subs[m.id];
               && now == before.world.hub.subs[m.id].(status := now.status)
               && (now.status == Triggered || now.status == Failed(HOST_ERROR))
  {
    hide Accepts, Inv, Resolved, Exec, FiringsOf;
    var h, act := Run(svc, txs), DoSubmit(m, reaction);
    var tx := Tx(height, sender, [act]);
    var r := Exec(svc, h.world, height, sender, act);
    RunSettles(svc, txs, m.id);
    RunKeepsInv(svc, txs);
    AcceptedResolves(svc, h.world, height, sender, m, reaction);
    ResolvedOnce(svc, h.world, height, m, reaction, r);
    OneAct(svc, h.world, height, sender, act);
    FiringsOfAppend(h.firings, r.firings, m.id);
    RunSnoc(svc, txs, tx);
  }

  // ------------------------------------------------------------------
  // Receivers whose callback can be followed to the end
  // ------------------------------------------------------------------

  /** A recording receiver that does nothing more gains one event; at an address without a contract the call fails. */
  lemma PlainReceivers(svc: Services, w: World, height: nat, self: Addr, m: SubmitMsg)
    requires Inv(w) && IsAccepted(svc, w.hub, height, m)
    ensures var to := w.hub.subs[m.id].callbackContract;
            var r := Exec(svc, w, height, self, DoSubmit(m, []));
            && (to in w.receivers && w.receivers[to].Recorder? ==>
                  var log := Recorder(w.receivers[to].events + [Event(HUB, height)]);
                  r == Done(Marked(w, m.id, Triggered).(receivers := w.receivers[to := log]), [Firing(height, m)]))
            && (to !in w.receivers ==>
                  r == Done(Marked(w, m.id, Failed(HOST_ERROR)), [Firing(height, m)]))
  {
    hide Accepts, Exec, Inv, FiringsOf, Find;
    AcceptedResolves(svc, w, height, self, m, []);
    assert [Firing(height, m)] + [] == [Firing(height, m)];
  }

  /** A receiver that fails partway undoes all it did, its own record of the call included. */
  lemma FailsPartway(svc: Services, w: World, height: nat, self: Addr, m: SubmitMsg, done: seq<Act>, rest: seq<Act>)
    requires Inv(w) && IsAccepted(svc, w.hub, height, m)
    ensures Exec(svc, w, height, self, DoSubmit(m, done + [DoFail] + rest))
            == Done(Marked(w, m.id, Failed(HOST_ERROR)), [Firing(height, m)])
  {
    hide Accepts, Exec, Inv, FiringsOf, Find, ExecAll;
    AcceptedResolves(svc, w, height, self, m, done + [DoFail] + rest);
    var to := w.hub.subs[m.id].callbackContract;
    if to in w.receivers {
      var w1 := Notified(Marked(w, m.id, Triggered), height, HUB, to);
      FailReverts(svc, w1, height, to, done, rest);
    }
  }

  lemma {:induction false} FailReverts(svc: Services, w: World, height: nat, self: Addr, done: seq<Act>, rest: seq<Act>)
    ensures ExecAll(svc, w, height, self, done + [DoFail] + rest) == Reverted
    decreases done
  {
    var acts := done + [DoFail] + rest;
    if done == [] {
      assert acts[0] == DoFail;
    } else {
      assert acts[0] == done[0] && acts[1..] == done[1..] + [DoFail] + rest;
      var first := Exec(svc, w, height, self, done[0]);
      if first.Done? { FailReverts(svc, first.world, height, self, done[1..], rest); }
    }
  }

  /** A receiver that subscribes again in its callback ends with the old subscription triggered and a new one active. */
  lemma Resubscribes(svc: Services, w: World, height: nat, self: Addr, m: SubmitMsg, again: SubscribeMsg)
    requires Inv(w) && IsAccepted(svc, w.hub, height, m) && Takes(w.hub, height, again)
    requires w.hub.subs[m.id].callbackContract in w.receivers
    ensures var r := Exec(svc, w, height, self, DoSubmit(m, [DoSubscribe(again)]));
            && r.Done? && r.firings == [Firing(height, m)]
            && var s, id := r.world.hub, w.hub.nextId;
               && id in s.subs && m.id in s.subs && m.id != id && s.nextId == id + 1
               && s.subs[m.id] == w.hub.subs[m.id].(status := Triggered)
               && s.subs[id].status == Active && s.subs[id].creator == w.hub.subs[m.id].callbackContract
               && s.subs[id].watchKey == again.watchKey && s.subs[id].callbackContract == again.callbackContract
  {
    hide Accepts, Exec, Inv, FiringsOf, Submit;
    AcceptedResolves(svc, w, height, self, m, [DoSubscribe(again)]);
    var to := w.hub.subs[m.id].callbackContract;
    var w1 := Notified(Marked(w, m.id, Triggered), height, HUB, to);
    SubscribeExact(w1.hub, height, to, again);
    OneAct(svc, w1, height, to, DoSubscribe(again));
    SubscribeRuns(svc, w1, height, to, again);
    assert m.id != w.hub.nextId by { IdsAreBelow(w, m.id); }
    assert [Firing(height, m)] + [] == [Firing(height, m)];
  }

  lemma IdsAreBelow(w: World, id: nat)
    requires Inv(w) && id in w.hub.subs
    ensures id < w.hub.nextId
  {
  }
}
