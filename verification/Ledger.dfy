/** The receivers' logs agree with the Hub's history not only in number but entry by entry, in order. */
module Ledger {
  import opened Basics
  import opened Hub
  import opened Host
  import opened Lifecycle

  /** The block heights of the events a log holds from the Hub. */
  function HubHeights(events: seq<Event>): seq<nat> {
    if events == [] then []
    else
      var last := events[|events| - 1];
      HubHeights(events[..|events| - 1]) + if last.caller == HUB then [last.blockHeight] else []
  }

  predicate IsSilent(w: World, r: Addr) {
    r in w.receivers && w.receivers[r].Silent?
  }

  function Log(w: World, r: Addr): seq<nat> {
    if r in w.receivers && w.receivers[r].Recorder? then HubHeights(w.receivers[r].events) else []
  }

  /** The heights of the submissions whose callback the receiver took: those that left their subscription triggered. */
  function Landed(fs: seq<Firing>, s: Store, r: Addr): seq<nat> {
    if fs == [] then []
    else
      var id := fs[0].msg.id;
      var lands := id in s.subs && s.subs[id].status == Triggered && s.subs[id].callbackContract == r;
      (if lands then [fs[0].height] else []) + Landed(fs[1..], s, r)
  }

  lemma {:induction false} LandedAppend(a: seq<Firing>, b: seq<Firing>, s: Store, r: Addr)
    ensures Landed(a + b, s, r) == Landed(a, s, r) + Landed(b, s, r)
  {
    if a == [] {
      assert a + b == b;
    } else {
      assert (a + b)[1..] == a[1..] + b;
      LandedAppend(a[1..], b, s, r);
    }
  }

  /** Every one of these submissions fired a subscription that has therefore left `Active`. */
  predicate AllFired(fs: seq<Firing>, s: Store) {
    forall i :: 0 <= i < |fs| ==> fs[i].msg.id in s.subs && s.subs[fs[i].msg.id].status != Active
  }

  /** Subscriptions that have left `Active` are the same in both stores. */
  predicate Final(s: Store, s': Store) {
    forall id :: id in s.subs && s.subs[id].status != Active ==> id in s'.subs && s'.subs[id] == s.subs[id]
  }

  lemma {:induction false} LandedStable(fs: seq<Firing>, s: Store, s': Store, r: Addr)
    requires AllFired(fs, s) && Final(s, s')
    ensures Landed(fs, s', r) == Landed(fs, s, r) && AllFired(fs, s')
  {
    if fs != [] {
      assert s'.subs[fs[0].msg.id] == s.subs[fs[0].msg.id];
      assert forall i :: 0 <= i < |fs[1..]| ==> fs[1..][i] == fs[i + 1];
      LandedStable(fs[1..], s, s', r);
    }
  }

  lemma {:induction false} FiredIn(fs: seq<Firing>, i: nat)
    requires i < |fs|
    ensures FiringsOf(fs, fs[i].msg.id) != []
  {
    if i > 0 { FiredIn(fs[1..], i - 1); }
  }

  /** Evolution of every subscription makes the ones that left `Active` final, and the submissions fired. */
  lemma EvolvedIsFinal(svc: Services, height: nat, s: Store, s': Store, fs: seq<Firing>)
    requires forall id: nat :: Evolves(svc, height, Find(s, id), Find(s', id), FiringsOf(fs, id))
    ensures Final(s, s') && AllFired(fs, s')
  {
    hide Accepts, FiringsOf;
    forall id | id in s.subs && s.subs[id].status != Active ensures id in s'.subs && s'.subs[id] == s.subs[id] {
      assert Evolves(svc, height, Find(s, id), Find(s', id), FiringsOf(fs, id));
    }
    forall i | 0 <= i < |fs| ensures fs[i].msg.id in s'.subs && s'.subs[fs[i].msg.id].status != Active {
      FiredIn(fs, i);
      assert Evolves(svc, height, Find(s, fs[i].msg.id), Find(s', fs[i].msg.id), FiringsOf(fs, fs[i].msg.id));
    }
  }

  lemma ExecAllFinal(svc: Services, w: World, height: nat, self: Addr, acts: seq<Act>)
    requires Inv(w) && self != HUB
    ensures var r := ExecAll(svc, w, height, self, acts);
            r.Done? ==> Final(w.hub, r.world.hub) && AllFired(r.firings, r.world.hub)
  {
    hide Inv, Evolves, ExecAll, Find, Final, AllFired;
    var r := ExecAll(svc, w, height, self, acts);
    if r.Done? {
      forall id: nat ensures Evolves(svc, height, Find(w.hub, id), Find(r.world.hub, id), FiringsOf(r.firings, id)) {
        ExecAllEvolves(svc, w, height, self, acts, id);
      }
      EvolvedIsFinal(svc, height, w.hub, r.world.hub, r.firings);
    }
  }

  lemma ExecFinal(svc: Services, w: World, height: nat, self: Addr, act: Act)
    requires Inv(w) && self != HUB
    ensures var r := Exec(svc, w, height, self, act);
            r.Done? ==> Final(w.hub, r.world.hub) && AllFired(r.firings, r.world.hub)
  {
    hide Inv, Evolves, Exec, Find, Final, AllFired;
    var r := Exec(svc, w, height, self, act);
    if r.Done? {
      forall id: nat ensures Evolves(svc, height, Find(w.hub, id), Find(r.world.hub, id), FiringsOf(r.firings, id)) {
        ExecEvolves(svc, w, height, self, act, id);
      }
      EvolvedIsFinal(svc, height, w.hub, r.world.hub, r.firings);
    }
  }

  // ------------------------------------------------------------------
  // One message
  // ------------------------------------------------------------------

  /** A receiver that keeps a log, or is not deployed yet, gained exactly the landed submissions. */
  ghost predicate Logged(w: World, w': World, fs: seq<Firing>, r: Addr) {
    && (IsSilent(w, r) ==> IsSilent(w', r))
    && (!IsSilent(w', r) ==> Log(w', r) == Log(w, r) + Landed(fs, w'.hub, r))
  }

  lemma LoggedTwice(a: World, b: World, c: World, f: seq<Firing>, g: seq<Firing>, r: Addr)
    requires Logged(a, b, f, r) && Logged(b, c, g, r)
    requires AllFired(f, b.hub) && Final(b.hub, c.hub)
    ensures Logged(a, c, f + g, r)
  {
    hide Final, AllFired, Log, IsSilent, Landed;
    LandedStable(f, b.hub, c.hub, r);
    LandedAppend(f, g, c.hub, r);
  }

  lemma HubHeightsOfRecorded(events: seq<Event>, caller: Addr, height: nat)
    ensures HubHeights(Recorded(events, caller, height)) == HubHeights(events) + if caller == HUB then [height] else []
  {
    var more := Recorded(events, caller, height);
    assert more[..|more| - 1] == events;
  }

  lemma NotifyLogged(w: World, height: nat, caller: Addr, receiver: Addr, r: Addr)
    requires receiver in w.receivers && caller != HUB
    ensures Logged(w, Notified(w, height, caller, receiver), [], r)
  {
    if w.receivers[receiver].Recorder? { HubHeightsOfRecorded(w.receivers[receiver].events, caller, height); }
  }

  lemma TriggerLogged(w: World, height: nat, m: SubmitMsg, r: Addr)
    requires m.id in w.hub.subs && w.hub.subs[m.id].callbackContract in w.receivers
    ensures var w1 := Notified(Marked(w, m.id, Triggered), height, HUB, w.hub.subs[m.id].callbackContract);
            Logged(w, w1, [Firing(height, m)], r)
  {
    var target := w.hub.subs[m.id].callbackContract;
    if w.receivers[target].Recorder? { HubHeightsOfRecorded(w.receivers[target].events, HUB, height); }
    LandedOne(Firing(height, m), WithStatus(w.hub, m.id, Triggered), r);
  }

  lemma LandedOne(f: Firing, s: Store, r: Addr)
    requires f.msg.id in s.subs
    ensures Landed([f], s, r)
            == if s.subs[f.msg.id].status == Triggered && s.subs[f.msg.id].callbackContract == r then [f.height] else []
  {
    assert Landed([f][1..], s, r) == [];
  }

  lemma {:induction false} ExecLogged(svc: Services, w: World, height: nat, self: Addr, act: Act, r: Addr)
    requires Inv(w) && self != HUB
    ensures var ran := Exec(svc, w, height, self, act); ran.Done? ==> Logged(w, ran.world, ran.firings, r)
    decreases act, 1
  {
    hide Inv, Accepts, Subscribe, Submit, Final, AllFired;
    match act
    case DoSubscribe(m) =>
    case DoSubmit(m, reaction) =>
      SubmitExact(svc, w.hub, height, m);
      if Submit(svc, w.hub, height, m).result.Ok? { SubmitLogged(svc, w, height, self, m, reaction, r); }
    case DoNotify(receiver, reaction) =>
      if receiver in w.receivers {
        var w1 := Notified(w, height, self, receiver);
        NotifyLogged(w, height, self, receiver, r);
        NotifyKeepsInv(w, height, self, receiver);
        ReceiversAreNotHub(w, receiver);
        ExecAllLogged(svc, w1, height, receiver, reaction, r);
        var ran := ExecAll(svc, w1, height, receiver, reaction);
        if ran.Done? { LoggedAfterNothing(w, w1, ran.world, ran.firings, r); }
      }
    case DoAttempt(body) => ExecAllLogged(svc, w, height, self, body, r);
    case DoDeploy(addr, records) =>
    case DoFail =>
  }

  lemma LoggedAfterNothing(a: World, b: World, c: World, g: seq<Firing>, r: Addr)
    requires Logged(a, b, [], r) && Logged(b, c, g, r)
    ensures Logged(a, c, g, r)
  {
    hide Log, IsSilent;
    assert Landed([], b.hub, r) == [];
    assert Log(a, r) + [] + Landed(g, c.hub, r) == Log(a, r) + Landed(g, c.hub, r);
  }

  lemma {:induction false} SubmitLogged(svc: Services, w: World, height: nat, self: Addr, m: SubmitMsg,
                                        reaction: seq<Act>, r: Addr)
    requires Inv(w) && self != HUB && Submit(svc, w.hub, height, m).result.Ok?
    ensures var ran := Exec(svc, w, height, self, DoSubmit(m, reaction));
            ran.Done? ==> Logged(w, ran.world, ran.firings, r)
    decreases reaction, 1
  {
    hide Inv, Accepts, Submit, Final, Logged;
    SubmitExact(svc, w.hub, height, m);
    var fired, target := Firing(height, m), w.hub.subs[m.id].callbackContract;
    FailureLogged(w, fired, r);
    if target in w.receivers {
      var w1 := Notified(Marked(w, m.id, Triggered), height, HUB, target);
      TriggerAndNotifyKeepInv(w, height, m.id);
      ReceiversAreNotHub(w, target);
      TriggerLogged(w, height, m, r);
      ExecAllLogged(svc, w1, height, target, reaction, r);
      ExecAllFinal(svc, w1, height, target, reaction);
      var ran := ExecAll(svc, w1, height, target, reaction);
      if ran.Done? { LoggedTwice(w, w1, ran.world, [fired], ran.firings, r); }
    }
  }

  lemma FailureLogged(w: World, f: Firing, r: Addr)
    requires f.msg.id in w.hub.subs
    ensures Logged(w, Marked(Marked(w, f.msg.id, Triggered), f.msg.id, Failed(HOST_ERROR)), [f], r)
  {
    LandedOne(f, WithStatus(WithStatus(w.hub, f.msg.id, Triggered), f.msg.id, Failed(HOST_ERROR)), r);
  }

  lemma {:induction false} ExecAllLogged(svc: Services, w: World, height: nat, self: Addr, acts: seq<Act>, r: Addr)
    requires Inv(w) && self != HUB
    ensures var ran := ExecAll(svc, w, height, self, acts); ran.Done? ==> Logged(w, ran.world, ran.firings, r)
    decreases acts, 0
  {
    if acts != [] {
      hide Inv, Logged, Final, AllFired;
      ExecLogged(svc, w, height, self, acts[0], r);
      ExecKeepsInv(svc, w, height, self, acts[0]);
      ExecFinal(svc, w, height, self, acts[0]);
      var first := Exec(svc, w, height, self, acts[0]);
      if first.Done? {
        ExecAllLogged(svc, first.world, height, self, acts[1..], r);
        ExecAllFinal(svc, first.world, height, self, acts[1..]);
        var rest := ExecAll(svc, first.world, height, self, acts[1..]);
        if rest.Done? { LoggedTwice(w, first.world, rest.world, first.firings, rest.firings, r); }
      }
    }
  }

  // ------------------------------------------------------------------
  // Whole runs
  // ------------------------------------------------------------------

  /**
   * After any run, the events a receiver recorded from the Hub are, in order and with their block heights, exactly
   * the submissions that left a subscription naming it triggered.
   */
  lemma {:induction false} LogIsHistory(svc: Services, txs: seq<Tx>, r: Addr)
    requires ValidRun(txs)
    ensures var h := Run(svc, txs);
            && AllFired(h.firings, h.world.hub)
            && (!IsSilent(h.world, r) ==> Log(h.world, r) == Landed(h.firings, h.world.hub, r))
  {
    if txs != [] {
      hide Inv, Final, ExecAll;
      var init, tx := txs[..|txs| - 1], txs[|txs| - 1];
      var h := Run(svc, init);
      RunKeepsInv(svc, init);
      LogIsHistory(svc, init, r);
      ExecAllLogged(svc, h.world, tx.height, tx.sender, tx.acts, r);
      ExecAllFinal(svc, h.world, tx.height, tx.sender, tx.acts);
      var ran := ExecAll(svc, h.world, tx.height, tx.sender, tx.acts);
      if ran.Done? {
        LandedStable(h.firings, h.world.hub, ran.world.hub, r);
        LandedAppend(h.firings, ran.firings, ran.world.hub, r);
      }
    }
  }
}
