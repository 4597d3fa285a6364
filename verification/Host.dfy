/**
 * The CosmWasm host around the Hub: messages run depth first, a failing message leaves no writes, and the Hub's
 * callback runs in a snapshot of its own whose failure comes back to the Hub as a reply.
 */
module Host {
  import opened Basics
  import opened Hub

  const HUB: Addr := "hub"

  /** Stands for whatever text the host reports for a failed callback. */
  const HOST_ERROR: string := "codespace: wasm, code: 5"

  // ------------------------------------------------------------------
  // Receivers
  // ------------------------------------------------------------------

  datatype Event = Event(caller: Addr, blockHeight: nat)

  /** contracts/proof-callback */
  class ProofCallback {
    var events: seq<Event>

    constructor Instantiate()
      ensures events == []
    {
      events := [];
    }

    method ExecuteInterchainEvent(sender: Addr, height: nat)
      modifies this
      ensures events == Recorded(old(events), sender, height)
    {
      var loaded := events;
      loaded := loaded + [Event(sender, height)];
      events := loaded;
    }
  }

  function Recorded(events: seq<Event>, sender: Addr, height: nat): seq<Event> {
    events + [Event(sender, height)]
  }

  /** A deployed contract that records its callbacks as proof-callback does, or one that keeps no such log. */
  datatype Receiver = Recorder(events: seq<Event>) | Silent

  datatype World = World(hub: Store, receivers: map<Addr, Receiver>)

  const GENESIS := World(EMPTY_STORE, map[])

  // ------------------------------------------------------------------
  // Messages
  // ------------------------------------------------------------------

  /** What a caller does. A receiver that gets a callback goes on with a tree of further actions of its own. */
  datatype Act =
    | DoSubscribe(sub: SubscribeMsg)
    | DoSubmit(submit: SubmitMsg, reaction: seq<Act>)
    | DoNotify(receiver: Addr, reaction: seq<Act>)  // anyone may call a receiver's InterchainEvent entry point
    | DoAttempt(body: seq<Act>)                     // a sub-message whose failure the caller swallows
    | DoDeploy(addr: Addr, records: bool)
    | DoFail

  datatype Firing = Firing(height: nat, msg: SubmitMsg)

  /** The world after, and the submissions that took effect on the way, in order. */
  datatype Ran = Done(world: World, firings: seq<Firing>) | Reverted

  function Exec(svc: Services, w: World, height: nat, self: Addr, act: Act): Ran
    decreases act, 1
  {
    match act
    case DoSubscribe(m) =>
      var h := Subscribe(w.hub, height, self, m);
      if h.result.Err? then Reverted else Done(w.(hub := h.store), [])
    case DoSubmit(m, reaction) =>
      var h := Submit(svc, w.hub, height, m);
      if h.result.Err? then Reverted
      else
        var w1 := w.(hub := h.store);
        (match Deliver(svc, w1, height, HUB, h.result.value.contract, reaction)
         case Done(w2, firings) => Done(w2, [Firing(height, m)] + firings)
         case Reverted =>
           var r := Reply(w1.hub, m.id, HOST_ERROR);
           if r.result.Err? then Reverted else Done(w1.(hub := r.store), [Firing(height, m)]))
    case DoNotify(receiver, reaction) => Deliver(svc, w, height, self, receiver, reaction)
    case DoAttempt(body) =>
      (match ExecAll(svc, w, height, self, body)
       case Done(w', firings) => Done(w', firings)
       case Reverted => Done(w, []))
    case DoDeploy(addr, records) =>
      if addr == HUB || addr in w.receivers then Reverted
      else Done(w.(receivers := w.receivers[addr := if records then Recorder([]) else Silent]), [])
    case DoFail => Reverted
  }

  function Marked(w: World, id: nat, status: Status): World
    requires id in w.hub.subs
  {
    w.(hub := WithStatus(w.hub, id, status))
  }

  function Notified(w: World, height: nat, caller: Addr, receiver: Addr): World
    requires receiver in w.receivers
  {
    match w.receivers[receiver]
    case Silent => w
    case Recorder(events) => w.(receivers := w.receivers[receiver := Recorder(Recorded(events, caller, height))])
  }

  /** An InterchainEvent message; the Hub itself does not understand it. */
  function Deliver(svc: Services, w: World, height: nat, caller: Addr, receiver: Addr, reaction: seq<Act>): Ran
    decreases reaction, 1
  {
    if receiver !in w.receivers then Reverted
    else ExecAll(svc, Notified(w, height, caller, receiver), height, receiver, reaction)
  }

  function ExecAll(svc: Services, w: World, height: nat, self: Addr, acts: seq<Act>): Ran
    decreases acts, 0
  {
    if acts == [] then Done(w, []) else
      match Exec(svc, w, height, self, acts[0])
      case Reverted => Reverted
      case Done(w1, f1) =>
        match ExecAll(svc, w1, height, self, acts[1..])
        case Reverted => Reverted
        case Done(w2, f2) => Done(w2, f1 + f2)
  }

  /** A message sent alone. */
  lemma OneAct(svc: Services, w: World, height: nat, self: Addr, act: Act)
    ensures ExecAll(svc, w, height, self, [act]) == Exec(svc, w, height, self, act)
  {
    hide Exec;
    var acts, r := [act], Exec(svc, w, height, self, act);
    assert acts[1..] == [] && acts[0] == act;
    if r.Done? {
      assert ExecAll(svc, r.world, height, self, acts[1..]) == Done(r.world, []);
      assert r.firings + [] == r.firings;
    }
  }

  lemma SubscribeRuns(svc: Services, w: World, height: nat, self: Addr, m: SubscribeMsg)
    ensures Exec(svc, w, height, self, DoSubscribe(m))
            == if Takes(w.hub, height, m) then Done(w.(hub := Subscribe(w.hub, height, self, m).store), [])
               else Reverted
  {
    SubscribeExact(w.hub, height, self, m);
  }

  // ------------------------------------------------------------------
  // Runs
  // ------------------------------------------------------------------

  datatype Tx = Tx(height: nat, sender: Addr, acts: seq<Act>)

  /** Transactions come from senders other than the Hub, in blocks of non-decreasing height. */
  predicate ValidRun(txs: seq<Tx>) {
    && (forall i :: 0 <= i < |txs| ==> txs[i].sender != HUB)
    && (forall i, j :: 0 <= i < j < |txs| ==> txs[i].height <= txs[j].height)
  }

  datatype History = History(world: World, firings: seq<Firing>)

  function Step(svc: Services, h: History, tx: Tx): History {
    match ExecAll(svc, h.world, tx.height, tx.sender, tx.acts)
    case Done(w, firings) => History(w, h.firings + firings)
    case Reverted => h
  }

  /** The committed history of a run of transactions. */
  function Run(svc: Services, txs: seq<Tx>): History {
    if txs == [] then History(GENESIS, []) else Step(svc, Run(svc, txs[..|txs| - 1]), txs[|txs| - 1])
  }

  lemma RunSnoc(svc: Services, txs: seq<Tx>, tx: Tx)
    ensures Run(svc, txs + [tx]) == Step(svc, Run(svc, txs), tx)
  {
    hide Step;
    assert (txs + [tx])[..|txs|] == txs;
  }

  // ------------------------------------------------------------------
  // The invariant: dense ids, no committed `Expired`, and books that balance
  // ------------------------------------------------------------------

  function HubEvents(events: seq<Event>): nat {
    if events == [] then 0
    else HubEvents(events[..|events| - 1]) + if events[|events| - 1].caller == HUB then 1 else 0
  }

  /** The triggered subscriptions that name a receiver. */
  function TriggeredFor(s: Store, receiver: Addr): set<nat> {
    set id | id in s.subs && s.subs[id].status == Triggered && s.subs[id].callbackContract == receiver
  }

  ghost predicate Dense(s: Store) {
    && 1 <= s.nextId < U64
    && (forall id :: id in s.subs <==> 1 <= id < s.nextId)
    && (forall id :: id in s.subs ==> s.subs[id].id == id)
  }

  ghost predicate Balanced(w: World) {
    && (forall r :: r in w.receivers && w.receivers[r].Recorder? ==>
          HubEvents(w.receivers[r].events) == |TriggeredFor(w.hub, r)|)
    && (forall r :: r !in w.receivers ==> TriggeredFor(w.hub, r) == {})
  }

  predicate NeverExpired(s: Store) {
    forall id :: id in s.subs ==> s.subs[id].status != Expired
  }

  ghost predicate Inv(w: World) {
    && HUB !in w.receivers
    && Dense(w.hub) && NeverExpired(w.hub) && Balanced(w)
  }

  lemma HubEventsOfRecorded(events: seq<Event>, caller: Addr, height: nat)
    ensures HubEvents(Recorded(events, caller, height)) == HubEvents(events) + if caller == HUB then 1 else 0
  {
    var more := Recorded(events, caller, height);
    assert more[..|more| - 1] == events;
  }

  /** Statuses other than `Triggered`, and new subscriptions, leave the books alone. */
  lemma SameTriggered(s: Store, s': Store)
    requires forall id :: id in s.subs && s.subs[id].status == Triggered ==> id in s'.subs && s'.subs[id] == s.subs[id]
    requires forall id :: id in s'.subs && s'.subs[id].status == Triggered ==> id in s.subs && s.subs[id] == s'.subs[id]
    ensures forall r :: TriggeredFor(s', r) == TriggeredFor(s, r)
  {
  }

  /** Triggering adds the subscription to the books of the receiver it names, and to no other. */
  lemma TriggerCounts(s: Store, id: nat, r: Addr)
    requires id in s.subs && s.subs[id].status != Triggered
    ensures var before, after := TriggeredFor(s, r), TriggeredFor(WithStatus(s, id, Triggered), r);
            if s.subs[id].callbackContract == r then after == before + {id} && |after| == |before| + 1
            else after == before
  {
    var before, after := TriggeredFor(s, r), TriggeredFor(WithStatus(s, id, Triggered), r);
    assert after == if s.subs[id].callbackContract == r then before + {id} else before;
    assert id !in before;
  }

  lemma SubscribeKeepsInv(w: World, height: nat, sender: Addr, m: SubscribeMsg)
    requires Inv(w) && Subscribe(w.hub, height, sender, m).result.Ok?
    ensures Inv(w.(hub := Subscribe(w.hub, height, sender, m).store))
  {
    SameTriggered(w.hub, Subscribe(w.hub, height, sender, m).store);
  }

  /** A failed callback balances: the trigger and its event are both gone. */
  lemma FailedKeepsInv(w: World, id: nat)
    requires Inv(w) && id in w.hub.subs && w.hub.subs[id].status == Active
    ensures Inv(w.(hub := WithStatus(WithStatus(w.hub, id, Triggered), id, Failed(HOST_ERROR))))
  {
    SameTriggered(w.hub, WithStatus(WithStatus(w.hub, id, Triggered), id, Failed(HOST_ERROR)));
  }

  /** A delivered callback balances: one more trigger and one more event from the Hub, at the same receiver. */
  lemma TriggerAndNotifyKeepInv(w: World, height: nat, id: nat)
    requires Inv(w) && id in w.hub.subs && w.hub.subs[id].status == Active
    requires w.hub.subs[id].callbackContract in w.receivers
    ensures Inv(Notified(Marked(w, id, Triggered), height, HUB, w.hub.subs[id].callbackContract))
  {
    var target := w.hub.subs[id].callbackContract;
    var w' := Notified(Marked(w, id, Triggered), height, HUB, target);
    forall r | r in w'.receivers && w'.receivers[r].Recorder?
      ensures HubEvents(w'.receivers[r].events) == |TriggeredFor(w'.hub, r)|
    {
      TriggerCounts(w.hub, id, r);
      if r == target { HubEventsOfRecorded(w.receivers[r].events, HUB, height); }
    }
    forall r | r !in w'.receivers ensures TriggeredFor(w'.hub, r) == {} { TriggerCounts(w.hub, id, r); }
  }

  /** Anyone else's notification adds no event from the Hub. */
  lemma NotifyKeepsInv(w: World, height: nat, caller: Addr, receiver: Addr)
    requires Inv(w) && receiver in w.receivers && caller != HUB
    ensures Inv(Notified(w, height, caller, receiver))
  {
    hide TriggeredFor, HubEvents, Dense, NeverExpired;
    if w.receivers[receiver].Recorder? { HubEventsOfRecorded(w.receivers[receiver].events, caller, height); }
    assert Balanced(Notified(w, height, caller, receiver));
  }

  lemma {:induction false} ExecKeepsInv(svc: Services, w: World, height: nat, self: Addr, act: Act)
    requires Inv(w) && self != HUB
    ensures var r := Exec(svc, w, height, self, act); r.Done? ==> Inv(r.world)
    decreases act, 1
  {
    hide Dense, Balanced, NeverExpired, Accepts, Submit, Subscribe;
    match act
    case DoSubscribe(m) =>
      if Subscribe(w.hub, height, self, m).result.Ok? { SubscribeKeepsInv(w, height, self, m); }
    case DoSubmit(m, reaction) =>
      SubmitExact(svc, w.hub, height, m);
      if Submit(svc, w.hub, height, m).result.Ok? {
        var target := w.hub.subs[m.id].callbackContract;
        FailedKeepsInv(w, m.id);
        if target in w.receivers {
          TriggerAndNotifyKeepInv(w, height, m.id);
          var w1 := Notified(Marked(w, m.id, Triggered), height, HUB, target);
          ExecAllKeepsInv(svc, w1, height, target, reaction);
        }
      }
    case DoNotify(receiver, reaction) =>
      if receiver in w.receivers {
        NotifyKeepsInv(w, height, self, receiver);
        ExecAllKeepsInv(svc, Notified(w, height, self, receiver), height, receiver, reaction);
      }
    case DoAttempt(body) => ExecAllKeepsInv(svc, w, height, self, body);
    case DoDeploy(addr, records) => DeployKeepsInv(w, addr, records);
    case DoFail =>
  }

  lemma DeployKeepsInv(w: World, addr: Addr, records: bool)
    requires Inv(w)
    ensures addr != HUB && addr !in w.receivers ==>
              Inv(w.(receivers := w.receivers[addr := if records then Recorder([]) else Silent]))
  {
  }

  lemma {:induction false} ExecAllKeepsInv(svc: Services, w: World, height: nat, self: Addr, acts: seq<Act>)
    requires Inv(w) && self != HUB
    ensures var r := ExecAll(svc, w, height, self, acts); r.Done? ==> Inv(r.world)
    decreases acts, 0
  {
    hide Inv;
    if acts != [] {
      ExecKeepsInv(svc, w, height, self, acts[0]);
      var r := Exec(svc, w, height, self, acts[0]);
      if r.Done? { ExecAllKeepsInv(svc, r.world, height, self, acts[1..]); }
    }
  }

  /** Every committed world satisfies the invariant. */
  lemma {:induction false} RunKeepsInv(svc: Services, txs: seq<Tx>)
    requires ValidRun(txs)
    ensures Inv(Run(svc, txs).world)
  {
    if txs == [] {
      assert HubEvents([]) == 0;
    } else {
      hide Inv;
      var init, tx := txs[..|txs| - 1], txs[|txs| - 1];
      RunKeepsInv(svc, init);
      ExecAllKeepsInv(svc, Run(svc, init).world, tx.height, tx.sender, tx.acts);
    }
  }
}
