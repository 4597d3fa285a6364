/** The Hub's list queries, a client that pages through them, and the watcher's single page. */
module Paging {
  import opened Basics
  import opened Hub
  import opened Host
  import Lifecycle

  /** `range(start, None, Ascending)`: the stored values with keys from `from` on, in key order. */
  function Range(subs: map<nat, Subscription>, from: nat): seq<Subscription>
    decreases U64 - from
  {
    if from >= U64 then []
    else (if from in subs then [subs[from]] else []) + Range(subs, from + 1)
  }

  function Take<T>(s: seq<T>, n: nat): seq<T> {
    if |s| <= n then s else s[..n]
  }

  function PageSize(limit: Option<nat>): nat {
    var wanted := if limit.Some? then limit.value else 30;
    if wanted < 100 then wanted else 100
  }

  function ListSubscriptions(s: Store, startAfter: Option<nat>, limit: Option<nat>): seq<Subscription> {
    Take(Range(s.subs, if startAfter.Some? then startAfter.value + 1 else 0), PageSize(limit))
  }

  datatype WatchInfo = WatchInfo(id: nat, clientId: string, keyPath: seq<Bytes>, watchKey: Bytes, condition: Condition)

  function ToWatch(sub: Subscription): WatchInfo {
    WatchInfo(sub.id, sub.clientId, sub.keyPath, sub.watchKey, sub.condition)
  }

  function ActiveWatches(all: seq<Subscription>, clientId: string): seq<WatchInfo> {
    if all == [] then []
    else (if all[0].status == Active && all[0].clientId == clientId then [ToWatch(all[0])] else [])
         + ActiveWatches(all[1..], clientId)
  }

  function ActiveWatchesByClient(s: Store, clientId: string): seq<WatchInfo> {
    ActiveWatches(Range(s.subs, 0), clientId)
  }

  // ------------------------------------------------------------------
  // All subscriptions, in order of id
  // ------------------------------------------------------------------

  /** The records of the ids from `from` to the last one handed out. */
  function From(s: Store, from: nat): (r: seq<Subscription>)
    requires Dense(s) && 1 <= from <= s.nextId
    ensures |r| == s.nextId - from
    ensures forall i :: 0 <= i < |r| ==> r[i] == s.subs[from + i] && r[i].id == from + i
    decreases s.nextId - from
  {
    if from == s.nextId then [] else [s.subs[from]] + From(s, from + 1)
  }

  lemma {:induction false} RangeBeyond(s: Store, from: nat)
    requires Dense(s) && s.nextId <= from
    ensures Range(s.subs, from) == []
    decreases U64 - from
  {
    if from < U64 { RangeBeyond(s, from + 1); }
  }

  lemma {:induction false} RangeIsFrom(s: Store, from: nat)
    requires Dense(s) && 1 <= from <= s.nextId
    ensures Range(s.subs, from) == From(s, from)
    decreases s.nextId - from
  {
    if from == s.nextId {
      RangeBeyond(s, from);
    } else {
      RangeIsFrom(s, from + 1);
    }
  }

  lemma RangeFromZero(s: Store)
    requires Dense(s)
    ensures Range(s.subs, 0) == From(s, 1)
  {
    RangeIsFrom(s, 1);
    assert Range(s.subs, 0) == [] + Range(s.subs, 1);
  }

  lemma FromSplit(s: Store, from: nat, n: nat)
    requires Dense(s) && 1 <= from && from + n <= s.nextId
    ensures From(s, from)[..n] + From(s, from + n) == From(s, from)
  {
    hide From;
    var whole, rest := From(s, from), From(s, from + n);
    forall i | n <= i < |whole| ensures rest[i - n] == whole[i] { assert rest[i - n] == s.subs[from + i]; }
  }

  // ------------------------------------------------------------------
  // Paging
  // ------------------------------------------------------------------

  function Start(startAfter: Option<nat>): nat {
    if startAfter.Some? then startAfter.value + 1 else 0
  }

  lemma PageIs(s: Store, startAfter: Option<nat>, limit: nat)
    requires Dense(s) && Start(startAfter) <= s.nextId
    ensures var from := if startAfter.Some? then startAfter.value + 1 else 1;
            && 1 <= from <= s.nextId
            && ListSubscriptions(s, startAfter, Some(limit)) == Take(From(s, from), PageSize(Some(limit)))
  {
    if startAfter.Some? { RangeIsFrom(s, startAfter.value + 1); } else { RangeFromZero(s); }
  }

  /** What a client collects that asks for the next page after the last id it saw, until a page comes back empty. */
  ghost function AllPages(s: Store, startAfter: Option<nat>, limit: nat): seq<Subscription>
    requires Dense(s) && Start(startAfter) <= s.nextId
    decreases s.nextId - Start(startAfter)
  {
    PageIs(s, startAfter, limit);
    var page := ListSubscriptions(s, startAfter, Some(limit));
    if page == [] then [] else page + AllPages(s, Some(page[|page| - 1].id), limit)
  }

  /** With any limit of at least one, paging ends and yields every subscription once, in order of id. */
  lemma {:induction false} PagesAreExact(s: Store, startAfter: Option<nat>, limit: nat)
    requires Dense(s) && Start(startAfter) <= s.nextId && limit >= 1
    ensures AllPages(s, startAfter, limit) == From(s, if startAfter.Some? then startAfter.value + 1 else 1)
    decreases s.nextId - Start(startAfter)
  {
    hide Dense, ListSubscriptions, From;
    PageIs(s, startAfter, limit);
    var from := if startAfter.Some? then startAfter.value + 1 else 1;
    var page := ListSubscriptions(s, startAfter, Some(limit));
    if page != [] {
      PagesAreExact(s, Some(page[|page| - 1].id), limit);
      FromSplit(s, from, |page|);
    }
  }

  /** A limit of zero gets an empty page at once, and a limit above 100 gets at most 100 records. */
  lemma PageLength(s: Store, from: nat, limit: nat)
    requires Dense(s) && 1 <= from <= s.nextId
    ensures |Take(Range(s.subs, from), PageSize(Some(limit)))|
            == if s.nextId - from <= PageSize(Some(limit)) then s.nextId - from else PageSize(Some(limit))
    ensures PageSize(Some(limit)) <= 100 && (PageSize(Some(limit)) == 0 <==> limit == 0)
  {
    RangeIsFrom(s, from);
  }

  /** In every committed world the ids are exactly 1 to NEXT_ID - 1, and listing gives each record once, in order. */
  lemma ListingIsExact(svc: Services, txs: seq<Tx>)
    requires ValidRun(txs)
    ensures var s := Run(svc, txs).world.hub;
            && Dense(s)
            && Range(s.subs, 0) == From(s, 1) && |Range(s.subs, 0)| == s.nextId - 1
            && forall id :: 1 <= id < s.nextId ==> Range(s.subs, 0)[id - 1] == s.subs[id] && s.subs[id].id == id
  {
    RunKeepsInv(svc, txs);
    RangeFromZero(Run(svc, txs).world.hub);
  }

  lemma FromUnchanged(s: Store, s': Store)
    requires Dense(s) && Dense(s') && s'.nextId == s.nextId + 1
    requires forall id :: id in s.subs ==> s'.subs[id] == s.subs[id]
    ensures From(s', 1) == From(s, 1) + [s'.subs[s.nextId]]
  {
    hide From;
    var was, now := From(s, 1), From(s', 1);
    forall i | 0 <= i < |was| ensures now[i] == was[i] { assert now[i] == s'.subs[1 + i]; }
  }

  /**
   * A transaction that subscribes either is taken, and then its subscription is listed last, with the caller as its
   * creator, the message's own terms and an expiry counted from the current height, after an unchanged listing; or it
   * is refused, and leaves no trace.
   */
  lemma SubscribeAppends(svc: Services, h: History, height: nat, sender: Addr, m: SubscribeMsg)
    requires Inv(h.world)
    ensures var s, h' := h.world.hub, Step(svc, h, Tx(height, sender, [DoSubscribe(m)]));
            if !Takes(s, height, m) then h' == h
            else
              var s', id := h'.world.hub, s.nextId;
              && h'.firings == h.firings && h'.world.receivers == h.world.receivers
              && Dense(s') && id in s'.subs && s'.nextId == id + 1
              && Range(s'.subs, 0) == Range(s.subs, 0) + [s'.subs[id]]
              && s'.subs[id].creator == sender && s'.subs[id].status == Active && s'.subs[id].createdAt == height
              && ToWatch(s'.subs[id]) == WatchInfo(id, m.clientId, m.keyPath, m.watchKey, m.condition)
              && s'.subs[id].callbackContract == m.callbackContract && s'.subs[id].callbackMsg == m.callbackMsg
              && (s'.subs[id].expiresAt.Some? <==> m.expiresAfterBlocks.Some?)
              && (m.expiresAfterBlocks.Some? ==>
                    s'.subs[id].expiresAt.value == height + m.expiresAfterBlocks.value < U64)
  {
    hide Range, From, Subscribe, Takes;
    OneAct(svc, h.world, height, sender, DoSubscribe(m));
    SubscribeRuns(svc, h.world, height, sender, m);
    SubscribeExact(h.world.hub, height, sender, m);
    if Takes(h.world.hub, height, m) { TakenIsLast(h.world, height, sender, m); }
    assert h.firings + [] == h.firings;
  }

  lemma TakenIsLast(w: World, height: nat, sender: Addr, m: SubscribeMsg)
    requires Inv(w) && Takes(w.hub, height, m)
    ensures var s := Subscribe(w.hub, height, sender, m).store;
            && Dense(s) && w.hub.nextId in s.subs
            && Range(s.subs, 0) == Range(w.hub.subs, 0) + [s.subs[w.hub.nextId]]
            && (m.expiresAfterBlocks.Some? ==> height + m.expiresAfterBlocks.value < U64)
  {
    hide Range, From;
    var s := Subscribe(w.hub, height, sender, m).store;
    SubscribeKeepsInv(w, height, sender, m);
    FromUnchanged(w.hub, s);
    RangeFromZero(w.hub);
    RangeFromZero(s);
  }

  // ------------------------------------------------------------------
  // Filters
  // ------------------------------------------------------------------

  function OnlyActive(all: seq<Subscription>): seq<Subscription> {
    if all == [] then [] else (if all[0].status == Active then [all[0]] else []) + OnlyActive(all[1..])
  }

  /** The watcher asks for one page of 100 and keeps the active records. */
  function FetchActiveSubscriptions(s: Store): seq<Subscription> {
    OnlyActive(ListSubscriptions(s, None, Some(100)))
  }

  lemma {:induction false} OnlyActiveExact(all: seq<Subscription>, sub: Subscription)
    ensures sub in OnlyActive(all) <==> sub in all && sub.status == Active
  {
    if all != [] { OnlyActiveExact(all[1..], sub); }
  }

  predicate IsWatched(sub: Subscription, clientId: string) {
    sub.status == Active && sub.clientId == clientId
  }

  predicate Ascending(all: seq<Subscription>) {
    forall i, j :: 0 <= i < j < |all| ==> all[i].id < all[j].id
  }

  predicate WatchedIn(all: seq<Subscription>, clientId: string, w: WatchInfo) {
    exists i :: 0 <= i < |all| && IsWatched(all[i], clientId) && w == ToWatch(all[i])
  }

  lemma {:induction false} ActiveWatchesExact(all: seq<Subscription>, clientId: string, w: WatchInfo)
    ensures w in ActiveWatches(all, clientId) <==> WatchedIn(all, clientId, w)
  {
    if all != [] {
      var rest := all[1..];
      ActiveWatchesExact(rest, clientId, w);
      assert forall i :: 0 <= i < |rest| ==> rest[i] == all[i + 1];
      if i :| 0 < i < |all| && IsWatched(all[i], clientId) && w == ToWatch(all[i]) { assert rest[i - 1] == all[i]; }
    }
  }

  predicate AscendFrom(ws: seq<WatchInfo>, low: nat) {
    && (forall i :: 0 <= i < |ws| ==> low <= ws[i].id)
    && (forall i, j :: 0 <= i < j < |ws| ==> ws[i].id < ws[j].id)
  }

  lemma AscendCons(w: WatchInfo, ws: seq<WatchInfo>)
    requires AscendFrom(ws, w.id + 1)
    ensures AscendFrom([w] + ws, w.id)
  {
  }

  lemma ActiveWatchesStep(all: seq<Subscription>, clientId: string)
    requires all != []
    ensures var more := ActiveWatches(all[1..], clientId);
            ActiveWatches(all, clientId) == if IsWatched(all[0], clientId) then [ToWatch(all[0])] + more else more
  {
  }

  lemma AscendingRest(all: seq<Subscription>)
    requires Ascending(all) && all != []
    ensures Ascending(all[1..]) && (all[1..] != [] ==> all[0].id + 1 <= all[1..][0].id)
  {
  }

  lemma {:induction false} ActiveWatchesAscend(all: seq<Subscription>, clientId: string, low: nat)
    requires Ascending(all) && (all != [] ==> low <= all[0].id)
    ensures AscendFrom(ActiveWatches(all, clientId), low)
  {
    if all != [] {
      hide AscendFrom, ActiveWatches, Ascending, IsWatched;
      var more := ActiveWatches(all[1..], clientId);
      AscendingRest(all);
      ActiveWatchesAscend(all[1..], clientId, all[0].id + 1);
      ActiveWatchesStep(all, clientId);
      AscendCons(ToWatch(all[0]), more);
      AscendLower(more, all[0].id + 1, low);
      AscendLower([ToWatch(all[0])] + more, all[0].id, low);
    }
  }

  lemma AscendLower(ws: seq<WatchInfo>, low: nat, lower: nat)
    requires AscendFrom(ws, low) && lower <= low
    ensures AscendFrom(ws, lower)
  {
  }

  lemma ListedWatch(s: Store, clientId: string, w: WatchInfo)
    requires Dense(s)
    ensures WatchedIn(From(s, 1), clientId, w)
            <==> w.id in s.subs && IsWatched(s.subs[w.id], clientId) && w == ToWatch(s.subs[w.id])
  {
    hide From;
    var all := From(s, 1);
    if w.id in s.subs { assert all[w.id - 1] == s.subs[w.id]; }
  }

  /** The query for a client's watches lists exactly the client's active subscriptions, each once, in order of id. */
  lemma WatchesAreExact(s: Store, clientId: string)
    requires Dense(s)
    ensures var ws := ActiveWatchesByClient(s, clientId);
            && (forall i, j :: 0 <= i < j < |ws| ==> ws[i].id < ws[j].id)
            && (forall w :: w in ws <==>
                  w.id in s.subs && IsWatched(s.subs[w.id], clientId) && w == ToWatch(s.subs[w.id]))
  {
    hide Range, From, ActiveWatches, WatchedIn, IsWatched, ToWatch;
    RangeFromZero(s);
    var all := From(s, 1);
    assert ActiveWatchesByClient(s, clientId) == ActiveWatches(all, clientId);
    ActiveWatchesAscend(all, clientId, 0);
    forall w ensures w in ActiveWatches(all, clientId)
                     <==> w.id in s.subs && IsWatched(s.subs[w.id], clientId) && w == ToWatch(s.subs[w.id]) {
      ActiveWatchesExact(all, clientId, w);
      ListedWatch(s, clientId, w);
    }
  }

  /** The watcher sees every active subscription exactly when none has an id above 100. */
  lemma WatcherSeesAll(s: Store)
    requires Dense(s)
    ensures (forall id :: id in s.subs && s.subs[id].status == Active ==> s.subs[id] in FetchActiveSubscriptions(s))
            <==> (forall id :: id in s.subs && s.subs[id].status == Active ==> id <= 100)
  {
    forall id | id in s.subs && s.subs[id].status == Active
      ensures s.subs[id] in FetchActiveSubscriptions(s) <==> id <= 100
    {
      WatcherSees(s, id);
    }
  }

  lemma WatcherSees(s: Store, id: nat)
    requires Dense(s) && id in s.subs && s.subs[id].status == Active
    ensures s.subs[id] in FetchActiveSubscriptions(s) <==> id <= 100
  {
    hide Range, From, OnlyActive;
    var page := ListSubscriptions(s, None, Some(100));
    RangeFromZero(s);
    OnlyActiveExact(page, s.subs[id]);
    assert forall i :: 0 <= i < |page| ==> page[i].id == i + 1;
    if id <= 100 { assert page[id - 1] == s.subs[id]; }
  }

  // ------------------------------------------------------------------
  // A run that the watcher loses sight of
  // ------------------------------------------------------------------

  const WATCHED := SubscribeMsg("07-tendermint-0", [[119, 97, 115, 109]], [3], Exists, "receiver", [], None)

  predicate AllActive(s: Store) {
    forall id :: id in s.subs ==> s.subs[id].status == Active
  }

  /** So many transactions with one subscription each. */
  function Subscribers(n: nat): seq<Tx> {
    if n == 0 then [] else Subscribers(n - 1) + [Tx(0, "alice", [DoSubscribe(WATCHED)])]
  }

  lemma {:induction false} SubscribersAreValid(n: nat)
    ensures |Subscribers(n)| == n && ValidRun(Subscribers(n))
    ensures forall i :: 0 <= i < n ==> Subscribers(n)[i] == Tx(0, "alice", [DoSubscribe(WATCHED)])
  {
    if n > 0 { SubscribersAreValid(n - 1); }
  }

  lemma SubscribeOnce(svc: Services, h: History)
    requires h.world.hub.nextId + 1 < U64 && AllActive(h.world.hub)
    ensures var s := Step(svc, h, Tx(0, "alice", [DoSubscribe(WATCHED)])).world.hub;
            s.nextId == h.world.hub.nextId + 1 && AllActive(s)
  {
    hide Exec, Subscribe, ExecAll;
    OneAct(svc, h.world, 0, "alice", DoSubscribe(WATCHED));
    SubscribeRuns(svc, h.world, 0, "alice", WATCHED);
    SubscribeExact(h.world.hub, 0, "alice", WATCHED);
  }

  lemma {:induction false} SubscribersRun(svc: Services, n: nat)
    requires n + 1 < U64
    ensures var s := Run(svc, Subscribers(n)).world.hub;
            s.nextId == n + 1 && AllActive(s)
  {
    if n > 0 {
      hide Step, Run, AllActive;
      SubscribersRun(svc, n - 1);
      RunSnoc(svc, Subscribers(n - 1), Tx(0, "alice", [DoSubscribe(WATCHED)]));
      SubscribeOnce(svc, Run(svc, Subscribers(n - 1)));
    }
  }

  /** After 101 subscriptions, and after any more, the latest is active and the watcher does not see it. */
  lemma WatcherMissesTheLatest(svc: Services, n: nat)
    requires 101 <= n && n + 1 < U64
    ensures var s := Run(svc, Subscribers(n)).world.hub;
            ValidRun(Subscribers(n)) && n in s.subs && s.subs[n].status == Active
            && s.subs[n] !in FetchActiveSubscriptions(s)
  {
    hide Run, FetchActiveSubscriptions, Subscribers;
    SubscribersRun(svc, n);
    SubscribersAreValid(n);
    RunKeepsInv(svc, Subscribers(n));
    WatcherSees(Run(svc, Subscribers(n)).world.hub, n);
  }
}
