/** The Hub contract: its store, its handlers, and what each handler writes. */
module Hub {
  import opened Basics
  import opened Errors
  import Conditions
  import JsonPath

  type Addr = string

  datatype Condition =
    | Exists
    | Equals(expected: Bytes)
    | GreaterThan(threshold: Bytes, encoding: Conditions.ValueEncoding)
    | LessThan(threshold: Bytes, encoding: Conditions.ValueEncoding)
    | JsonPathEquals(path: string, expectedText: string)

  datatype Status = Active | Triggered | Expired | Failed(error: string)

  datatype Subscription = Subscription(
    id: nat, creator: Addr, clientId: string, keyPath: seq<Bytes>, watchKey: Bytes, condition: Condition,
    callbackContract: Addr, callbackMsg: Bytes, status: Status, createdAt: nat, expiresAt: Option<nat>)

  datatype SubscribeMsg = SubscribeMsg(
    clientId: string, keyPath: seq<Bytes>, watchKey: Bytes, condition: Condition,
    callbackContract: Addr, callbackMsg: Bytes, expiresAfterBlocks: Option<nat>)

  datatype SubmitMsg = SubmitMsg(id: nat, height: Height, appHash: Bytes, proof: Bytes, key: Bytes, value: Bytes)

  /** The sub-message a successful submission dispatches, with a reply only on error. */
  datatype Callback = Callback(contract: Addr, id: nat, provenValue: Bytes, height: Height, callbackMsg: Bytes)

  /** NEXT_ID and SUBSCRIPTIONS. */
  datatype Store = Store(nextId: nat, subs: map<nat, Subscription>)

  const EMPTY_STORE := Store(1, map[])

  /** What the handlers call but this module does not define: the proof check and the JSON library. */
  datatype Services = Services(
    verify: (Bytes, Bytes, seq<Bytes>, Bytes, Bytes) -> Outcome<ContractError>,
    parseJson: Bytes -> Option<JsonPath.Json>,
    renderJson: JsonPath.Json -> string)

  /** A handler's writes and its answer; the host keeps the writes only of an `Ok`. */
  datatype Handled<+T> = Handled(store: Store, result: Result<T, ContractError>)

  // ------------------------------------------------------------------
  // Handlers as functions
  // ------------------------------------------------------------------

  function Subscribe(s: Store, height: nat, sender: Addr, m: SubscribeMsg): Handled<nat> {
    if m.keyPath == [] then Handled(s, Err(EmptyKeyPath))
    else if m.watchKey == [] then Handled(s, Err(EmptyWatchKey))
    else if m.callbackContract == "" then Handled(s, Err(EmptyCallbackContract))
    else if s.nextId + 1 >= U64 then Handled(s, Err(Overflow))
    else
      var id, s1 := s.nextId, s.(nextId := s.nextId + 1);
      if m.expiresAfterBlocks.Some? && height + m.expiresAfterBlocks.value >= U64 then Handled(s1, Err(Overflow))
      else
        var expiresAt := if m.expiresAfterBlocks.Some? then Some(height + m.expiresAfterBlocks.value) else None;
        var sub := Subscription(id, sender, m.clientId, m.keyPath, m.watchKey, m.condition, m.callbackContract,
                                m.callbackMsg, Active, height, expiresAt);
        Handled(s1.(subs := s1.subs[id := sub]), Ok(id))
  }

  function CheckThreshold(value: Bytes, threshold: Bytes, encoding: Conditions.ValueEncoding, wanted: Ordering)
    : Outcome<ContractError>
  {
    match Conditions.CompareValues(value, threshold, encoding)
    case Err(e) => Fail(e)
    case Ok(order) => if order == wanted then Pass else Fail(ThresholdNotMet)
  }

  function CheckCondition(svc: Services, c: Condition, value: Bytes): Outcome<ContractError> {
    match c
    case Exists => Pass
    case Equals(expected) => if value == expected then Pass else Fail(ValueMismatch)
    case GreaterThan(threshold, encoding) => CheckThreshold(value, threshold, encoding, Greater)
    case LessThan(threshold, encoding) => CheckThreshold(value, threshold, encoding, Less)
    case JsonPathEquals(path, expected) =>
      match svc.parseJson(value)
      case None => Fail(ValueDecodeError)
      case Some(document) =>
        match JsonPath.Lookup(document, JsonPath.Split(path))
        case None => Fail(ValueDecodeError)
        case Some(j) => if JsonPath.OnChainText(svc.renderJson, j) == expected then Pass else Fail(ValueMismatch)
  }

  function WithStatus(s: Store, id: nat, status: Status): Store
    requires id in s.subs
  {
    s.(subs := s.subs[id := s.subs[id].(status := status)])
  }

  function Submit(svc: Services, s: Store, height: nat, m: SubmitMsg): Handled<Callback> {
    if m.id !in s.subs then Handled(s, Err(SubscriptionNotFound(m.id)))
    else
      var sub := s.subs[m.id];
      if sub.status != Active then Handled(s, Err(SubscriptionNotActive(m.id)))
      else if sub.expiresAt.Some? && height > sub.expiresAt.value then
        Handled(WithStatus(s, m.id, Expired), Err(SubscriptionExpired(m.id)))
      else if m.key != sub.watchKey then Handled(s, Err(KeyMismatch))
      else
        match svc.verify(m.appHash, m.proof, sub.keyPath, m.key, m.value)
        case Fail(e) => Handled(s, Err(e))
        case Pass =>
          match CheckCondition(svc, sub.condition, m.value)
          case Fail(e) => Handled(s, Err(e))
          case Pass =>
            Handled(WithStatus(s, m.id, Triggered),
                    Ok(Callback(sub.callbackContract, m.id, m.value, m.height, sub.callbackMsg)))
  }

  /** `reply` for a failed callback. */
  function Reply(s: Store, id: nat, error: string): Handled<nat> {
    if id !in s.subs then Handled(s, Err(SubscriptionNotFound(id)))
    else Handled(WithStatus(s, id, Failed(error)), Ok(id))
  }

  // ------------------------------------------------------------------
  // When a subscription is taken
  // ------------------------------------------------------------------

  /** It says what to watch and whom to call, and neither the next id nor the expiry overflows. */
  predicate Takes(s: Store, height: nat, m: SubscribeMsg) {
    && m.keyPath != [] && m.watchKey != [] && m.callbackContract != ""
    && s.nextId + 1 < U64
    && (m.expiresAfterBlocks.None? || height + m.expiresAfterBlocks.value < U64)
  }

  /**
   * A taken subscription gets the next id and is stored active with the message's terms; a refusal stores no
   * subscription, although one for an overflowing expiry has already used up the id.
   */
  lemma SubscribeExact(s: Store, height: nat, sender: Addr, m: SubscribeMsg)
    ensures var h := Subscribe(s, height, sender, m);
            && (h.result.Ok? <==> Takes(s, height, m))
            && (h.result.Ok? ==>
                  && h.result.value == s.nextId && h.store.nextId == s.nextId + 1
                  && s.nextId in h.store.subs
                  && h.store.subs == s.subs[s.nextId := h.store.subs[s.nextId]]
                  && var sub := h.store.subs[s.nextId];
                     && sub.id == s.nextId && sub.creator == sender && sub.status == Active && sub.createdAt == height
                     && sub.clientId == m.clientId && sub.keyPath == m.keyPath && sub.watchKey == m.watchKey
                     && sub.condition == m.condition
                     && sub.callbackContract == m.callbackContract && sub.callbackMsg == m.callbackMsg
                     && (sub.expiresAt.Some? <==> m.expiresAfterBlocks.Some?)
                     && (sub.expiresAt.Some? ==> sub.expiresAt.value == height + m.expiresAfterBlocks.value))
            && (h.result.Err? ==> h.store.subs == s.subs && s.nextId <= h.store.nextId <= s.nextId + 1)
  {
  }

  // ------------------------------------------------------------------
  // When a submission is accepted
  // ------------------------------------------------------------------

  /** Everything a subscription's terms ask of a submission at a block height; its status plays no part. */
  predicate Accepts(svc: Services, sub: Subscription, height: nat, m: SubmitMsg) {
    && m.key == sub.watchKey
    && (sub.expiresAt.None? || height <= sub.expiresAt.value)
    && svc.verify(m.appHash, m.proof, sub.keyPath, m.key, m.value) == Pass
    && CheckCondition(svc, sub.condition, m.value) == Pass
  }

  predicate IsOverdue(s: Store, id: nat, height: nat) {
    && id in s.subs && s.subs[id].status == Active
    && s.subs[id].expiresAt.Some? && height > s.subs[id].expiresAt.value
  }

  /**
   * A submission succeeds exactly on an active subscription whose terms accept it, and then writes only the status
   * `Triggered`; a refusal writes nothing, except `Expired` on an overdue subscription.
   */
  lemma SubmitExact(svc: Services, s: Store, height: nat, m: SubmitMsg)
    ensures var h := Submit(svc, s, height, m);
            && (h.result.Ok? <==>
                  m.id in s.subs && s.subs[m.id].status == Active && Accepts(svc, s.subs[m.id], height, m))
            && (h.result.Ok? ==>
                  var sub := s.subs[m.id];
                  && h.store == WithStatus(s, m.id, Triggered)
                  && h.result.value == Callback(sub.callbackContract, m.id, m.value, m.height, sub.callbackMsg))
            && (h.result.Err? ==> h.store == if IsOverdue(s, m.id, height) then WithStatus(s, m.id, Expired) else s)
  {
  }

  // ------------------------------------------------------------------
  // The contract itself
  // ------------------------------------------------------------------

  class Contract {
    var nextId: nat
    var subs: map<nat, Subscription>

    function View(): Store
      reads this
    {
      Store(nextId, subs)
    }

    constructor Instantiate()
      ensures View() == EMPTY_STORE
    {
      nextId := 1;
      subs := map[];
    }

    method ExecuteSubscribe(height: nat, sender: Addr, m: SubscribeMsg) returns (r: Result<nat, ContractError>)
      modifies this
      ensures Handled(View(), r) == Subscribe(old(View()), height, sender, m)
    {
      if m.keyPath == [] { return Err(EmptyKeyPath); }
      if m.watchKey == [] { return Err(EmptyWatchKey); }
      if m.callbackContract == "" { return Err(EmptyCallbackContract); }
      var id := nextId;
      if id + 1 >= U64 { return Err(Overflow); }
      nextId := id + 1;
      var expiresAt := None;
      if m.expiresAfterBlocks.Some? {
        var end := height + m.expiresAfterBlocks.value;
        if end >= U64 { return Err(Overflow); }
        expiresAt := Some(end);
      }
      var subscription := Subscription(id, sender, m.clientId, m.keyPath, m.watchKey, m.condition, m.callbackContract,
                                       m.callbackMsg, Active, height, expiresAt);
      subs := subs[id := subscription];
      r := Ok(id);
    }

    method ExecuteSubmitProof(svc: Services, height: nat, m: SubmitMsg) returns (r: Result<Callback, ContractError>)
      modifies this`subs
      ensures Handled(View(), r) == Submit(svc, old(View()), height, m)
    {
      if m.id !in subs { return Err(SubscriptionNotFound(m.id)); }
      var sub := subs[m.id];
      if sub.status != Active { return Err(SubscriptionNotActive(m.id)); }
      if sub.expiresAt.Some? && height > sub.expiresAt.value {
        sub := sub.(status := Expired);
        subs := subs[m.id := sub];
        return Err(SubscriptionExpired(m.id));
      }
      if m.key != sub.watchKey { return Err(KeyMismatch); }
      var verified := svc.verify(m.appHash, m.proof, sub.keyPath, m.key, m.value);
      if verified.Fail? { return Err(verified.error); }
      var met := EvaluateCondition(svc, sub.condition, m.value);
      if met.Fail? { return Err(met.error); }
      sub := sub.(status := Triggered);
      subs := subs[m.id := sub];
      r := Ok(Callback(sub.callbackContract, m.id, m.value, m.height, sub.callbackMsg));
    }

    method EvaluateCondition(svc: Services, c: Condition, value: Bytes) returns (met: Outcome<ContractError>)
      ensures met == CheckCondition(svc, c, value)
    {
      match c
      case JsonPathEquals(path, expected) =>
        var parsed := svc.parseJson(value);
        if parsed.None? { return Fail(ValueDecodeError); }
        var found := JsonPath.Walk(parsed.value, JsonPath.Split(path));
        if found.None? { return Fail(ValueDecodeError); }
        met := if JsonPath.OnChainText(svc.renderJson, found.value) == expected then Pass else Fail(ValueMismatch);
      case Exists => met := Pass;
      case Equals(expected) => met := if value == expected then Pass else Fail(ValueMismatch);
      case GreaterThan(threshold, encoding) =>
        var order := Conditions.CompareValues(value, threshold, encoding);
        met := if order.Err? then Fail(order.error) else if order.value != Greater then Fail(ThresholdNotMet) else Pass;
      case LessThan(threshold, encoding) =>
        var order := Conditions.CompareValues(value, threshold, encoding);
        met := if order.Err? then Fail(order.error) else if order.value != Less then Fail(ThresholdNotMet) else Pass;
    }

    method ReplyOnError(id: nat, error: string) returns (r: Result<nat, ContractError>)
      modifies this`subs
      ensures Handled(View(), r) == Reply(old(View()), id, error)
    {
      if id !in subs { return Err(SubscriptionNotFound(id)); }
      subs := subs[id := subs[id].(status := Failed(error))];
      r := Ok(id);
    }
  }
}
