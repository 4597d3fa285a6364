/** The IBC query messages the Hub reads an AppHash from, as prost encodes and decodes them. */
module ConsensusState {
  import opened Basics
  import opened Errors
  import opened Wire
  import Utf8

  datatype Any = Any(typeUrl: Bytes, value: Bytes)

  datatype Request = Request(clientId: Bytes, revisionNumber: nat, revisionHeight: nat, latestHeight: bool)

  datatype Response = Response(consensusState: Option<Any>, proof: Bytes, proofHeight: Option<Height>)

  datatype Timestamp = Timestamp(seconds: int, nanos: int)

  datatype TendermintState = TendermintState(
    timestamp: Option<Timestamp>, root: Option<Bytes>, nextValidatorsHash: Bytes)

  // ------------------------------------------------------------------
  // Encoding
  // ------------------------------------------------------------------

  /** int64 and int32 values are written as the 64-bit two's complement. */
  function Unsigned(n: int): nat {
    n % U64
  }

  function AnyFields(a: Any): seq<Field> {
    BlobField(1, a.typeUrl) + (BlobField(2, a.value) + [])
  }

  function HeightFields(h: Height): seq<Field> {
    NumberField(1, h.revisionNumber) + (NumberField(2, h.revisionHeight) + [])
  }

  function RequestFields(r: Request): seq<Field> {
    BlobField(1, r.clientId) + (NumberField(2, r.revisionNumber) + NumberField(3, r.revisionHeight))
    + NumberField(4, if r.latestHeight then 1 else 0)
  }

  function MapOption<T, U>(f: T -> U, o: Option<T>): Option<U> {
    match o
    case None => None
    case Some(x) => Some(f(x))
  }

  function ResponseFields(r: Response): seq<Field> {
    MessageField(1, MapOption(AnyFields, r.consensusState))
    + (BlobField(2, r.proof) + MessageField(3, MapOption(HeightFields, r.proofHeight)))
  }

  function TimestampFields(t: Timestamp): seq<Field> {
    NumberField(1, Unsigned(t.seconds)) + (NumberField(2, Unsigned(t.nanos)) + [])
  }

  function RootFields(hash: Bytes): seq<Field> {
    BlobField(1, hash)
  }

  function StateFields(cs: TendermintState): seq<Field> {
    MessageField(1, MapOption(TimestampFields, cs.timestamp))
    + (MessageField(2, MapOption(RootFields, cs.root)) + BlobField(3, cs.nextValidatorsHash))
  }

  function EncodeConsensusStateRequest(clientId: Bytes, revisionNumber: nat, revisionHeight: nat): Bytes {
    Write(RequestFields(Request(clientId, revisionNumber, revisionHeight, false)))
  }

  // ------------------------------------------------------------------
  // Decoding
  // ------------------------------------------------------------------

  function AsText(ps: seq<Payload>): Option<Bytes> {
    if exists i :: 0 <= i < |ps| && ps[i].Blob? && Utf8.Decode(ps[i].b).None? then None else AsBlob(ps)
  }

  function Signed64(n: nat): int {
    if n % U64 >= 0x8000_0000_0000_0000 then n % U64 - U64 else n % U64
  }

  /** `as i32` keeps the low 32 bits. */
  function Signed32(n: nat): int {
    if n % U32 >= 0x8000_0000 then n % U32 - U32 else n % U32
  }

  function DecodeAny(fs: seq<Field>): Option<Any> {
    match (AsText(Select(fs, 1)), AsBlob(Select(fs, 2)))
    case (Some(typeUrl), Some(value)) => Some(Any(typeUrl, value))
    case _ => None
  }

  function DecodeHeight(fs: seq<Field>): Option<Height> {
    match (AsNumber(Select(fs, 1)), AsNumber(Select(fs, 2)))
    case (Some(n), Some(h)) => Some(Height(n, h))
    case _ => None
  }

  function DecodeTimestamp(fs: seq<Field>): Option<Timestamp> {
    match (AsNumber(Select(fs, 1)), AsNumber(Select(fs, 2)))
    case (Some(s), Some(n)) => Some(Timestamp(Signed64(s), Signed32(n)))
    case _ => None
  }

  function DecodeRoot(fs: seq<Field>): Option<Bytes> {
    AsBlob(Select(fs, 1))
  }

  function DecodeRequest(b: Bytes): Option<Request> {
    match Parse(b, RECURSION_LIMIT)
    case None => None
    case Some(fs) =>
      match (AsText(Select(fs, 1)), AsNumber(Select(fs, 2)), AsNumber(Select(fs, 3)), AsNumber(Select(fs, 4)))
      case (Some(c), Some(n), Some(h), Some(latest)) => Some(Request(c, n, h, latest != 0))
      case _ => None
  }

  function DecodeResponse(b: Bytes): Option<Response> {
    match Parse(b, RECURSION_LIMIT)
    case None => None
    case Some(fs) =>
      match (DecodeOptional(Select(fs, 1), RECURSION_LIMIT - 1, DecodeAny), AsBlob(Select(fs, 2)),
             DecodeOptional(Select(fs, 3), RECURSION_LIMIT - 1, DecodeHeight))
      case (Some(any), Some(proof), Some(height)) => Some(Response(any, proof, height))
      case _ => None
  }

  function DecodeState(b: Bytes): Option<TendermintState> {
    match Parse(b, RECURSION_LIMIT)
    case None => None
    case Some(fs) =>
      match (DecodeOptional(Select(fs, 1), RECURSION_LIMIT - 1, DecodeTimestamp),
             DecodeOptional(Select(fs, 2), RECURSION_LIMIT - 1, DecodeRoot), AsBlob(Select(fs, 3)))
      case (Some(t), Some(root), Some(v)) => Some(TendermintState(t, root, v))
      case _ => None
  }

  function ExtractAppHash(response: Bytes): Result<Bytes, ContractError> {
    match DecodeResponse(response)
    case None => Err(ProtoDecode)
    case Some(r) =>
      if r.consensusState.None? then Err(ProtoDecode) else
        match DecodeState(r.consensusState.value.value)
        case None => Err(ProtoDecode)
        case Some(cs) => if cs.root.None? || cs.root.value == [] then Err(ProtoDecode) else Ok(cs.root.value)
  }

  // ------------------------------------------------------------------
  // Round trips
  // ------------------------------------------------------------------

  lemma AsTextWritten(tag: nat, b: Bytes)
    requires Utf8.Decode(b).Some?
    ensures AsText(Payloads(BlobField(tag, b))) == Some(b)
  {
    AsBlobWritten(tag, b);
  }

  lemma AnyRoundTrip(a: Any)
    requires |Write(AnyFields(a))| < U64 && Utf8.Decode(a.typeUrl).Some?
    ensures (forall f :: f in AnyFields(a) ==> Writable(f)) && DecodeAny(AnyFields(a)) == Some(a)
  {
    hide Write, Utf8.Decode, Select, AsText, AsBlob;
    SizesFit(AnyFields(a));
    SelectThree(BlobField(1, a.typeUrl), BlobField(2, a.value), [], 1);
    SelectThree(BlobField(1, a.typeUrl), BlobField(2, a.value), [], 2);
    AsTextWritten(1, a.typeUrl);
    AsBlobWritten(2, a.value);
  }

  predicate HeightFits(h: Height) {
    h.revisionNumber < U64 && h.revisionHeight < U64
  }

  lemma HeightRoundTrip(h: Height)
    requires HeightFits(h)
    ensures (forall f :: f in HeightFields(h) ==> Writable(f)) && DecodeHeight(HeightFields(h)) == Some(h)
  {
    hide Select, AsNumber;
    SelectThree(NumberField(1, h.revisionNumber), NumberField(2, h.revisionHeight), [], 1);
    SelectThree(NumberField(1, h.revisionNumber), NumberField(2, h.revisionHeight), [], 2);
    AsNumberWritten(1, h.revisionNumber);
    AsNumberWritten(2, h.revisionHeight);
  }

  predicate TimestampFits(t: Timestamp) {
    -0x8000_0000_0000_0000 <= t.seconds < 0x8000_0000_0000_0000 && -0x8000_0000 <= t.nanos < 0x8000_0000
  }

  lemma SignsSurvive(t: Timestamp)
    requires TimestampFits(t)
    ensures Signed64(Unsigned(t.seconds)) == t.seconds && Signed32(Unsigned(t.nanos)) == t.nanos
  {
  }

  /** Negative seconds and nanoseconds survive their ten-byte varints. */
  lemma TimestampRoundTrip(t: Timestamp)
    requires TimestampFits(t)
    ensures (forall f :: f in TimestampFields(t) ==> Writable(f)) && DecodeTimestamp(TimestampFields(t)) == Some(t)
  {
    hide Select, AsNumber, Signed64, Signed32;
    var s, n := Unsigned(t.seconds), Unsigned(t.nanos);
    SelectThree(NumberField(1, s), NumberField(2, n), [], 1);
    SelectThree(NumberField(1, s), NumberField(2, n), [], 2);
    AsNumberWritten(1, s);
    AsNumberWritten(2, n);
    SignsSurvive(t);
  }

  lemma RootRoundTrip(hash: Bytes)
    requires |Write(RootFields(hash))| < U64
    ensures (forall f :: f in RootFields(hash) ==> Writable(f)) && DecodeRoot(RootFields(hash)) == Some(hash)
  {
    hide Write, AsBlob;
    SizesFit(RootFields(hash));
    SelectPart(RootFields(hash), 1, 1);
    AsBlobWritten(1, hash);
  }

  /** The query request decodes to what was encoded, omitted defaults included. */
  lemma RequestRoundTrip(clientId: Bytes, revisionNumber: nat, revisionHeight: nat)
    requires |EncodeConsensusStateRequest(clientId, revisionNumber, revisionHeight)| < U64
    requires Utf8.Decode(clientId).Some? && revisionNumber < U64 && revisionHeight < U64
    ensures DecodeRequest(EncodeConsensusStateRequest(clientId, revisionNumber, revisionHeight))
            == Some(Request(clientId, revisionNumber, revisionHeight, false))
  {
    hide Select, Payloads, Write, Utf8.Decode, AsText, AsNumber, Parse;
    var a, b, c := BlobField(1, clientId), NumberField(2, revisionNumber), NumberField(3, revisionHeight);
    var fs := RequestFields(Request(clientId, revisionNumber, revisionHeight, false));
    assert fs == a + (b + c);
    SelectThree(a, b, c, 1);
    SelectThree(a, b, c, 2);
    SelectThree(a, b, c, 3);
    SelectThree(a, b, c, 4);
    AsTextWritten(1, clientId);
    AsNumberWritten(2, revisionNumber);
    AsNumberWritten(3, revisionHeight);
    NoNumber();
    SizesFit(fs);
    ParseWrite(fs, RECURSION_LIMIT);
  }

  lemma NoNumber()
    ensures AsNumber([]) == Some(0)
  {
  }

  /** A response whose bytes and numbers are of 64 bits, with a type URL that is text. */
  predicate ResponseFits(r: Response) {
    && |Write(ResponseFields(r))| < U64
    && (r.consensusState.Some? ==> Utf8.Decode(r.consensusState.value.typeUrl).Some?)
    && (r.proofHeight.Some? ==> HeightFits(r.proofHeight.value))
  }

  lemma NestedFits(fs: seq<Field>, tag: nat, inner: seq<Field>)
    requires |Write(fs)| < U64 && Field(tag, Blob(Write(inner))) in fs
    ensures |Write(inner)| < U64
  {
    BlobsFitInside(fs, Field(tag, Blob(Write(inner))));
  }

  lemma ResponseRoundTrip(r: Response)
    requires ResponseFits(r)
    ensures DecodeResponse(Write(ResponseFields(r))) == Some(r)
  {
    hide DecodeOptional, Write, AnyFields, HeightFields, DecodeAny, DecodeHeight, Utf8.Decode, AsBlob, Payloads;
    hide Select, Parse;
    var any, height := MapOption(AnyFields, r.consensusState), MapOption(HeightFields, r.proofHeight);
    var a, b, c := MessageField(1, any), BlobField(2, r.proof), MessageField(3, height);
    var fs := ResponseFields(r);
    SelectThree(a, b, c, 1);
    SelectThree(a, b, c, 2);
    SelectThree(a, b, c, 3);
    if r.consensusState.Some? {
      NestedFits(fs, 1, any.value);
      AnyRoundTrip(r.consensusState.value);
    }
    if r.proofHeight.Some? { HeightRoundTrip(r.proofHeight.value); }
    DecodeOptionalWritten(1, any, RECURSION_LIMIT - 1, DecodeAny);
    DecodeOptionalWritten(3, height, RECURSION_LIMIT - 1, DecodeHeight);
    AsBlobWritten(2, r.proof);
    SizesFit(fs);
    ParseWrite(fs, RECURSION_LIMIT);
  }

  predicate StateFits(cs: TendermintState) {
    |Write(StateFields(cs))| < U64 && (cs.timestamp.Some? ==> TimestampFits(cs.timestamp.value))
  }

  lemma StateRoundTrip(cs: TendermintState)
    requires StateFits(cs)
    ensures DecodeState(Write(StateFields(cs))) == Some(cs)
  {
    hide DecodeOptional, Write, TimestampFields, RootFields, DecodeTimestamp, DecodeRoot, AsBlob, Payloads;
    hide Select, Parse;
    var time, root := MapOption(TimestampFields, cs.timestamp), MapOption(RootFields, cs.root);
    var a, b, c := MessageField(1, time), MessageField(2, root), BlobField(3, cs.nextValidatorsHash);
    var fs := StateFields(cs);
    SelectThree(a, b, c, 1);
    SelectThree(a, b, c, 2);
    SelectThree(a, b, c, 3);
    if cs.timestamp.Some? { TimestampRoundTrip(cs.timestamp.value); }
    if cs.root.Some? {
      NestedFits(fs, 2, root.value);
      RootRoundTrip(cs.root.value);
    }
    DecodeOptionalWritten(1, time, RECURSION_LIMIT - 1, DecodeTimestamp);
    DecodeOptionalWritten(2, root, RECURSION_LIMIT - 1, DecodeRoot);
    AsBlobWritten(3, cs.nextValidatorsHash);
    SizesFit(fs);
    ParseWrite(fs, RECURSION_LIMIT);
  }

  /** The Hub extracts the embedded root whenever it is present and not empty, and refuses the response otherwise. */
  lemma ExtractInverts(r: Response, cs: TendermintState)
    requires ResponseFits(r) && StateFits(cs)
    requires r.consensusState.Some? ==> r.consensusState.value.value == Write(StateFields(cs))
    ensures ExtractAppHash(Write(ResponseFields(r)))
            == if r.consensusState.Some? && cs.root.Some? && cs.root.value != [] then Ok(cs.root.value)
               else Err(ProtoDecode)
  {
    hide DecodeResponse, DecodeState, ResponseFields, StateFields, ResponseFits, Write;
    ResponseRoundTrip(r);
    StateRoundTrip(cs);
  }
}
