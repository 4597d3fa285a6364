/** The protobuf form of ICS-23 commitment proofs that the Hub decodes and the remote chain serves. */
module ProofCodec {
  import opened Basics
  import opened Ics23
  import opened Wire

  // ------------------------------------------------------------------
  // Encoding
  // ------------------------------------------------------------------

  function HashNumber(op: HashOp): nat {
    match op case NoHash => 0 case Sha256 => 1 case OtherHash => 2
  }

  function LengthNumber(op: LengthOp): nat {
    match op case NoPrefix => 0 case VarProto => 1 case OtherLength => 2
  }

  function LeafFields(leaf: LeafOp): seq<Field> {
    NumberField(1, HashNumber(leaf.hash))
    + (NumberField(2, HashNumber(leaf.prehashKey)) + NumberField(3, HashNumber(leaf.prehashValue)))
    + (NumberField(4, LengthNumber(leaf.length)) + BlobField(5, leaf.prefix))
  }

  function InnerFields(op: InnerOp): seq<Field> {
    NumberField(1, HashNumber(op.hash)) + (BlobField(2, op.prefix) + BlobField(3, op.suffix))
  }

  function PathFields(path: seq<InnerOp>): seq<Field> {
    if path == [] then [] else [Field(4, Blob(Write(InnerFields(path[0]))))] + PathFields(path[1..])
  }

  function LeafField(leaf: Option<LeafOp>): Option<seq<Field>> {
    match leaf case None => None case Some(leaf) => Some(LeafFields(leaf))
  }

  function ExistenceFields(ep: ExistenceProof): seq<Field> {
    BlobField(1, ep.key) + (BlobField(2, ep.value) + MessageField(3, LeafField(ep.leaf))) + PathFields(ep.path)
  }

  /** A commitment proof whose alternative is an existence proof. */
  function Encode(ep: ExistenceProof): Bytes {
    Write([Field(1, Blob(Write(ExistenceFields(ep))))])
  }

  // ------------------------------------------------------------------
  // Decoding
  // ------------------------------------------------------------------

  /** Enumerations are read as 32-bit integers; other values name operations outside both specs. */
  function HashOf(n: nat): HashOp {
    if n % U32 == 0 then NoHash else if n % U32 == 1 then Sha256 else OtherHash
  }

  function LengthOf(n: nat): LengthOp {
    if n % U32 == 0 then NoPrefix else if n % U32 == 1 then VarProto else OtherLength
  }

  function DecodeLeaf(fs: seq<Field>): Option<LeafOp> {
    match (AsNumber(Select(fs, 1)), AsNumber(Select(fs, 2)), AsNumber(Select(fs, 3)), AsNumber(Select(fs, 4)),
           AsBlob(Select(fs, 5)))
    case (Some(h), Some(k), Some(v), Some(l), Some(prefix)) =>
      Some(LeafOp(HashOf(h), HashOf(k), HashOf(v), LengthOf(l), prefix))
    case _ => None
  }

  function DecodeInner(fs: seq<Field>): Option<InnerOp> {
    match (AsNumber(Select(fs, 1)), AsBlob(Select(fs, 2)), AsBlob(Select(fs, 3)))
    case (Some(h), Some(prefix), Some(suffix)) => Some(InnerOp(HashOf(h), prefix, suffix))
    case _ => None
  }

  function DecodePath(ps: seq<Payload>, depth: nat): Option<seq<InnerOp>> {
    if ps == [] then Some([])
    else if !ps[0].Blob? then None
    else
      match Parse(ps[0].b, depth)
      case None => None
      case Some(fs) =>
        match (DecodeInner(fs), DecodePath(ps[1..], depth))
        case (Some(op), Some(rest)) => Some([op] + rest)
        case _ => None
  }

  function DecodeExistence(fs: seq<Field>, depth: nat): Option<ExistenceProof> {
    match (AsBlob(Select(fs, 1)), AsBlob(Select(fs, 2)), DecodeOptional(Select(fs, 3), depth, DecodeLeaf),
           DecodePath(Select(fs, 4), depth))
    case (Some(key), Some(value), Some(leaf), Some(path)) => Some(ExistenceProof(key, value, leaf, path))
    case _ => None
  }

  datatype Alternative = Nothing | Chosen(tag: nat, fields: seq<Field>)

  /** A oneof over the tags up to `last`: the same alternative again merges, another one replaces. */
  function ReadOneof(fs: seq<Field>, last: nat, depth: nat): Option<Alternative> {
    if fs == [] then Some(Nothing)
    else
      var f := fs[|fs| - 1];
      match ReadOneof(fs[..|fs| - 1], last, depth)
      case None => None
      case Some(sofar) =>
        if !(1 <= f.tag <= last) then Some(sofar)
        else if !f.payload.Blob? then None
        else
          match Parse(f.payload.b, depth)
          case None => None
          case Some(inner) =>
            Some(Chosen(f.tag, if sofar.Chosen? && sofar.tag == f.tag then sofar.fields + inner else inner))
  }

  function DecodeEntries(ps: seq<Payload>, depth: nat): Option<seq<Option<ExistenceProof>>>
    requires depth >= 2
  {
    if ps == [] then Some([])
    else if !ps[0].Blob? then None
    else
      match Parse(ps[0].b, depth)
      case None => None
      case Some(fs) =>
        match (ReadOneof(fs, 2, depth - 1), DecodeEntries(ps[1..], depth))
        case (Some(Chosen(1, inner)), Some(rest)) =>
          (match DecodeExistence(inner, depth - 2)
           case None => None
           case Some(ep) => Some([Some(ep)] + rest))
        case (Some(_), Some(rest)) => Some([None] + rest)
        case _ => None
  }

  function Decode(b: Bytes): Option<CommitmentProof> {
    match Parse(b, RECURSION_LIMIT)
    case None => None
    case Some(fs) =>
      match ReadOneof(fs, 4, RECURSION_LIMIT - 1)
      case None => None
      case Some(Chosen(1, inner)) =>
        (match DecodeExistence(inner, RECURSION_LIMIT - 2)
         case None => None
         case Some(ep) => Some(Exist(ep)))
      case Some(Chosen(3, inner)) =>
        (match DecodeEntries(Select(inner, 1), RECURSION_LIMIT - 2)
         case None => None
         case Some(entries) => Some(Batch(entries)))
      case Some(_) => Some(NoExistence)
  }

  // ------------------------------------------------------------------
  // Round trip
  // ------------------------------------------------------------------

  lemma SelectLeaf(leaf: LeafOp, tag: nat)
    requires 1 <= tag <= 5
    ensures Select(LeafFields(leaf), tag)
            == Payloads(if tag == 1 then NumberField(1, HashNumber(leaf.hash))
                        else if tag == 2 then NumberField(2, HashNumber(leaf.prehashKey))
                        else if tag == 3 then NumberField(3, HashNumber(leaf.prehashValue))
                        else if tag == 4 then NumberField(4, LengthNumber(leaf.length)) else BlobField(5, leaf.prefix))
  {
    hide Select, Payloads;
    var a, b := NumberField(1, HashNumber(leaf.hash)), NumberField(2, HashNumber(leaf.prehashKey));
    var c := NumberField(3, HashNumber(leaf.prehashValue));
    var d, e := NumberField(4, LengthNumber(leaf.length)), BlobField(5, leaf.prefix);
    SelectAppend(a + (b + c), d + e, tag);
    SelectAppend(d, e, tag);
    SelectThree(a, b, c, tag);
    SelectPart(d, 4, tag);
    SelectPart(e, 5, tag);
  }

  lemma LeafRoundTrip(leaf: LeafOp)
    ensures DecodeLeaf(LeafFields(leaf)) == Some(leaf)
  {
    hide Select, AsNumber, AsBlob, Payloads, LeafFields;
    SelectLeaf(leaf, 1);
    SelectLeaf(leaf, 2);
    SelectLeaf(leaf, 3);
    SelectLeaf(leaf, 4);
    SelectLeaf(leaf, 5);
    AsNumberWritten(1, HashNumber(leaf.hash));
    AsNumberWritten(2, HashNumber(leaf.prehashKey));
    AsNumberWritten(3, HashNumber(leaf.prehashValue));
    AsNumberWritten(4, LengthNumber(leaf.length));
    AsBlobWritten(5, leaf.prefix);
  }

  lemma InnerRoundTrip(op: InnerOp)
    ensures DecodeInner(InnerFields(op)) == Some(op)
  {
    hide Select, AsNumber, AsBlob, Payloads;
    var a, b, c := NumberField(1, HashNumber(op.hash)), BlobField(2, op.prefix), BlobField(3, op.suffix);
    SelectThree(a, b, c, 1);
    SelectThree(a, b, c, 2);
    SelectThree(a, b, c, 3);
    AsNumberWritten(1, HashNumber(op.hash));
    AsBlobWritten(2, op.prefix);
    AsBlobWritten(3, op.suffix);
  }

  lemma {:induction false} SelectPath(path: seq<InnerOp>, tag: nat)
    ensures tag != 4 ==> Select(PathFields(path), tag) == []
    ensures forall f :: f in PathFields(path) ==> Plain(f)
  {
    if path != [] { SelectPath(path[1..], tag); }
  }

  lemma InnerWritable(op: InnerOp)
    requires |Write(InnerFields(op))| < U64
    ensures forall f :: f in InnerFields(op) ==> Writable(f)
  {
    hide Write;
    SizesFit(InnerFields(op));
  }

  lemma NoPath(depth: nat)
    ensures DecodePath(Select(PathFields([]), 4), depth) == Some([])
  {
  }

  lemma DecodeStep(op: InnerOp, ps: seq<Payload>, depth: nat)
    requires |Write(InnerFields(op))| < U64
    ensures var whole := [Blob(Write(InnerFields(op)))] + ps;
            DecodePath(whole, depth)
            == match DecodePath(ps, depth) case None => None case Some(rest) => Some([op] + rest)
  {
    hide Write, Parse, InnerFields, DecodeInner;
    InnerWritable(op);
    ParseWrite(InnerFields(op), depth);
    InnerRoundTrip(op);
    assert ([Blob(Write(InnerFields(op)))] + ps)[1..] == ps;
  }

  lemma {:induction false} PathRoundTrip(path: seq<InnerOp>, depth: nat)
    requires |Write(PathFields(path))| < U64
    ensures DecodePath(Select(PathFields(path), 4), depth) == Some(path)
  {
    if path == [] {
      NoPath(depth);
    } else {
      hide Write, WriteField, InnerFields, DecodePath, Select;
      var op, rest := path[0], path[1..];
      var f := Field(4, Blob(Write(InnerFields(op))));
      assert PathFields(path) == [f] + PathFields(rest);
      SelectCons(f, PathFields(rest), 4);
      BlobsFitInside(PathFields(path), f);
      WriteCons(f, PathFields(rest));
      PathRoundTrip(rest, depth);
      DecodeStep(op, Select(PathFields(rest), 4), depth);
      assert [op] + rest == path;
    }
  }

  lemma WriteCons(f: Field, fs: seq<Field>)
    ensures Write([f] + fs) == WriteField(f) + Write(fs)
  {
    assert ([f] + fs)[1..] == fs;
  }

  lemma {:induction false} WriteAppend(a: seq<Field>, b: seq<Field>)
    ensures Write(a + b) == Write(a) + Write(b)
  {
    if a == [] {
      assert a + b == b;
    } else {
      assert (a + b)[1..] == a[1..] + b;
      WriteAppend(a[1..], b);
    }
  }

  lemma SelectExistence(ep: ExistenceProof, tag: nat)
    requires 1 <= tag <= 4
    ensures Select(ExistenceFields(ep), tag)
            == if tag == 1 then Payloads(BlobField(1, ep.key)) else if tag == 2 then Payloads(BlobField(2, ep.value))
               else if tag == 3 then Payloads(MessageField(3, LeafField(ep.leaf))) else Select(PathFields(ep.path), 4)
  {
    hide Select, Payloads, PathFields, LeafField, Write;
    var a, b, c := BlobField(1, ep.key), BlobField(2, ep.value), MessageField(3, LeafField(ep.leaf));
    SelectAppend(a + (b + c), PathFields(ep.path), tag);
    SelectThree(a, b, c, tag);
    SelectPath(ep.path, tag);
  }

  lemma ExistenceWritable(ep: ExistenceProof)
    requires |Write(ExistenceFields(ep))| < U64
    ensures forall f :: f in ExistenceFields(ep) ==> Writable(f)
    ensures ep.leaf.Some? ==> forall f :: f in LeafFields(ep.leaf.value) ==> Writable(f)
    ensures |Write(PathFields(ep.path))| < U64
  {
    hide Write, PathFields, LeafFields;
    var abc := BlobField(1, ep.key) + (BlobField(2, ep.value) + MessageField(3, LeafField(ep.leaf)));
    SelectPath(ep.path, 1);
    SizesFit(ExistenceFields(ep));
    WriteAppend(abc, PathFields(ep.path));
    if ep.leaf.Some? {
      BlobsFitInside(ExistenceFields(ep), Field(3, Blob(Write(LeafFields(ep.leaf.value)))));
      LeafWritable(ep.leaf.value);
    }
  }

  lemma LeafWritable(leaf: LeafOp)
    requires |Write(LeafFields(leaf))| < U64
    ensures forall f :: f in LeafFields(leaf) ==> Writable(f)
  {
    hide Write;
    SizesFit(LeafFields(leaf));
  }

  lemma ExistenceRoundTrip(ep: ExistenceProof, depth: nat)
    requires |Write(ExistenceFields(ep))| < U64
    ensures DecodeExistence(ExistenceFields(ep), depth) == Some(ep)
  {
    hide Select, Payloads, PathFields, LeafFields, Write, AsBlob, DecodeOptional, DecodeLeaf, DecodePath;
    hide ExistenceFields;
    ExistenceWritable(ep);
    SelectExistence(ep, 1);
    SelectExistence(ep, 2);
    SelectExistence(ep, 3);
    SelectExistence(ep, 4);
    AsBlobWritten(1, ep.key);
    AsBlobWritten(2, ep.value);
    DecodeOptionalWritten(3, LeafField(ep.leaf), depth, DecodeLeaf);
    if ep.leaf.Some? { LeafRoundTrip(ep.leaf.value); }
    PathRoundTrip(ep.path, depth);
  }

  /** Every existence proof of fewer than 2^64 bytes decodes to itself. */
  lemma RoundTrip(ep: ExistenceProof)
    requires |Encode(ep)| < U64
    ensures Decode(Encode(ep)) == Some(Exist(ep))
  {
    hide Write, Parse, ExistenceFields, DecodeExistence;
    var f := Field(1, Blob(Write(ExistenceFields(ep))));
    BlobsFitInside([f], f);
    ExistenceWritable(ep);
    ParseWrite([f], RECURSION_LIMIT);
    ParseWrite(ExistenceFields(ep), RECURSION_LIMIT - 1);
    assert [f][..0] == [] && ReadOneof([], 4, RECURSION_LIMIT - 1) == Some(Nothing);
    ExistenceRoundTrip(ep, RECURSION_LIMIT - 2);
  }
}
