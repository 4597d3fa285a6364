/** The protobuf wire format as the prost crate reads it: keyed fields, unknown ones skipped. */
module Wire {
  import opened Basics
  import Varint

  const RECURSION_LIMIT: nat := 100

  datatype Payload = Number(n: nat) | Blob(b: Bytes) | Skipped

  datatype Field = Field(tag: nat, payload: Payload)

  function ParseKey(b: Bytes): (r: Option<(nat, nat, Bytes)>)
    ensures r.Some? ==> |r.value.2| < |b|
  {
    match Varint.Decode(b)
    case None => None
    case Some((key, rest)) =>
      if key >= U32 || key % 8 > 5 || key / 8 == 0 then None else Some((key / 8, key % 8, rest))
  }

  /** Reads one value of wire type `wire`; only varints and blobs can be known fields here. */
  function ParsePayload(tag: nat, wire: nat, b: Bytes, depth: nat): (r: Option<(Payload, Bytes)>)
    ensures r.Some? ==> |r.value.1| <= |b|
    decreases |b|, 1
  {
    match wire
    case 0 => (match Varint.Decode(b) case None => None case Some((n, rest)) => Some((Number(n), rest)))
    case 1 => if |b| < 8 then None else Some((Skipped, b[8..]))
    case 2 => (match Varint.Decode(b)
               case None => None
               case Some((n, rest)) => if n > |rest| then None else Some((Blob(rest[..n]), rest[n..])))
    case 3 => if depth == 0 then None else
                (match SkipGroup(tag, b, depth - 1) case None => None case Some(rest) => Some((Skipped, rest)))
    case 5 => if |b| < 4 then None else Some((Skipped, b[4..]))
    case _ => None
  }

  function SkipGroup(tag: nat, b: Bytes, depth: nat): (r: Option<Bytes>)
    ensures r.Some? ==> |r.value| <= |b|
    decreases |b|, 0
  {
    match ParseKey(b)
    case None => None
    case Some((t, wire, rest)) =>
      if wire == 4 then (if t == tag then Some(rest) else None)
      else match ParsePayload(t, wire, rest, depth)
        case None => None
        case Some((_, rest')) => SkipGroup(tag, rest', depth)
  }

  function ParseField(b: Bytes, depth: nat): (r: Option<(Field, Bytes)>)
    ensures r.Some? ==> |r.value.1| < |b|
  {
    match ParseKey(b)
    case None => None
    case Some((tag, wire, rest)) =>
      match ParsePayload(tag, wire, rest, depth)
      case None => None
      case Some((p, rest')) => Some((Field(tag, p), rest'))
  }

  function Parse(b: Bytes, depth: nat): Option<seq<Field>>
    decreases |b|
  {
    if b == [] then Some([]) else
      match ParseField(b, depth)
      case None => None
      case Some((f, rest)) =>
        match Parse(rest, depth)
        case None => None
        case Some(fs) => Some([f] + fs)
  }

  predicate Writable(f: Field) {
    && 0 < f.tag < 0x2000_0000
    && match f.payload
       case Number(n) => n < U64
       case Blob(b) => |b| < U64
       case Skipped => false
  }

  function WriteField(f: Field): Bytes {
    match f.payload
    case Number(n) => Varint.Encode(8 * f.tag) + Varint.Encode(n)
    case Blob(b) => Varint.Encode(8 * f.tag + 2) + (Varint.Encode(|b|) + b)
    case Skipped => []
  }

  function Write(fs: seq<Field>): Bytes {
    if fs == [] then [] else WriteField(fs[0]) + Write(fs[1..])
  }

  lemma ParseKeyOfWritten(tag: nat, wire: nat, rest: Bytes)
    requires 0 < tag < 0x2000_0000 && wire <= 5
    ensures ParseKey(Varint.Encode(8 * tag + wire) + rest) == Some((tag, wire, rest))
  {
    Varint.DecodeEncode(8 * tag + wire, rest);
  }

  lemma ParseBlob(tag: nat, n: Bytes, b: Bytes, rest: Bytes, depth: nat)
    requires Varint.Decode(n + (b + rest)) == Some((|b|, b + rest))
    ensures ParsePayload(tag, 2, n + (b + rest), depth) == Some((Blob(b), rest))
  {
    assert (b + rest)[..|b|] == b && (b + rest)[|b|..] == rest;
  }

  lemma ParseFieldOfWritten(f: Field, rest: Bytes, depth: nat)
    requires Writable(f)
    ensures ParseField(WriteField(f) + rest, depth) == Some((f, rest))
  {
    match f.payload
    case Number(n) =>
      assert WriteField(f) + rest == Varint.Encode(8 * f.tag) + (Varint.Encode(n) + rest);
      ParseKeyOfWritten(f.tag, 0, Varint.Encode(n) + rest);
      Varint.DecodeEncode(n, rest);
    case Blob(b) =>
      var tail := Varint.Encode(|b|) + (b + rest);
      assert WriteField(f) + rest == Varint.Encode(8 * f.tag + 2) + tail;
      ParseKeyOfWritten(f.tag, 2, tail);
      Varint.DecodeEncode(|b|, b + rest);
      ParseBlob(f.tag, Varint.Encode(|b|), b, rest, depth);
  }

  /** Reading what was written gives the same fields in the same order. */
  lemma {:induction false} ParseWrite(fs: seq<Field>, depth: nat)
    requires forall f :: f in fs ==> Writable(f)
    ensures Parse(Write(fs), depth) == Some(fs)
  {
    if fs == [] {
    } else {
      ParseFieldOfWritten(fs[0], Write(fs[1..]), depth);
      ParseWrite(fs[1..], depth);
      assert [fs[0]] + fs[1..] == fs;
    }
  }

  // ------------------------------------------------------------------
  // Selecting and sizing fields
  // ------------------------------------------------------------------

  /** Writable but for the length of a blob. */
  predicate Plain(f: Field) {
    0 < f.tag < 0x2000_0000 && (f.payload.Number? ==> f.payload.n < U64) && !f.payload.Skipped?
  }

  lemma {:induction false} BlobsFitInside(fs: seq<Field>, f: Field)
    requires f in fs && f.payload.Blob?
    ensures |f.payload.b| <= |Write(fs)|
  {
    if fs[0] != f { BlobsFitInside(fs[1..], f); }
  }

  /** A message of fewer than 2^64 bytes holds only blobs whose lengths can be written. */
  lemma SizesFit(fs: seq<Field>)
    requires |Write(fs)| < U64 && forall f :: f in fs ==> Plain(f)
    ensures forall f :: f in fs ==> Writable(f)
  {
    forall f | f in fs ensures Writable(f) {
      if f.payload.Blob? { BlobsFitInside(fs, f); }
    }
  }

  function Select(fs: seq<Field>, tag: nat): seq<Payload> {
    if fs == [] then [] else (if fs[0].tag == tag then [fs[0].payload] else []) + Select(fs[1..], tag)
  }

  lemma SelectCons(f: Field, fs: seq<Field>, tag: nat)
    ensures Select([f] + fs, tag) == (if f.tag == tag then [f.payload] else []) + Select(fs, tag)
  {
    assert ([f] + fs)[1..] == fs;
  }

  lemma {:induction false} SelectAppend(a: seq<Field>, b: seq<Field>, tag: nat)
    ensures Select(a + b, tag) == Select(a, tag) + Select(b, tag)
  {
    if a == [] {
      assert a + b == b;
    } else {
      hide Select;
      var f, rest := a[0], a[1..];
      assert a == [f] + rest && a + b == [f] + (rest + b);
      SelectCons(f, rest, tag);
      SelectCons(f, rest + b, tag);
      SelectAppend(rest, b, tag);
    }
  }

  /** One optional field. */
  predicate Part(fs: seq<Field>, tag: nat) {
    |fs| <= 1 && forall f :: f in fs ==> f.tag == tag
  }

  function Payloads(fs: seq<Field>): (r: seq<Payload>)
    requires |fs| <= 1
  {
    if fs == [] then [] else [fs[0].payload]
  }

  lemma SelectPart(fs: seq<Field>, own: nat, tag: nat)
    requires Part(fs, own)
    ensures Select(fs, tag) == if tag == own then Payloads(fs) else []
  {
    if fs != [] { assert Select(fs[1..], tag) == []; }
  }

  lemma SelectThree(a: seq<Field>, b: seq<Field>, c: seq<Field>, tag: nat)
    requires Part(a, 1) && Part(b, 2) && Part(c, 3)
    ensures Select(a + (b + c), tag)
            == if tag == 1 then Payloads(a) else if tag == 2 then Payloads(b) else if tag == 3 then Payloads(c) else []
  {
    hide Select, Part, Payloads;
    SelectAppend(a, b + c, tag);
    SelectAppend(b, c, tag);
    SelectPart(a, 1, tag);
    SelectPart(b, 2, tag);
    SelectPart(c, 3, tag);
  }

  // ------------------------------------------------------------------
  // Field values: scalars keep the last occurrence, messages merge; encoders omit default scalars
  // ------------------------------------------------------------------

  function BlobField(tag: nat, b: Bytes): seq<Field> {
    if b == [] then [] else [Field(tag, Blob(b))]
  }

  function NumberField(tag: nat, n: nat): seq<Field> {
    if n == 0 then [] else [Field(tag, Number(n))]
  }

  /** A message that is present is written even when it is empty. */
  function MessageField(tag: nat, fs: Option<seq<Field>>): seq<Field> {
    match fs
    case None => []
    case Some(fs) => [Field(tag, Blob(Write(fs)))]
  }

  function AsBlob(ps: seq<Payload>): Option<Bytes> {
    if ps == [] then Some([])
    else if !ps[|ps| - 1].Blob? || AsBlob(ps[..|ps| - 1]).None? then None
    else Some(ps[|ps| - 1].b)
  }

  function AsNumber(ps: seq<Payload>): Option<nat> {
    if ps == [] then Some(0)
    else if !ps[|ps| - 1].Number? || AsNumber(ps[..|ps| - 1]).None? then None
    else Some(ps[|ps| - 1].n)
  }

  /** The fields of an embedded message, `Some(None)` when it is absent. */
  function AsMessage(ps: seq<Payload>, depth: nat): Option<Option<seq<Field>>> {
    if ps == [] then Some(None)
    else if !ps[|ps| - 1].Blob? then None
    else
      match (AsMessage(ps[..|ps| - 1], depth), Parse(ps[|ps| - 1].b, depth))
      case (Some(None), Some(fs)) => Some(Some(fs))
      case (Some(Some(before)), Some(fs)) => Some(Some(before + fs))
      case _ => None
  }

  /** Decodes an optional embedded message with its own decoder. */
  function DecodeOptional<T>(ps: seq<Payload>, depth: nat, decode: seq<Field> -> Option<T>): Option<Option<T>> {
    match AsMessage(ps, depth)
    case None => None
    case Some(None) => Some(None)
    case Some(Some(fs)) =>
      match decode(fs)
      case None => None
      case Some(m) => Some(Some(m))
  }

  lemma AsBlobWritten(tag: nat, b: Bytes)
    ensures AsBlob(Payloads(BlobField(tag, b))) == Some(b)
  {
    var ps := Payloads(BlobField(tag, b));
    if b != [] { assert AsBlob(ps[..0]) == Some([]); }
  }

  lemma AsNumberWritten(tag: nat, n: nat)
    ensures AsNumber(Payloads(NumberField(tag, n))) == Some(n)
  {
    var ps := Payloads(NumberField(tag, n));
    if n != 0 { assert AsNumber(ps[..0]) == Some(0); }
  }

  /** A field that holds one message decodes to what the message's own decoder makes of it. */
  lemma DecodeOptionalWritten<T>(tag: nat, fs: Option<seq<Field>>, depth: nat, decode: seq<Field> -> Option<T>)
    requires fs.Some? ==> forall f :: f in fs.value ==> Writable(f)
    ensures DecodeOptional(Payloads(MessageField(tag, fs)), depth, decode)
            == if fs.None? then Some(None) else match decode(fs.value) case None => None case Some(m) => Some(Some(m))
  {
    if fs.Some? {
      ParseWrite(fs.value, depth);
      var p := [Blob(Write(fs.value))];
      assert p[..0] == [] && AsMessage([], depth) == Some(None);
      assert AsMessage(p, depth) == Some(Some(fs.value));
    }
  }
}
