/** `MerkleProof { repeated bytes proofs = 1 }`: the scripts' hand-written encoder and the Hub's decoder. */
module MerkleProof {
  import opened Basics
  import opened Errors
  import opened TypedArrays
  import Varint
  import Wire

  // ------------------------------------------------------------------
  // scripts/proof.ts
  // ------------------------------------------------------------------

  /** The three parts the encoder pushes for each op. */
  function Parts(ops: seq<Bytes>): seq<Bytes> {
    if ops == [] then [] else [[0x0a], Varint.Script(|ops[0]|), ops[0]] + Parts(ops[1..])
  }

  lemma {:induction false} PartsAppend(a: seq<Bytes>, op: Bytes)
    ensures Parts(a + [op]) == Parts(a) + [[0x0a], Varint.Script(|op|), op]
  {
    if a == [] {
      assert a + [op] == [op];
    } else {
      assert (a + [op])[1..] == a[1..] + [op];
      PartsAppend(a[1..], op);
    }
  }

  function Build(ops: seq<Bytes>): Bytes {
    Flatten(Parts(ops))
  }

  method BuildMerkleProof(ops: seq<Bytes>) returns (result: array<byte>)
    ensures fresh(result)
    ensures result[..] == Build(ops)
  {
    var parts: seq<Bytes> := [];
    for i := 0 to |ops|
      invariant parts == Parts(ops[..i])
    {
      var len := Varint.EncodeVarint(|ops[i]|);
      parts := parts + [[0x0a], len, ops[i]];
      PartsAppend(ops[..i], ops[i]);
      assert ops[..i] + [ops[i]] == ops[..i + 1];
    }
    assert ops[..|ops|] == ops;
    result := ConcatBytes(parts);
  }

  // ------------------------------------------------------------------
  // contracts/interchain-events/src/proto.rs
  // ------------------------------------------------------------------

  /** The entries of field 1; a field 1 that is not length-delimited is a decoding error. */
  function Entries(fields: seq<Wire.Field>): Option<seq<Bytes>> {
    if fields == [] then Some([]) else
      match Entries(fields[1..])
      case None => None
      case Some(rest) =>
        if fields[0].tag != 1 then Some(rest)
        else if fields[0].payload.Blob? then Some([fields[0].payload.b] + rest)
        else None
  }

  function DecodeMerkleProof(b: Bytes): (r: Result<seq<Bytes>, ContractError>)
    ensures r.Ok? ==> |r.value| == 2
  {
    match Wire.Parse(b, Wire.RECURSION_LIMIT)
    case None => Err(ProtoDecode)
    case Some(fields) =>
      match Entries(fields)
      case None => Err(ProtoDecode)
      case Some(proofs) => if |proofs| != 2 then Err(ProofVerificationFailed) else Ok(proofs)
  }

  function AsFields(ops: seq<Bytes>): (r: seq<Wire.Field>)
    ensures |r| == |ops|
    ensures forall i :: 0 <= i < |ops| ==> r[i] == Wire.Field(1, Wire.Blob(ops[i]))
  {
    if ops == [] then [] else [Wire.Field(1, Wire.Blob(ops[0]))] + AsFields(ops[1..])
  }

  lemma TagByte()
    ensures Varint.Encode(8 * 1 + 2) == [0x0a]
  {
  }

  lemma Regroup(a: Bytes, b: Bytes, c: Bytes, d: Bytes)
    ensures (a + (b + c)) + d == a + (b + (c + d))
  {
  }

  lemma OneField(op: Bytes, rest: Bytes)
    ensures Wire.WriteField(Wire.Field(1, Wire.Blob(op))) + rest == [0x0a] + (Varint.Encode(|op|) + (op + rest))
  {
    hide Varint.Encode;
    TagByte();
    Regroup([0x0a], Varint.Encode(|op|), op, rest);
  }

  lemma {:induction false} EntriesOfFields(ops: seq<Bytes>)
    ensures Entries(AsFields(ops)) == Some(ops)
  {
    if ops != [] {
      EntriesOfFields(ops[1..]);
      assert AsFields(ops)[1..] == AsFields(ops[1..]);
      assert [ops[0]] + ops[1..] == ops;
    }
  }

  lemma BuildOne(op: Bytes, ops: seq<Bytes>)
    requires |op| < U32
    ensures Build([op] + ops) == Wire.WriteField(Wire.Field(1, Wire.Blob(op))) + Build(ops)
  {
    hide Flatten, Wire.WriteField;
    var len, rest := Varint.Script(|op|), Parts(ops);
    assert ([op] + ops)[1..] == ops;
    assert Parts([op] + ops) == [[0x0a]] + ([len] + ([op] + rest));
    FlattenCons([0x0a], [len] + ([op] + rest));
    FlattenCons(len, [op] + rest);
    FlattenCons(op, rest);
    Varint.ScriptIsEncode(|op|);
    OneField(op, Build(ops));
  }

  /** The script writes a well-formed message with one length-delimited field 1 for each op. */
  lemma {:induction false} BuildIsWrite(ops: seq<Bytes>)
    requires forall op :: op in ops ==> |op| < U32
    ensures Build(ops) == Wire.Write(AsFields(ops))
  {
    if ops != [] {
      hide Build, Wire.WriteField;
      BuildIsWrite(ops[1..]);
      BuildOne(ops[0], ops[1..]);
      assert [ops[0]] + ops[1..] == ops;
      assert AsFields(ops)[1..] == AsFields(ops[1..]);
    } else {
      NothingBuilt();
    }
  }

  lemma NothingBuilt()
    ensures Build([]) == []
  {
  }

  /** The Hub recovers exactly the two wrapped proofs, and refuses any other number of them. */
  lemma DecodeBuild(ops: seq<Bytes>)
    requires forall op :: op in ops ==> |op| < U32
    ensures DecodeMerkleProof(Build(ops)) == if |ops| == 2 then Ok(ops) else Err(ProofVerificationFailed)
  {
    hide Build, Wire.Parse;
    BuildIsWrite(ops);
    EntriesOfFields(ops);
    Wire.ParseWrite(AsFields(ops), Wire.RECURSION_LIMIT);
  }
}
