/** Dot-separated paths into JSON: the Hub's walk, and the watcher's walk that should predict it. */
module JsonPath {
  import opened Basics
  import Conditions
  import Utf8

  type SafeInteger = n: int | -0x20_0000_0000_0000 < n < 0x20_0000_0000_0000

  /** Any other number carries the text each side prints for it. */
  datatype Json =
    | Null
    | Bool(b: bool)
    | Integer(n: SafeInteger)
    | OtherNumber(onChain: string, inScript: string)
    | Str(s: string)
    | Array(items: seq<Json>)
    | Object(fields: map<string, Json>)

  /** `path.split('.')` in either language. */
  function Split(path: string): (r: seq<string>)
    ensures r != []
  {
    if path == [] then [[]]
    else
      var rest := Split(path[1..]);
      if path[0] == '.' then [[]] + rest else [[path[0]] + rest[0]] + rest[1..]
  }

  function Digits(n: nat): string {
    Utf8.Chars(Conditions.Decimal(n))
  }

  function ScalarText(j: Json): string
    requires IsScalar(j)
  {
    match j
    case Null => "null"
    case Bool(b) => if b then "true" else "false"
    case Integer(n) => if n < 0 then "-" + Digits(-n) else Digits(n)
    case Str(s) => s
  }

  predicate IsScalar(j: Json) {
    j.Null? || j.Bool? || j.Integer? || j.Str?
  }

  // ------------------------------------------------------------------
  // The Hub
  // ------------------------------------------------------------------

  function Get(j: Json, segment: string): Option<Json> {
    if j.Object? && segment in j.fields then Some(j.fields[segment]) else None
  }

  function Lookup(j: Json, segments: seq<string>): Option<Json>
    decreases segments
  {
    if segments == [] then Some(j) else
      match Get(j, segments[0])
      case None => None
      case Some(next) => Lookup(next, segments[1..])
  }

  method Walk(document: Json, segments: seq<string>) returns (r: Option<Json>)
    ensures r == Lookup(document, segments)
  {
    var current := document;
    for i := 0 to |segments|
      invariant Lookup(document, segments) == Lookup(current, segments[i..])
    {
      assert segments[i..][0] == segments[i] && segments[i..][1..] == segments[i + 1..];
      match Get(current, segments[i])
      case None => return None;
      case Some(next) => current := next;
    }
    r := Some(current);
  }

  /** Arrays and objects print as JSON text, which `render` stands for. */
  function OnChainText(render: Json -> string, j: Json): string {
    if IsScalar(j) then ScalarText(j) else if j.OtherNumber? then j.onChain else render(j)
  }

  predicate HubMatches(render: Json -> string, document: Json, path: string, expected: string) {
    match Lookup(document, Split(path))
    case None => false
    case Some(j) => OnChainText(render, j) == expected
  }

  // ------------------------------------------------------------------
  // The watcher
  // ------------------------------------------------------------------

  /** A script value: parsed JSON, or something built in such as an inherited method. */
  datatype Value = Parsed(j: Json) | BuiltIn(name: string)

  /**
   * What the script engine adds to own object members: `member` finds inherited names, array elements and
   * anything below built-ins; `text` is `String(value)` where it is not a scalar's.
   */
  datatype Engine = Engine(member: (Value, string) -> Option<Value>, text: Value -> string)

  predicate IsObject(v: Value) {
    v.BuiltIn? || v.j.Object? || v.j.Array?
  }

  /** `segment in current ? current[segment]`, once `current` is known to be an object. */
  function Member(engine: Engine, v: Value, segment: string): Option<Value> {
    if v.Parsed? && Get(v.j, segment).Some? then Some(Parsed(Get(v.j, segment).value))
    else engine.member(v, segment)
  }

  function ScriptLookup(engine: Engine, v: Value, segments: seq<string>): Option<Value>
    decreases segments
  {
    if segments == [] then Some(v)
    else if !IsObject(v) then None
    else
      match Member(engine, v, segments[0])
      case None => None
      case Some(next) => ScriptLookup(engine, next, segments[1..])
  }

  method ScriptWalk(engine: Engine, document: Json, segments: seq<string>) returns (r: Option<Value>)
    ensures r == ScriptLookup(engine, Parsed(document), segments)
  {
    var current := Parsed(document);
    for i := 0 to |segments|
      invariant ScriptLookup(engine, Parsed(document), segments) == ScriptLookup(engine, current, segments[i..])
    {
      assert segments[i..][0] == segments[i] && segments[i..][1..] == segments[i + 1..];
      if !IsObject(current) { return None; }
      match Member(engine, current, segments[i])
      case None => return None;
      case Some(next) => current := next;
    }
    r := Some(current);
  }

  function ScriptText(engine: Engine, v: Value): string {
    if v.Parsed? && IsScalar(v.j) then ScalarText(v.j)
    else if v.Parsed? && v.j.OtherNumber? then v.j.inScript
    else engine.text(v)
  }

  predicate WatcherMatches(engine: Engine, document: Json, path: string, expected: string) {
    match ScriptLookup(engine, Parsed(document), Split(path))
    case None => false
    case Some(v) => ScriptText(engine, v) == expected
  }

  // ------------------------------------------------------------------
  // Agreement
  // ------------------------------------------------------------------

  /** Where the Hub's walk gets, the watcher's gets too: own keys come before anything the engine adds. */
  lemma {:induction false} OwnKeysFirst(engine: Engine, j: Json, segments: seq<string>)
    requires Lookup(j, segments).Some?
    ensures ScriptLookup(engine, Parsed(j), segments) == Some(Parsed(Lookup(j, segments).value))
    decreases segments
  {
    if segments != [] { OwnKeysFirst(engine, Get(j, segments[0]).value, segments[1..]); }
  }

  /** A path that ends in a scalar is judged alike by any engine, for every expected text. */
  lemma ScalarAgreement(engine: Engine, render: Json -> string, document: Json, path: string, expected: string)
    requires Lookup(document, Split(path)).Some? && IsScalar(Lookup(document, Split(path)).value)
    ensures WatcherMatches(engine, document, path, expected) == HubMatches(render, document, path, expected)
  {
    OwnKeysFirst(engine, document, Split(path));
  }

  /** The engine adds nothing under any of these names. */
  ghost predicate AddsNothing(engine: Engine, segments: seq<string>) {
    forall v, i :: 0 <= i < |segments| ==> engine.member(v, segments[i]) == None
  }

  lemma {:induction false} MissingForBoth(engine: Engine, j: Json, segments: seq<string>)
    requires AddsNothing(engine, segments) && Lookup(j, segments).None?
    ensures ScriptLookup(engine, Parsed(j), segments).None?
    decreases segments
  {
    assert AddsNothing(engine, segments[1..]) by {
      forall v, i | 0 <= i < |segments[1..]| ensures engine.member(v, segments[1..][i]) == None {
        assert segments[1..][i] == segments[i + 1];
      }
    }
    assert engine.member(Parsed(j), segments[0]) == None;
    if Get(j, segments[0]).Some? { MissingForBoth(engine, Get(j, segments[0]).value, segments[1..]); }
  }

  /**
   * When the engine adds nothing under the path's names, the two sides judge alike every path that is missing or
   * ends in a scalar.
   */
  lemma Agreement(engine: Engine, render: Json -> string, document: Json, path: string, expected: string)
    requires AddsNothing(engine, Split(path))
    requires Lookup(document, Split(path)).Some? ==> IsScalar(Lookup(document, Split(path)).value)
    ensures WatcherMatches(engine, document, path, expected) == HubMatches(render, document, path, expected)
  {
    if Lookup(document, Split(path)).Some? {
      ScalarAgreement(engine, render, document, path, expected);
    } else {
      MissingForBoth(engine, document, Split(path));
    }
  }
}
