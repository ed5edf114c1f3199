/** The request-metadata validator: headers that mirror the JSON-RPC body. */
module Envelope {
  import opened Common
  import opened Text
  import opened JsonText
  import opened Dict
  import opened HeaderValue
  import opened Annotations
  import opened SchemaKeys
  import opened BracketDepth

  /** Text lowering and case folding, and json.loads. */
  datatype Env = Env(lower: Lower, fold: Fold, loads: Loads)

  datatype Header = Header(name: Text, value: Text)

  type Headers = seq<Header>

  const VERSION_HEADER: Text := Lit("mcp-protocol-version")
  const METHOD_HEADER: Text := Lit("mcp-method")
  const NAME_HEADER: Text := Lit("mcp-name")
  const PARAM_PREFIX: Text := Lit("mcp-param-")
  const META_VERSION: Text := Lit("io.modelcontextprotocol/protocolVersion")
  const TOOLS_CALL: Text := Lit("tools/call")

  const LEGACY: set<Text> := {Lit("2025-11-25"), Lit("2025-06-18"), Lit("2025-03-26"), Lit("2024-11-05")}

  datatype Reason =
    | HeaderAlias
    | Mismatch(header: Text)
    | ParamMismatch
    | UnsupportedVersion
    | Batch
    | NotARequest
    | InvalidRequest
    | InvalidMeta
    | MissingMeta
    | InvalidName
    | UnknownTool
    | CaseVariantArgument
    | ArgumentTooDeep

  datatype Verdict = Accept(version: Text) | Reject(reason: Reason)

  // ----- headers -----

  function Dashed(s: Text): Text
    decreases |s|
  {
    if s == [] then [] else [if s[0] == '_' as int then '-' as int else s[0]] + Dashed(s[1..])
  }

  predicate IsParam(name: Text) { StartsWith(name, PARAM_PREFIX) }

  predicate IsRouting(name: Text) {
    name == VERSION_HEADER || name == METHOD_HEADER || name == NAME_HEADER || IsParam(name)
  }

  /** The routing name an intermediary might take this one for. */
  function AliasOf(name: Text): Text {
    var alias := Dashed(name);
    if StartsWith(alias, Lit("http-")) then alias[5..] else alias
  }

  predicate AliasOnly(name: Text) { AliasOf(name) != name && IsRouting(AliasOf(name)) }

  function Normal(env: Env, h: Header): Text { env.lower(Strip(h.name)) }

  type Multimap = map<Text, seq<Text>>

  function Collect(env: Env, hs: Headers): Multimap {
    if hs == [] then map[]
    else
      var m, h := Collect(env, hs[..|hs| - 1]), hs[|hs| - 1];
      m[Normal(env, h) := (if Normal(env, h) in m then m[Normal(env, h)] else []) + [h.value]]
  }

  predicate AnyAlias(env: Env, hs: Headers) {
    exists i :: 0 <= i < |hs| && AliasOnly(Normal(env, hs[i]))
  }

  /** None is the header-alias rejection. */
  method HeaderMultimap(env: Env, hs: Headers) returns (out: Option<Multimap>)
    ensures out == if AnyAlias(env, hs) then None else Some(Collect(env, hs))
  {
    var m: Multimap := map[];
    for i := 0 to |hs|
      invariant m == Collect(env, hs[..i])
      invariant !AnyAlias(env, hs[..i])
    {
      AliasSoFar(env, hs, i);
      assert hs[..i + 1][..i] == hs[..i];
      var name := Normal(env, hs[i]);
      if AliasOnly(name) {
        return None;
      }
      m := m[name := (if name in m then m[name] else []) + [hs[i].value]];
    }
    assert hs[..|hs|] == hs;
    out := Some(m);
  }

  lemma AliasSoFar(env: Env, hs: Headers, i: nat)
    requires i < |hs|
    ensures AnyAlias(env, hs[..i + 1]) <==> AnyAlias(env, hs[..i]) || AliasOnly(Normal(env, hs[i]))
    ensures AliasOnly(Normal(env, hs[i])) ==> AnyAlias(env, hs)
  {
    assert hs[..i + 1] == hs[..i] + [hs[i]];
    assert forall k :: 0 <= k < i ==> hs[..i + 1][k] == hs[..i][k];
    assert hs[..i + 1][i] == hs[i];
  }

  /** The values sent under a normal name, in order. */
  function ValuesOf(env: Env, hs: Headers, name: Text): seq<Text> {
    if hs == [] then []
    else (if Normal(env, hs[0]) == name then [hs[0].value] else []) + ValuesOf(env, hs[1..], name)
  }

  lemma {:induction false} ValuesConcat(env: Env, a: Headers, b: Headers, name: Text)
    ensures ValuesOf(env, a + b, name) == ValuesOf(env, a, name) + ValuesOf(env, b, name)
    decreases |a|
  {
    if a == [] {
      assert a + b == b;
    } else {
      assert (a + b)[1..] == a[1..] + b;
      ValuesConcat(env, a[1..], b, name);
    }
  }

  /** The multimap holds, under each name sent, its values in order. */
  lemma {:induction false} CollectHolds(env: Env, hs: Headers, name: Text)
    ensures name in Collect(env, hs) <==> ValuesOf(env, hs, name) != []
    ensures name in Collect(env, hs) ==> Collect(env, hs)[name] == ValuesOf(env, hs, name)
    decreases |hs|
  {
    if hs != [] {
      var front, h := hs[..|hs| - 1], hs[|hs| - 1];
      assert hs == front + [h];
      ValuesConcat(env, front, [h], name);
      assert [h][1..] == [];
      CollectHolds(env, front, name);
    }
  }

  // ----- the checks, in order -----

  /** Absent, one value, or several. */
  datatype Single = Missing | One(value: Text) | Several

  function SingleOf(m: Multimap, name: Text): Single {
    if name !in m then Missing else if |m[name]| == 1 then One(m[name][0]) else Several
  }

  predicate SomeParam(m: Multimap) { exists h :: h in m && IsParam(h) }

  /** What a body that would fall back to a legacy handler is rejected for
      first: modern routing headers. None when there are none. */
  function LegacyGate(m: Multimap, supported: set<Text>): Option<Reason> {
    if METHOD_HEADER in m then Some(Mismatch(METHOD_HEADER))
    else if NAME_HEADER in m then Some(Mismatch(NAME_HEADER))
    else if SomeParam(m) then Some(ParamMismatch)
    else match SingleOf(m, VERSION_HEADER)
      case Missing => None
      case Several => Some(Mismatch(VERSION_HEADER))
      case One(v) =>
        if v in LEGACY then None
        else if v in supported then Some(Mismatch(VERSION_HEADER))
        else Some(UnsupportedVersion)
  }

  function OrElse(gate: Option<Reason>, r: Reason): Reason { if gate.Some? then gate.value else r }

  function Lookup(v: Json, key: Text): Option<Json> { if v.Obj? then Get(v.fields, key) else None }

  function TextOf(v: Option<Json>): Option<Text> {
    if v.Some? && v.value.Str? then Some(v.value.s) else None
  }

  /** params, an empty mapping unless the body has a mapping. */
  function Params(body: Json): Json {
    var p := Lookup(body, Lit("params"));
    if p.Some? && p.value.Obj? then p.value else Obj(NoFields)
  }

  function Meta(body: Json): Json {
    var m := Lookup(Params(body), Lit("_meta"));
    if m.Some? then m.value else Null
  }

  function MethodOf(body: Json): Option<Text> { TextOf(Lookup(body, Lit("method"))) }

  /** The value mirrored into Mcp-Name, for the methods that have one. */
  function NameField(rpc: Text): Option<Text> {
    if rpc == TOOLS_CALL || rpc == Lit("prompts/get") then Some(Lit("name"))
    else if rpc == Lit("resources/read") then Some(Lit("uri"))
    else None
  }

  /** The checks up to the version; None when they all pass. */
  function CheckVersion(m: Multimap, body: Json, supported: set<Text>): Option<Reason> {
    if body.Arr? then Some(OrElse(LegacyGate(m, supported), Batch))
    else if body.Obj? && Lookup(body, Lit("method")).None? then Some(NotARequest)
    else if MethodOf(body).None? then Some(InvalidRequest)
    else if SingleOf(m, VERSION_HEADER).Several? then Some(Mismatch(VERSION_HEADER))
    else
      var version := Lookup(Meta(body), META_VERSION);
      if (Meta(body) != Null && !Meta(body).Obj?) || (version.Some? && !version.value.Str?) then
        Some(InvalidMeta)
      else if version.None? then Some(OrElse(LegacyGate(m, supported), MissingMeta))
      else if SingleOf(m, VERSION_HEADER) != One(version.value.s) then Some(Mismatch(VERSION_HEADER))
      else if version.value.s !in supported then Some(UnsupportedVersion)
      else None
  }

  /** The method and name checks; None when they pass. */
  function CheckRouting(m: Multimap, body: Json): Option<Reason>
    requires MethodOf(body).Some?
  {
    var rpc := MethodOf(body).value;
    if SingleOf(m, METHOD_HEADER) != One(rpc) then Some(Mismatch(METHOD_HEADER))
    else if SingleOf(m, NAME_HEADER).Several? then Some(Mismatch(NAME_HEADER))
    else if NameField(rpc).None? then
      if SingleOf(m, NAME_HEADER) != Missing then Some(Mismatch(NAME_HEADER)) else None
    else
      var name := TextOf(Lookup(Params(body), NameField(rpc).value));
      if name.None? || EncodeHeaderValue(name.value).None? then Some(InvalidName)
      else if SingleOf(m, NAME_HEADER) != One(EncodeHeaderValue(name.value).value) then
        Some(Mismatch(NAME_HEADER))
      else None
  }

  // ----- arguments as the server runs them -----

  /** Top-level JSON texts replaced by their decoding, where through allows. */
  function Overlay(loads: Loads, fs: Fields, through: Option<set<Text>>): Fields {
    match fs
    case NoFields => NoFields
    case Field(k, v, rest) =>
      var seen := if Decoding(loads, v).Some? && (through.None? || k in through.value)
                  then Decoding(loads, v).value else v;
      Field(k, seen, Overlay(loads, rest, through))
  }

  function OverlayArgs(loads: Loads, args: Json, through: Option<set<Text>>): Json {
    if args.Obj? then Obj(Overlay(loads, args.fields, through)) else args
  }

  /** The top-level arguments some annotation reaches through. */
  function Through(anns: seq<Annotation>): set<Text> {
    set a | a in anns && |a.path| > 1 :: a.path[0]
  }

  function RawArgs(body: Json): Json {
    var a := Lookup(Params(body), Lit("arguments"));
    if a.Some? then a.value else Null
  }

  function EffectiveArgs(loads: Loads, anns: seq<Annotation>, args: Json): Json {
    OverlayArgs(loads, args, Some(Through(anns)))
  }

  function ParamHeader(env: Env, a: Annotation): Text { PARAM_PREFIX + env.lower(a.name) }

  /** Whether the case-variant walk reports anything. */
  predicate CaseVariants(fold: Fold, schema: Json, v: Json) {
    if Containers(schema) > MAX_SCHEMA_CONTAINERS then
      !(v == Null || v == Obj(NoFields) || v == Arr(NoItems))
    else FlaggedIn(Mappings(schema), fold, [], v) != multiset{}
  }

  predicate Unencodable(anns: seq<Annotation>, args: Json) {
    exists a :: a in anns && ArgAt(args, a.path).Str? && Render(ArgAt(args, a.path)).None?
  }

  /** One turn of the loop over annotations; None when it passes. */
  function CheckParam(env: Env, m: Multimap, a: Annotation, args: Json): Option<Reason> {
    var raw, v := SingleOf(m, ParamHeader(env, a)), ArgAt(args, a.path);
    if raw.Several? then Some(ParamMismatch)
    else if Render(v).None? then
      if v != Null || raw != Missing then Some(ParamMismatch) else None
    else if raw != One(Render(v).value) then Some(ParamMismatch)
    else None
  }

  function CheckEach(env: Env, m: Multimap, anns: seq<Annotation>, args: Json): Option<Reason> {
    if anns == [] then None
    else if CheckParam(env, m, anns[0], args).Some? then CheckParam(env, m, anns[0], args)
    else CheckEach(env, m, anns[1..], args)
  }

  predicate Undeclared(env: Env, m: Multimap, anns: seq<Annotation>) {
    exists h :: h in m && IsParam(h) && !(exists a :: a in anns && ParamHeader(env, a) == h)
  }

  /** The parameter checks of a tools/call with a registered schema. */
  function CheckParams(env: Env, m: Multimap, schema: Json, raw: Json): Option<Reason> {
    var anns := Valid(env.lower, WalkRoot(schema));
    var args := EffectiveArgs(env.loads, anns, raw);
    if raw.Obj? && SomeTooDeep(raw.fields) then Some(ArgumentTooDeep)
    else if || CaseVariants(env.fold, schema, raw)
            || CaseVariants(env.fold, schema, OverlayArgs(env.loads, raw, None)) then
      Some(CaseVariantArgument)
    else if Unencodable(anns, args) then Some(ParamMismatch)
    else if Undeclared(env, m, anns) then Some(ParamMismatch)
    else CheckEach(env, m, anns, args)
  }

  /** The tool check and the parameter checks; None when they pass. */
  function CheckTool(env: Env, m: Multimap, body: Json, schemas: Option<map<Text, Json>>): Option<Reason> {
    if MethodOf(body) != Some(TOOLS_CALL) || schemas.None? then
      if SomeParam(m) then Some(ParamMismatch) else None
    else
      var tool := TextOf(Lookup(Params(body), Lit("name")));
      if tool.None? || tool.value !in schemas.value then Some(UnknownTool)
      else CheckParams(env, m, schemas.value[tool.value], RawArgs(body))
  }

  function Judge(env: Env, hs: Headers, body: Json, supported: set<Text>, schemas: Option<map<Text, Json>>): Verdict {
    if AnyAlias(env, hs) then Reject(HeaderAlias)
    else
      var m := Collect(env, hs);
      if CheckVersion(m, body, supported).Some? then Reject(CheckVersion(m, body, supported).value)
      else if CheckRouting(m, body).Some? then Reject(CheckRouting(m, body).value)
      else if CheckTool(env, m, body, schemas).Some? then Reject(CheckTool(env, m, body, schemas).value)
      else Accept(Lookup(Meta(body), META_VERSION).value.s)
  }

  method HasCaseVariants(fold: Fold, schema: Json, v: Json) returns (some: bool)
    ensures some == CaseVariants(fold, schema, v)
  {
    var found := SchemaCaseVariantKeys(fold, schema, v);
    some := found != [];
    assert found == [] <==> multiset(found) == multiset{};
  }

  method ValidateParams(env: Env, m: Multimap, schema: Json, raw: Json) returns (v: Option<Reason>)
    ensures v == CheckParams(env, m, schema, raw)
  {
    var decoded := DecodedArguments(env.loads, raw);
    if decoded.None? {
      return Some(ArgumentTooDeep);
    }
    var annotations := XMcpHeaderAnnotations(env.lower, schema);
    var effective := EffectiveArgs(env.loads, annotations, raw);
    var variants := HasCaseVariants(env.fold, schema, raw);
    if !variants {
      variants := HasCaseVariants(env.fold, schema, OverlayArgs(env.loads, raw, None));
    }
    if variants {
      return Some(CaseVariantArgument);
    }
    if Unencodable(annotations, effective) || Undeclared(env, m, annotations) {
      return Some(ParamMismatch);
    }
    for i := 0 to |annotations|
      invariant CheckEach(env, m, annotations, effective) == CheckEach(env, m, annotations[i..], effective)
    {
      assert annotations[i..][0] == annotations[i] && annotations[i..][1..] == annotations[i + 1..];
      var bad := CheckParam(env, m, annotations[i], effective);
      if bad.Some? {
        return bad;
      }
    }
    v := None;
  }

  method ValidateRequestMetadata(env: Env, hs: Headers, body: Json, supported: set<Text>,
                                 schemas: Option<map<Text, Json>>) returns (v: Verdict)
    ensures v == Judge(env, hs, body, supported, schemas)
  {
    var collected := HeaderMultimap(env, hs);
    if collected.None? {
      return Reject(HeaderAlias);
    }
    var m := collected.value;
    var bad := CheckVersion(m, body, supported);
    if bad.Some? {
      return Reject(bad.value);
    }
    bad := CheckRouting(m, body);
    if bad.Some? {
      return Reject(bad.value);
    }
    if MethodOf(body) != Some(TOOLS_CALL) || schemas.None? {
      if SomeParam(m) {
        return Reject(ParamMismatch);
      }
    } else {
      var tool := TextOf(Lookup(Params(body), Lit("name")));
      if tool.None? || tool.value !in schemas.value {
        return Reject(UnknownTool);
      }
      bad := ValidateParams(env, m, schemas.value[tool.value], RawArgs(body));
      if bad.Some? {
        return Reject(bad.value);
      }
    }
    v := Accept(Lookup(Meta(body), META_VERSION).value.s);
  }
}
