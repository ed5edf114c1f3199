/** What acceptance by the request-metadata validator means: the headers are the
    canonical mirror of the body, each once and nothing else. */
module EnvelopeMirror {
  import opened Common
  import opened Text
  import opened JsonText
  import opened HeaderValue
  import opened Annotations
  import opened BracketDepth
  import opened Envelope

  predicate Sent(env: Env, hs: Headers, name: Text) { ValuesOf(env, hs, name) != [] }

  predicate SentOnce(env: Env, hs: Headers, name: Text, value: Text) { ValuesOf(env, hs, name) == [value] }

  /** The header of an annotated argument is absent with the argument, and else
      carries its canonical rendering, once. */
  predicate ParamMirrored(env: Env, hs: Headers, a: Annotation, args: Json) {
    var v := ArgAt(args, a.path);
    if v == Null then !Sent(env, hs, ParamHeader(env, a))
    else Render(v).Some? && SentOnce(env, hs, ParamHeader(env, a), Render(v).value)
  }

  ghost predicate OnlyDeclaredSent(env: Env, hs: Headers, anns: seq<Annotation>) {
    forall h: Text :: IsParam(h) && Sent(env, hs, h) ==> exists a :: a in anns && ParamHeader(env, a) == h
  }

  ghost predicate ParamsMirrored(env: Env, hs: Headers, anns: seq<Annotation>, args: Json) {
    (forall a :: a in anns ==> ParamMirrored(env, hs, a, args)) && OnlyDeclaredSent(env, hs, anns)
  }

  /** The parameter part of acceptance for a registered schema. */
  ghost predicate ParamsAccepted(env: Env, hs: Headers, schema: Json, raw: Json) {
    && !(raw.Obj? && SomeTooDeep(raw.fields))
    && !CaseVariants(env.fold, schema, raw) && !CaseVariants(env.fold, schema, OverlayArgs(env.loads, raw, None))
    && ParamsMirrored(env, hs, Valid(env.lower, WalkRoot(schema)),
                      EffectiveArgs(env.loads, Valid(env.lower, WalkRoot(schema)), raw))
  }

  ghost predicate NameMirrored(env: Env, hs: Headers, body: Json)
    requires MethodOf(body).Some?
  {
    var field := NameField(MethodOf(body).value);
    if field.None? then !Sent(env, hs, NAME_HEADER)
    else
      var name := TextOf(Lookup(Params(body), field.value));
      name.Some? && Encodable(name.value) && EncodeHeaderValue(name.value).Some?
      && SentOnce(env, hs, NAME_HEADER, EncodeHeaderValue(name.value).value)
  }

  ghost predicate ToolMirrored(env: Env, hs: Headers, body: Json, schemas: Option<map<Text, Json>>)
    requires MethodOf(body).Some?
  {
    if MethodOf(body).value != TOOLS_CALL || schemas.None? then
      forall h: Text :: IsParam(h) ==> !Sent(env, hs, h)
    else
      var tool := TextOf(Lookup(Params(body), Lit("name")));
      tool.Some? && tool.value in schemas.value
      && ParamsAccepted(env, hs, schemas.value[tool.value], RawArgs(body))
  }

  /** The body is a request of a supported version, and every routing header is
      its canonical mirror. */
  ghost predicate Mirrors(env: Env, hs: Headers, body: Json, supported: set<Text>,
                          schemas: Option<map<Text, Json>>, version: Text) {
    && !AnyAlias(env, hs)
    && MethodOf(body).Some?
    && Lookup(Meta(body), META_VERSION) == Some(Str(version)) && version in supported
    && SentOnce(env, hs, VERSION_HEADER, version)
    && SentOnce(env, hs, METHOD_HEADER, MethodOf(body).value)
    && NameMirrored(env, hs, body)
    && ToolMirrored(env, hs, body, schemas)
  }

  // ----- the checks are their meaning -----

  lemma SingleAgrees(env: Env, hs: Headers, name: Text)
    ensures SingleOf(Collect(env, hs), name) == Missing <==> !Sent(env, hs, name)
    ensures forall v :: SingleOf(Collect(env, hs), name) == One(v) <==> SentOnce(env, hs, name, v)
  {
    CollectHolds(env, hs, name);
    var vs := ValuesOf(env, hs, name);
    assert |vs| == 1 ==> vs == [vs[0]];
  }

  lemma SomeParamAgrees(env: Env, hs: Headers)
    ensures SomeParam(Collect(env, hs)) <==> exists h: Text :: IsParam(h) && Sent(env, hs, h)
  {
    forall h: Text ensures h in Collect(env, hs) <==> Sent(env, hs, h) {
      CollectHolds(env, hs, h);
    }
  }

  lemma CheckParamAgrees(env: Env, hs: Headers, a: Annotation, args: Json)
    ensures CheckParam(env, Collect(env, hs), a, args).None? <==> ParamMirrored(env, hs, a, args)
  {
    SingleAgrees(env, hs, ParamHeader(env, a));
  }

  lemma {:induction false} CheckEachAgrees(env: Env, hs: Headers, anns: seq<Annotation>, args: Json)
    ensures CheckEach(env, Collect(env, hs), anns, args).None? <==>
            forall a :: a in anns ==> ParamMirrored(env, hs, a, args)
    decreases |anns|
  {
    if anns != [] {
      assert anns == [anns[0]] + anns[1..];
      CheckParamAgrees(env, hs, anns[0], args);
      CheckEachAgrees(env, hs, anns[1..], args);
    }
  }

  lemma UndeclaredAgrees(env: Env, hs: Headers, anns: seq<Annotation>)
    ensures Undeclared(env, Collect(env, hs), anns) <==> !OnlyDeclaredSent(env, hs, anns)
  {
    forall h: Text ensures h in Collect(env, hs) <==> Sent(env, hs, h) {
      CollectHolds(env, hs, h);
    }
  }

  lemma CheckParamsAgrees(env: Env, hs: Headers, schema: Json, raw: Json)
    ensures CheckParams(env, Collect(env, hs), schema, raw).None? <==> ParamsAccepted(env, hs, schema, raw)
  {
    var anns := Valid(env.lower, WalkRoot(schema));
    var args := EffectiveArgs(env.loads, anns, raw);
    CheckEachAgrees(env, hs, anns, args);
    UndeclaredAgrees(env, hs, anns);
    if Unencodable(anns, args) {
      var a :| a in anns && ArgAt(args, a.path).Str? && Render(ArgAt(args, a.path)).None?;
      assert !ParamMirrored(env, hs, a, args);
    }
  }

  lemma CheckRoutingAgrees(env: Env, hs: Headers, body: Json)
    requires MethodOf(body).Some?
    ensures CheckRouting(Collect(env, hs), body).None? <==>
            SentOnce(env, hs, METHOD_HEADER, MethodOf(body).value) && NameMirrored(env, hs, body)
  {
    SingleAgrees(env, hs, METHOD_HEADER);
    SingleAgrees(env, hs, NAME_HEADER);
    var field := NameField(MethodOf(body).value);
    if field.Some? {
      var name := TextOf(Lookup(Params(body), field.value));
      if name.Some? {
        EncodesExactlyEncodable(name.value);
      }
    }
  }

  lemma CheckToolAgrees(env: Env, hs: Headers, body: Json, schemas: Option<map<Text, Json>>)
    requires MethodOf(body).Some?
    ensures CheckTool(env, Collect(env, hs), body, schemas).None? <==> ToolMirrored(env, hs, body, schemas)
  {
    SomeParamAgrees(env, hs);
    var tool := TextOf(Lookup(Params(body), Lit("name")));
    if MethodOf(body).value == TOOLS_CALL && schemas.Some? && tool.Some? && tool.value in schemas.value {
      CheckParamsAgrees(env, hs, schemas.value[tool.value], RawArgs(body));
    }
  }

  lemma CheckVersionAgrees(env: Env, hs: Headers, body: Json, supported: set<Text>)
    ensures CheckVersion(Collect(env, hs), body, supported).None? <==>
            && MethodOf(body).Some?
            && Lookup(Meta(body), META_VERSION).Some? && Lookup(Meta(body), META_VERSION).value.Str?
            && Lookup(Meta(body), META_VERSION).value.s in supported
            && SentOnce(env, hs, VERSION_HEADER, Lookup(Meta(body), META_VERSION).value.s)
  {
    SingleAgrees(env, hs, VERSION_HEADER);
  }

  /** The validator accepts exactly the requests whose headers mirror the body,
      and returns the body's version. */
  lemma AcceptedExactlyWhen(env: Env, hs: Headers, body: Json, supported: set<Text>,
                            schemas: Option<map<Text, Json>>, version: Text)
    ensures Judge(env, hs, body, supported, schemas) == Accept(version) <==>
            Mirrors(env, hs, body, supported, schemas, version)
  {
    CheckVersionAgrees(env, hs, body, supported);
    if MethodOf(body).Some? {
      CheckRoutingAgrees(env, hs, body);
      CheckToolAgrees(env, hs, body, schemas);
    }
  }

  // ----- case and aliases -----

  function LowerChar(c: CodePoint): CodePoint {
    if 'A' as int <= c <= 'Z' as int then c + 32 else c
  }

  function AsciiLower(s: Text): Text { seq(|s|, i requires 0 <= i < |s| => LowerChar(s[i])) }

  /** str.lower works letter by letter on ASCII. */
  ghost predicate LowersAscii(lower: Lower) { forall s: Text :: Ascii(s) ==> lower(s) == AsciiLower(s) }

  predicate NoUnderscore(s: Text) { forall i :: 0 <= i < |s| ==> s[i] != '_' as int }

  lemma {:induction false} DashedIs(s: Text)
    ensures |Dashed(s)| == |s|
    ensures forall i :: 0 <= i < |s| ==> Dashed(s)[i] == if s[i] == '_' as int then '-' as int else s[i]
    decreases |s|
  {
    if s != [] {
      DashedIs(s[1..]);
      assert forall i :: 0 < i < |s| ==> s[i] == s[1..][i - 1];
    }
  }

  /** A parameter header's name is only an alias exactly when it has an underscore. */
  lemma ParamAlias(t: Text)
    ensures AliasOnly(PARAM_PREFIX + t) <==> !NoUnderscore(t)
  {
    var name := PARAM_PREFIX + t;
    DashedIs(name);
    var d := Dashed(name);
    assert |PARAM_PREFIX| == 10;
    assert forall i :: 0 <= i < 10 ==> name[i] == PARAM_PREFIX[i];
    assert d[0] == 'm' as int && Lit("http-")[0] == 'h' as int;
    assert d[..5][0] == d[0];
    assert !StartsWith(d, Lit("http-"));
    assert d[..10] == PARAM_PREFIX;
    if NoUnderscore(t) {
      assert d == name by {
        forall i | 0 <= i < |name| ensures d[i] == name[i] {
          if i >= 10 { assert name[i] == t[i - 10]; }
        }
      }
    } else {
      var i :| 0 <= i < |t| && t[i] == '_' as int;
      assert name[10 + i] == t[i] && d[10 + i] == '-' as int;
    }
  }

  lemma {:induction false} SentBySome(env: Env, hs: Headers, name: Text) returns (i: nat)
    requires Sent(env, hs, name)
    ensures i < |hs| && Normal(env, hs[i]) == name
    decreases |hs|
  {
    if Normal(env, hs[0]) == name {
      i := 0;
    } else {
      i := SentBySome(env, hs[1..], name);
      i := i + 1;
    }
  }

  /** An annotation whose name has an underscore can never be used: with the
      argument present, every list of headers is rejected. */
  lemma UnderscoreNameUnusable(env: Env, hs: Headers, body: Json, supported: set<Text>, schemas: map<Text, Json>,
                               version: Text, a: Annotation)
    requires MethodOf(body) == Some(TOOLS_CALL)
    requires TextOf(Lookup(Params(body), Lit("name"))).Some?
    requires TextOf(Lookup(Params(body), Lit("name"))).value in schemas
    requires var anns := Valid(env.lower, WalkRoot(schemas[TextOf(Lookup(Params(body), Lit("name"))).value]));
             a in anns && ArgAt(EffectiveArgs(env.loads, anns, RawArgs(body)), a.path) != Null
    requires !NoUnderscore(env.lower(a.name))
    ensures Judge(env, hs, body, supported, Some(schemas)) != Accept(version)
  {
    AcceptedExactlyWhen(env, hs, body, supported, Some(schemas), version);
    if Mirrors(env, hs, body, supported, Some(schemas), version) {
      assert Sent(env, hs, ParamHeader(env, a));
      var i := SentBySome(env, hs, ParamHeader(env, a));
      ParamAlias(env.lower(a.name));
      assert AnyAlias(env, hs);
      assert false;
    }
  }

  // ----- headers rendered by a client -----

  /** x_mcp_param_headers of some annotations. */
  function ParamHeaders(anns: seq<Annotation>, args: Json): Headers {
    if anns == [] then []
    else
      (if Render(ArgAt(args, anns[0].path)).Some? then
         [Header(Lit("Mcp-Param-") + anns[0].name, Render(ArgAt(args, anns[0].path)).value)] else [])
      + ParamHeaders(anns[1..], args)
  }

  /** request_metadata_headers of a call to a named tool. */
  function CallHeaders(name: Text, version: Text): Headers {
    [Header(Lit("MCP-Protocol-Version"), version), Header(Lit("Mcp-Method"), TOOLS_CALL)]
    + if EncodeHeaderValue(name).Some? then [Header(Lit("Mcp-Name"), EncodeHeaderValue(name).value)] else []
  }

  lemma FixedNamesApart()
    ensures VERSION_HEADER != METHOD_HEADER && VERSION_HEADER != NAME_HEADER && METHOD_HEADER != NAME_HEADER
    ensures !IsParam(VERSION_HEADER) && !IsParam(METHOD_HEADER) && !IsParam(NAME_HEADER)
  {
    assert |VERSION_HEADER| == 20 && |METHOD_HEADER| == 10 && |NAME_HEADER| == 8 && |PARAM_PREFIX| == 10;
    assert VERSION_HEADER[5] == 'r' as int && PARAM_PREFIX[5] == 'a' as int;
    assert METHOD_HEADER[4] == 'm' as int && PARAM_PREFIX[4] == 'p' as int;
    assert VERSION_HEADER[..10][5] == VERSION_HEADER[5] && METHOD_HEADER[..10][4] == METHOD_HEADER[4];
  }

  lemma FixedNames(env: Env, value: Text)
    requires LowersAscii(env.lower)
    ensures Normal(env, Header(Lit("MCP-Protocol-Version"), value)) == VERSION_HEADER
    ensures Normal(env, Header(Lit("Mcp-Method"), value)) == METHOD_HEADER
    ensures Normal(env, Header(Lit("Mcp-Name"), value)) == NAME_HEADER
  {
    LowerLiteral(env, Lit("MCP-Protocol-Version"), VERSION_HEADER);
    LowerLiteral(env, Lit("Mcp-Method"), METHOD_HEADER);
    LowerLiteral(env, Lit("Mcp-Name"), NAME_HEADER);
  }

  lemma LowerLiteral(env: Env, s: Text, t: Text)
    requires LowersAscii(env.lower) && s != [] && |s| == |t|
    requires forall i :: 0 <= i < |s| ==> 0x21 <= s[i] < 0x7F && LowerChar(s[i]) == t[i]
    ensures env.lower(Strip(s)) == t
  {
    StripFixed(s);
    assert Ascii(s);
    assert AsciiLower(s) == t;
  }
}
