/** The headers a client renders from a tools/call body, given to the validator. */
module EnvelopeRendered {
  import opened Common
  import opened Text
  import opened JsonText
  import opened HeaderValue
  import opened Annotations
  import opened BracketDepth
  import opened Envelope
  import opened EnvelopeMirror

  const MCP_PARAM: Text := Lit("Mcp-Param-")

  /** A parameter header's name normalizes to its annotation's. */
  lemma ParamNormal(env: Env, a: Annotation, value: Text)
    requires LowersAscii(env.lower) && IsToken(a.name)
    ensures Normal(env, Header(MCP_PARAM + a.name, value)) == ParamHeader(env, a)
  {
    var s := MCP_PARAM + a.name;
    assert |MCP_PARAM| == 10;
    assert forall i :: 0 <= i < 10 ==> s[i] == MCP_PARAM[i] && LowerChar(s[i]) == PARAM_PREFIX[i];
    assert forall i :: 10 <= i < |s| ==> s[i] == a.name[i - 10];
    LoweredParts(s, a.name);
    ParamVisible(a);
    StripFixed(s);
  }

  lemma ParamVisible(a: Annotation)
    requires IsToken(a.name)
    ensures Ascii(a.name) && Ascii(MCP_PARAM + a.name) && NoOuterSpace(MCP_PARAM + a.name)
  {
    var s := MCP_PARAM + a.name;
    assert s[0] == MCP_PARAM[0] == 'M' as int && s[|s| - 1] == a.name[|a.name| - 1];
  }

  lemma LoweredParts(s: Text, name: Text)
    requires |s| == 10 + |name|
    requires forall i :: 0 <= i < 10 ==> LowerChar(s[i]) == PARAM_PREFIX[i]
    requires forall i :: 10 <= i < |s| ==> s[i] == name[i - 10]
    ensures AsciiLower(s) == PARAM_PREFIX + AsciiLower(name)
  {
  }

  ghost predicate WellNamed(env: Env, anns: seq<Annotation>) {
    && (forall a :: a in anns ==> IsToken(a.name))
    && (forall i, j :: 0 <= i < j < |anns| ==> env.lower(anns[i].name) != env.lower(anns[j].name))
  }

  lemma WellNamedTail(env: Env, anns: seq<Annotation>)
    requires WellNamed(env, anns) && anns != []
    ensures WellNamed(env, anns[1..])
    ensures forall a :: a in anns[1..] ==> env.lower(a.name) != env.lower(anns[0].name)
  {
    forall a | a in anns[1..] ensures env.lower(a.name) != env.lower(anns[0].name) {
      var i :| 0 <= i < |anns[1..]| && anns[1..][i] == a;
      assert anns[i + 1] == a;
    }
    forall i, j | 0 <= i < j < |anns[1..]| ensures env.lower(anns[1..][i].name) != env.lower(anns[1..][j].name) {
      assert anns[1..][i] == anns[i + 1] && anns[1..][j] == anns[j + 1];
    }
  }

  /** The rendering of an annotated argument, as the values of its header. */
  function RenderedValues(a: Annotation, args: Json): seq<Text> {
    if Render(ArgAt(args, a.path)).Some? then [Render(ArgAt(args, a.path)).value] else []
  }

  lemma FirstParamValues(env: Env, anns: seq<Annotation>, args: Json, name: Text)
    requires LowersAscii(env.lower) && anns != [] && IsToken(anns[0].name)
    ensures ValuesOf(env, ParamHeaders(anns, args), name)
            == (if name == ParamHeader(env, anns[0]) then RenderedValues(anns[0], args) else [])
               + ValuesOf(env, ParamHeaders(anns[1..], args), name)
  {
    if Render(ArgAt(args, anns[0].path)).Some? {
      var h := Header(MCP_PARAM + anns[0].name, Render(ArgAt(args, anns[0].path)).value);
      ParamNormal(env, anns[0], h.value);
      assert ParamHeaders(anns, args) == [h] + ParamHeaders(anns[1..], args);
      assert ([h] + ParamHeaders(anns[1..], args))[1..] == ParamHeaders(anns[1..], args);
    } else {
      assert ParamHeaders(anns, args) == ParamHeaders(anns[1..], args);
    }
  }

  lemma {:induction false} NoOtherParams(env: Env, anns: seq<Annotation>, args: Json, name: Text)
    requires LowersAscii(env.lower) && (forall a :: a in anns ==> IsToken(a.name))
    requires forall a :: a in anns ==> ParamHeader(env, a) != name
    ensures ValuesOf(env, ParamHeaders(anns, args), name) == []
    decreases |anns|
  {
    if anns != [] {
      FirstParamValues(env, anns, args, name);
      NoOtherParams(env, anns[1..], args, name);
    }
  }

  lemma SameParam(env: Env, a: Annotation, b: Annotation)
    requires ParamHeader(env, a) == ParamHeader(env, b)
    ensures env.lower(a.name) == env.lower(b.name)
  {
    assert env.lower(a.name) == ParamHeader(env, a)[|PARAM_PREFIX|..];
    assert env.lower(b.name) == ParamHeader(env, b)[|PARAM_PREFIX|..];
  }

  /** Each rendered header carries its own argument's rendering, once. */
  lemma {:induction false} ParamValues(env: Env, anns: seq<Annotation>, args: Json, a: Annotation)
    requires LowersAscii(env.lower) && WellNamed(env, anns) && a in anns
    ensures ValuesOf(env, ParamHeaders(anns, args), ParamHeader(env, a)) == RenderedValues(a, args)
    decreases |anns|
  {
    WellNamedTail(env, anns);
    FirstParamValues(env, anns, args, ParamHeader(env, a));
    if a == anns[0] {
      forall b | b in anns[1..] ensures ParamHeader(env, b) != ParamHeader(env, a) {
        if ParamHeader(env, b) == ParamHeader(env, a) { SameParam(env, a, b); }
      }
      NoOtherParams(env, anns[1..], args, ParamHeader(env, a));
    } else {
      assert anns == [anns[0]] + anns[1..];
      if ParamHeader(env, a) == ParamHeader(env, anns[0]) { SameParam(env, a, anns[0]); }
      ParamValues(env, anns[1..], args, a);
    }
  }

  lemma CallValues(env: Env, name: Text, version: Text, h: Text)
    requires LowersAscii(env.lower) && EncodeHeaderValue(name).Some?
    ensures ValuesOf(env, CallHeaders(name, version), h)
            == (if h == VERSION_HEADER then [version] else if h == METHOD_HEADER then [TOOLS_CALL]
                else if h == NAME_HEADER then [EncodeHeaderValue(name).value] else [])
  {
    FixedNamesApart();
    var a := Header(Lit("MCP-Protocol-Version"), version);
    var b := Header(Lit("Mcp-Method"), TOOLS_CALL);
    var c := Header(Lit("Mcp-Name"), EncodeHeaderValue(name).value);
    FixedNames(env, version);
    FixedNames(env, TOOLS_CALL);
    FixedNames(env, c.value);
    var hs := CallHeaders(name, version);
    assert hs == [a, b, c];
    assert hs[1..] == [b, c] && [b, c][1..] == [c] && [c][1..] == [];
    assert ValuesOf(env, [c], h) == if h == NAME_HEADER then [c.value] else [];
    assert ValuesOf(env, [b, c], h) == (if h == METHOD_HEADER then [TOOLS_CALL] else []) + ValuesOf(env, [c], h);
  }

  /** All the headers a client sends with a call. */
  function Rendered(anns: seq<Annotation>, name: Text, version: Text, args: Json): Headers {
    CallHeaders(name, version) + ParamHeaders(anns, args)
  }

  lemma RenderedValuesOf(env: Env, anns: seq<Annotation>, name: Text, version: Text, args: Json, h: Text)
    requires LowersAscii(env.lower) && WellNamed(env, anns) && EncodeHeaderValue(name).Some?
    ensures IsParam(h) ==> ValuesOf(env, Rendered(anns, name, version, args), h)
                           == ValuesOf(env, ParamHeaders(anns, args), h)
    ensures !IsParam(h) ==> ValuesOf(env, Rendered(anns, name, version, args), h)
                            == ValuesOf(env, CallHeaders(name, version), h)
  {
    ValuesConcat(env, CallHeaders(name, version), ParamHeaders(anns, args), h);
    FixedNamesApart();
    CallValues(env, name, version, h);
    if !IsParam(h) {
      NoOtherParams(env, anns, args, h);
    }
  }

  /** What an annotated argument must be for its rendered header to pass: sent
      only under a name without underscore, and saying what the server runs. */
  predicate RenderedRight(env: Env, a: Annotation, raw: Json, args: Json) {
    match Render(ArgAt(raw, a.path))
    case None => ArgAt(args, a.path) == Null
    case Some(x) => NoUnderscore(env.lower(a.name)) && Render(ArgAt(args, a.path)) == Some(x)
  }

  lemma RenderedOnlyDeclared(env: Env, anns: seq<Annotation>, name: Text, version: Text, raw: Json)
    requires LowersAscii(env.lower) && WellNamed(env, anns) && EncodeHeaderValue(name).Some?
    ensures OnlyDeclaredSent(env, Rendered(anns, name, version, raw), anns)
  {
    var hs := Rendered(anns, name, version, raw);
    forall h: Text | IsParam(h) && Sent(env, hs, h) ensures exists a :: a in anns && ParamHeader(env, a) == h {
      RenderedValuesOf(env, anns, name, version, raw, h);
      if forall a :: a in anns ==> ParamHeader(env, a) != h {
        NoOtherParams(env, anns, raw, h);
      }
    }
  }

  lemma ParamIsParam(env: Env, a: Annotation)
    ensures IsParam(ParamHeader(env, a))
  {
    assert ParamHeader(env, a)[..|PARAM_PREFIX|] == PARAM_PREFIX;
  }

  lemma RenderedMirrored(env: Env, anns: seq<Annotation>, name: Text, version: Text, raw: Json, args: Json,
                         a: Annotation)
    requires LowersAscii(env.lower) && WellNamed(env, anns) && EncodeHeaderValue(name).Some? && a in anns
    ensures ParamMirrored(env, Rendered(anns, name, version, raw), a, args) <==>
            if Render(ArgAt(raw, a.path)).None? then ArgAt(args, a.path) == Null
            else Render(ArgAt(args, a.path)) == Render(ArgAt(raw, a.path))
  {
    ParamIsParam(env, a);
    RenderedValuesOf(env, anns, name, version, raw, ParamHeader(env, a));
    ParamValues(env, anns, raw, a);
  }

  lemma {:induction false} SentParam(env: Env, anns: seq<Annotation>, raw: Json, i: nat) returns (a: Annotation)
    requires LowersAscii(env.lower) && (forall b :: b in anns ==> IsToken(b.name)) && i < |ParamHeaders(anns, raw)|
    ensures a in anns && Render(ArgAt(raw, a.path)).Some?
    ensures Normal(env, ParamHeaders(anns, raw)[i]) == ParamHeader(env, a)
    decreases |anns|
  {
    var rest := ParamHeaders(anns[1..], raw);
    if Render(ArgAt(raw, anns[0].path)).Some? {
      var h := Header(MCP_PARAM + anns[0].name, Render(ArgAt(raw, anns[0].path)).value);
      assert ParamHeaders(anns, raw) == [h] + rest;
      if i == 0 {
        a := anns[0];
        ParamNormal(env, a, h.value);
      } else {
        a := SentParam(env, anns[1..], raw, i - 1);
      }
    } else {
      assert ParamHeaders(anns, raw) == rest;
      a := SentParam(env, anns[1..], raw, i);
    }
  }

  lemma FixedNotAliases()
    ensures !AliasOnly(VERSION_HEADER) && !AliasOnly(METHOD_HEADER) && !AliasOnly(NAME_HEADER)
  {
    LettersAndDashes();
    NotAlias(VERSION_HEADER);
    NotAlias(METHOD_HEADER);
    NotAlias(NAME_HEADER);
  }

  lemma LettersAndDashes()
    ensures |VERSION_HEADER| >= 5 && VERSION_HEADER[0] == 'm' as int && NoUnderscore(VERSION_HEADER)
    ensures |METHOD_HEADER| >= 5 && METHOD_HEADER[0] == 'm' as int && NoUnderscore(METHOD_HEADER)
    ensures |NAME_HEADER| >= 5 && NAME_HEADER[0] == 'm' as int && NoUnderscore(NAME_HEADER)
  {
  }

  lemma NotAlias(s: Text)
    requires NoUnderscore(s) && |s| >= 5 && s[0] == 'm' as int
    ensures !AliasOnly(s)
  {
    DashedIs(s);
    assert Dashed(s) == s;
    assert s[..5][0] == s[0] && Lit("http-")[0] == 'h' as int;
  }

  lemma CallNotAlias(env: Env, name: Text, version: Text, i: nat)
    requires LowersAscii(env.lower) && i < |CallHeaders(name, version)|
    ensures !AliasOnly(Normal(env, CallHeaders(name, version)[i]))
  {
    FixedNotAliases();
    FixedNames(env, CallHeaders(name, version)[i].value);
  }

  /** None of the rendered headers is an alias if no sent name has an underscore. */
  lemma RenderedNoAlias(env: Env, anns: seq<Annotation>, name: Text, version: Text, raw: Json)
    requires LowersAscii(env.lower) && WellNamed(env, anns) && EncodeHeaderValue(name).Some?
    requires forall a :: a in anns ==> SentPlainly(env, a, raw)
    ensures !AnyAlias(env, Rendered(anns, name, version, raw))
  {
    var hs, call := Rendered(anns, name, version, raw), CallHeaders(name, version);
    forall i | 0 <= i < |hs| ensures !AliasOnly(Normal(env, hs[i])) {
      if i < |call| {
        CallNotAlias(env, name, version, i);
        assert hs[i] == call[i];
      } else {
        var a := SentParam(env, anns, raw, i - |call|);
        ParamAlias(env.lower(a.name));
        assert hs[i] == ParamHeaders(anns, raw)[i - |call|];
      }
    }
  }

  /** The request the headers are rendered from: a call of a registered tool in
      a supported version, decodable and without case-variant keys. */
  ghost predicate Renderable(env: Env, body: Json, supported: set<Text>, schemas: map<Text, Json>, version: Text,
                             tool: Text) {
    && MethodOf(body) == Some(TOOLS_CALL)
    && Lookup(Meta(body), META_VERSION) == Some(Str(version)) && version in supported
    && TextOf(Lookup(Params(body), Lit("name"))) == Some(tool) && tool in schemas && Encodable(tool)
    && !(RawArgs(body).Obj? && SomeTooDeep(RawArgs(body).fields))
    && !CaseVariants(env.fold, schemas[tool], RawArgs(body))
    && !CaseVariants(env.fold, schemas[tool], OverlayArgs(env.loads, RawArgs(body), None))
  }

  lemma RenderedRouting(env: Env, anns: seq<Annotation>, body: Json, tool: Text, version: Text)
    requires LowersAscii(env.lower) && WellNamed(env, anns)
    requires MethodOf(body) == Some(TOOLS_CALL)
    requires TextOf(Lookup(Params(body), Lit("name"))) == Some(tool) && Encodable(tool)
    ensures var hs := Rendered(anns, tool, version, RawArgs(body));
            && SentOnce(env, hs, VERSION_HEADER, version) && SentOnce(env, hs, METHOD_HEADER, TOOLS_CALL)
            && NameMirrored(env, hs, body)
  {
    FixedNamesApart();
    EncodesExactlyEncodable(tool);
    RenderedValuesOf(env, anns, tool, version, RawArgs(body), VERSION_HEADER);
    RenderedValuesOf(env, anns, tool, version, RawArgs(body), METHOD_HEADER);
    RenderedValuesOf(env, anns, tool, version, RawArgs(body), NAME_HEADER);
    CallValues(env, tool, version, VERSION_HEADER);
    CallValues(env, tool, version, METHOD_HEADER);
    CallValues(env, tool, version, NAME_HEADER);
  }

  lemma AliasedIfUnderscore(env: Env, anns: seq<Annotation>, name: Text, version: Text, raw: Json, a: Annotation)
    requires LowersAscii(env.lower) && WellNamed(env, anns) && EncodeHeaderValue(name).Some? && a in anns
    requires Render(ArgAt(raw, a.path)).Some? && !NoUnderscore(env.lower(a.name))
    ensures AnyAlias(env, Rendered(anns, name, version, raw))
  {
    var hs := Rendered(anns, name, version, raw);
    ParamIsParam(env, a);
    RenderedValuesOf(env, anns, name, version, raw, ParamHeader(env, a));
    ParamValues(env, anns, raw, a);
    var i := SentBySome(env, hs, ParamHeader(env, a));
    ParamAlias(env.lower(a.name));
    assert AliasOnly(Normal(env, hs[i]));
  }

  /** Headers rendered from a renderable request are accepted exactly when every
      annotated argument's header is sent under a name without underscore and
      says the value the server will run. */
  lemma RenderedAcceptedExactlyWhen(env: Env, body: Json, supported: set<Text>, schemas: map<Text, Json>,
                                    version: Text, tool: Text)
    requires LowersAscii(env.lower) && Renderable(env, body, supported, schemas, version, tool)
    requires WellNamed(env, Valid(env.lower, WalkRoot(schemas[tool])))
    ensures var anns := Valid(env.lower, WalkRoot(schemas[tool]));
            Judge(env, Rendered(anns, tool, version, RawArgs(body)), body, supported, Some(schemas))
              == Accept(version) <==>
            forall a :: a in anns ==>
              RenderedRight(env, a, RawArgs(body), EffectiveArgs(env.loads, anns, RawArgs(body)))
  {
    var anns, raw := Valid(env.lower, WalkRoot(schemas[tool])), RawArgs(body);
    var args, hs := EffectiveArgs(env.loads, anns, raw), Rendered(anns, tool, version, raw);
    AcceptedExactlyWhen(env, hs, body, supported, Some(schemas), version);
    RenderedRouting(env, anns, body, tool, version);
    EncodesExactlyEncodable(tool);
    RenderedOnlyDeclared(env, anns, tool, version, raw);
    RightExactlyWhen(env, anns, tool, version, raw, args);
  }

  lemma RightExactlyWhen(env: Env, anns: seq<Annotation>, name: Text, version: Text, raw: Json, args: Json)
    requires LowersAscii(env.lower) && WellNamed(env, anns) && EncodeHeaderValue(name).Some?
    ensures var hs := Rendered(anns, name, version, raw);
            (!AnyAlias(env, hs) && forall a :: a in anns ==> ParamMirrored(env, hs, a, args)) <==>
            forall a :: a in anns ==> RenderedRight(env, a, raw, args)
  {
    if forall a :: a in anns ==> SentPlainly(env, a, raw) {
      RenderedNoAlias(env, anns, name, version, raw);
      forall a | a in anns
        ensures ParamMirrored(env, Rendered(anns, name, version, raw), a, args) <==> RenderedRight(env, a, raw, args)
      {
        RenderedMirrored(env, anns, name, version, raw, args, a);
      }
    } else {
      var a :| a in anns && !SentPlainly(env, a, raw);
      AliasedIfUnderscore(env, anns, name, version, raw, a);
    }
  }

  /** Not sent, or sent under a name without underscore. */
  predicate SentPlainly(env: Env, a: Annotation, raw: Json) {
    Render(ArgAt(raw, a.path)).Some? ==> NoUnderscore(env.lower(a.name))
  }

  /** In particular: with no annotation through a JSON text, every annotated
      argument absent or renderable, and no underscored name, always accepted. */
  lemma PlainRequestAccepted(env: Env, body: Json, supported: set<Text>, schemas: map<Text, Json>,
                             version: Text, tool: Text)
    requires LowersAscii(env.lower) && Renderable(env, body, supported, schemas, version, tool)
    requires WellNamed(env, Valid(env.lower, WalkRoot(schemas[tool])))
    requires var anns := Valid(env.lower, WalkRoot(schemas[tool]));
             forall a :: a in anns ==>
               var v := ArgAt(RawArgs(body), a.path);
               && ArgAt(EffectiveArgs(env.loads, anns, RawArgs(body)), a.path) == v
               && (v == Null || (Render(v).Some? && NoUnderscore(env.lower(a.name))))
    ensures Judge(env, Rendered(Valid(env.lower, WalkRoot(schemas[tool])), tool, version, RawArgs(body)), body,
                  supported, Some(schemas)) == Accept(version)
  {
    RenderedAcceptedExactlyWhen(env, body, supported, schemas, version, tool);
    var anns, raw := Valid(env.lower, WalkRoot(schemas[tool])), RawArgs(body);
    forall a | a in anns ensures RenderedRight(env, a, raw, EffectiveArgs(env.loads, anns, raw)) {
      assert Render(Null).None?;
    }
  }

  /** An annotation that reaches through an argument given as JSON text, to a
      value that only the decoding has: the client, who renders what it sends,
      sends no header for it, and is always rejected. */
  lemma TextArgumentRefused(env: Env, body: Json, supported: set<Text>, schemas: map<Text, Json>,
                            version: Text, tool: Text, a: Annotation)
    requires LowersAscii(env.lower) && Renderable(env, body, supported, schemas, version, tool)
    requires WellNamed(env, Valid(env.lower, WalkRoot(schemas[tool])))
    requires a in Valid(env.lower, WalkRoot(schemas[tool])) && |a.path| > 1
    requires ArgAt(RawArgs(body), a.path[..1]).Str?
    requires var anns := Valid(env.lower, WalkRoot(schemas[tool]));
             ArgAt(EffectiveArgs(env.loads, anns, RawArgs(body)), a.path) != Null
    ensures Judge(env, Rendered(Valid(env.lower, WalkRoot(schemas[tool])), tool, version, RawArgs(body)), body,
                  supported, Some(schemas)) != Accept(version)
  {
    var anns, raw := Valid(env.lower, WalkRoot(schemas[tool])), RawArgs(body);
    RenderedAcceptedExactlyWhen(env, body, supported, schemas, version, tool);
    ArgAtSplit(raw, a.path);
    assert ArgAt(raw, a.path) == Null && Render(Null).None?;
    assert !RenderedRight(env, a, raw, EffectiveArgs(env.loads, anns, raw));
  }

  lemma ArgAtSplit(args: Json, path: seq<Text>)
    requires path != []
    ensures ArgAt(args, path) == Null || ArgAt(args, path) == ArgAt(ArgAt(args, path[..1]), path[1..])
    ensures !ArgAt(args, path[..1]).Obj? && |path| > 1 ==> ArgAt(args, path) == Null
  {
    assert path[..1][0] == path[0] && path[..1][1..] == [];
  }

  // ----- names with a final line feed -----

  /** The token pattern lets a final line feed through, and such a name can never
      be used: no header is ever sent under it. */
  lemma LineFeedNameUnusable(env: Env, hs: Headers, body: Json, supported: set<Text>, schemas: map<Text, Json>,
                             version: Text, tool: Text, a: Annotation)
    requires LowersAscii(env.lower) && MethodOf(body) == Some(TOOLS_CALL)
    requires TextOf(Lookup(Params(body), Lit("name"))) == Some(tool) && tool in schemas
    requires var anns := Valid(env.lower, WalkRoot(schemas[tool]));
             a in anns && ArgAt(EffectiveArgs(env.loads, anns, RawArgs(body)), a.path) != Null
    requires MatchesToken(a.name) && !IsToken(a.name)
    requires forall i :: 0 <= i < |hs| ==> Ascii(hs[i].name)
    ensures Judge(env, hs, body, supported, Some(schemas)) != Accept(version)
  {
    AcceptedExactlyWhen(env, hs, body, supported, Some(schemas), version);
    if Mirrors(env, hs, body, supported, Some(schemas), version) {
      assert Sent(env, hs, ParamHeader(env, a));
      var i := SentBySome(env, hs, ParamHeader(env, a));
      StrippedEnds(env, hs[i].name);
      LineFeedKept(env, a);
      assert false;
    }
  }

  lemma LineFeedKept(env: Env, a: Annotation)
    requires LowersAscii(env.lower) && MatchesToken(a.name) && !IsToken(a.name)
    ensures var h := ParamHeader(env, a); h != [] && h[|h| - 1] == 0x0A
  {
    var n := |a.name| - 1;
    assert Ascii(a.name) by {
      forall j | 0 <= j < |a.name| ensures a.name[j] < 0x80 {
        if j < n { assert a.name[j] == a.name[..n][j]; }
      }
    }
    assert env.lower(a.name) == AsciiLower(a.name);
  }

  /** A stripped ASCII name does not end in a line feed, lowered or not. */
  lemma StrippedEnds(env: Env, s: Text)
    requires LowersAscii(env.lower) && Ascii(s)
    ensures var t := env.lower(Strip(s)); t != [] ==> t[|t| - 1] != 0x0A
  {
    var i, j := StripCuts(s);
    assert forall k :: 0 <= k < |Strip(s)| ==> Strip(s)[k] == s[i + k];
  }
}
