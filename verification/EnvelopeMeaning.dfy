/** What the request-metadata validator decides, told of the request as it was
    sent: which headers go by which names, and what the body holds under which
    keys. */
module EnvelopeMeaning {
  import opened Common
  import opened Text
  import opened JsonText
  import opened Dict
  import opened HeaderValue
  import opened Annotations
  import opened SchemaKeys
  import opened BracketDepth
  import opened Envelope
  import opened EnvelopeMirror

  // ----- headers -----

  /** Some header goes by this name, stripped and lowered. */
  ghost predicate AnySent(env: Env, hs: Headers, name: Text) {
    exists i :: 0 <= i < |hs| && env.lower(Strip(hs[i].name)) == name
  }

  /** Exactly one header goes by this name, and it has this value. */
  ghost predicate OneSent(env: Env, hs: Headers, name: Text, value: Text) {
    exists i :: 0 <= i < |hs| && OnlyOne(env, hs, i, name) && hs[i].value == value
  }

  ghost predicate OnlyOne(env: Env, hs: Headers, i: nat, name: Text) {
    forall j :: 0 <= j < |hs| ==> (env.lower(Strip(hs[j].name)) == name <==> j == i)
  }

  lemma {:induction false} AnySentIs(env: Env, hs: Headers, name: Text)
    ensures Sent(env, hs, name) <==> AnySent(env, hs, name)
    decreases |hs|
  {
    if hs != [] {
      AnySentIs(env, hs[1..], name);
      AnyInParts(env, hs, name);
    }
  }

  lemma AnyInParts(env: Env, hs: Headers, name: Text)
    requires hs != []
    ensures AnySent(env, hs, name) <==> env.lower(Strip(hs[0].name)) == name || AnySent(env, hs[1..], name)
  {
    assert forall i :: 0 <= i < |hs[1..]| ==> hs[1..][i] == hs[i + 1];
    if i :| 0 < i < |hs| && env.lower(Strip(hs[i].name)) == name { assert hs[1..][i - 1] == hs[i]; }
  }

  lemma {:induction false} OneSentIs(env: Env, hs: Headers, name: Text, value: Text)
    ensures SentOnce(env, hs, name, value) <==> OneSent(env, hs, name, value)
    decreases |hs|
  {
    if hs != [] {
      OneSentIs(env, hs[1..], name, value);
      AnySentIs(env, hs[1..], name);
      OneInParts(env, hs, name, value);
      if Normal(env, hs[0]) == name {
        assert [hs[0].value] + ValuesOf(env, hs[1..], name) == [value] <==>
               hs[0].value == value && ValuesOf(env, hs[1..], name) == [] by {
          assert ([hs[0].value] + ValuesOf(env, hs[1..], name))[0] == hs[0].value;
        }
      }
    }
  }

  lemma OneInParts(env: Env, hs: Headers, name: Text, value: Text)
    requires hs != []
    ensures OneSent(env, hs, name, value) <==>
            if env.lower(Strip(hs[0].name)) == name then hs[0].value == value && !AnySent(env, hs[1..], name)
            else OneSent(env, hs[1..], name, value)
  {
    var tail := hs[1..];
    assert forall i :: 0 <= i < |tail| ==> tail[i] == hs[i + 1];
    if env.lower(Strip(hs[0].name)) == name {
      FirstIsOnly(env, hs, name);
      if i :| 0 <= i < |hs| && OnlyOne(env, hs, i, name) && hs[i].value == value { assert i == 0; }
    } else {
      forall i: nat ensures i < |tail| ==> (OnlyOne(env, hs, i + 1, name) <==> OnlyOne(env, tail, i, name)) {
        if i < |tail| { OnlyInTail(env, hs, i, name); }
      }
      if i :| 0 <= i < |tail| && OnlyOne(env, tail, i, name) && tail[i].value == value {
        assert OnlyOne(env, hs, i + 1, name);
      }
      if i :| 0 <= i < |hs| && OnlyOne(env, hs, i, name) && hs[i].value == value {
        assert i > 0 && OnlyOne(env, tail, i - 1, name);
      }
    }
  }

  lemma FirstIsOnly(env: Env, hs: Headers, name: Text)
    requires hs != [] && env.lower(Strip(hs[0].name)) == name
    ensures OnlyOne(env, hs, 0, name) <==> !AnySent(env, hs[1..], name)
  {
    assert forall i :: 0 <= i < |hs[1..]| ==> hs[1..][i] == hs[i + 1];
    if j :| 0 < j < |hs| && env.lower(Strip(hs[j].name)) == name { assert hs[1..][j - 1] == hs[j]; }
  }

  lemma OnlyInTail(env: Env, hs: Headers, i: nat, name: Text)
    requires hs != [] && env.lower(Strip(hs[0].name)) != name && i < |hs[1..]|
    ensures OnlyOne(env, hs, i + 1, name) <==> OnlyOne(env, hs[1..], i, name)
  {
    assert forall j :: 0 <= j < |hs[1..]| ==> hs[1..][j] == hs[j + 1];
    if OnlyOne(env, hs[1..], i, name) {
      forall j | 0 <= j < |hs| ensures env.lower(Strip(hs[j].name)) == name <==> j == i + 1 {
        if j > 0 { assert hs[1..][j - 1] == hs[j]; }
      }
    }
    if OnlyOne(env, hs, i + 1, name) {
      forall j | 0 <= j < |hs[1..]| ensures env.lower(Strip(hs[1..][j].name)) == name <==> j == i {
        assert hs[1..][j] == hs[j + 1];
      }
    }
  }

  predicate RoutingName(r: Text) {
    || r == Lit("mcp-protocol-version") || r == Lit("mcp-method") || r == Lit("mcp-name")
    || StartsWith(r, Lit("mcp-param-"))
  }

  /** s is t, except that some dashes are written as underscores. */
  predicate Respelled(s: Text, t: Text) {
    |s| == |t| && forall i :: 0 <= i < |s| ==> s[i] == t[i] || (s[i] == '_' as int && t[i] == '-' as int)
  }

  /** Another spelling of a routing name: underscores for dashes, or http- before it. */
  ghost predicate Alias(name: Text) {
    exists r :: RoutingName(r) && NoUnderscore(r) && name != r
                && (Respelled(name, r) || Respelled(name, Lit("http-") + r))
  }

  lemma DashedUnless(s: Text, t: Text)
    requires NoUnderscore(t)
    ensures Dashed(s) == t <==> Respelled(s, t)
  {
    DashedIs(s);
    if Respelled(s, t) {
      forall i | 0 <= i < |s| ensures Dashed(s)[i] == t[i] {
        assert t[i] != '_' as int;
      }
    }
  }

  lemma NoHttp(r: Text)
    requires RoutingName(r)
    ensures !StartsWith(r, Lit("http-"))
  {
    assert r[0] == 'm' as int by {
      if StartsWith(r, Lit("mcp-param-")) { assert r[..10][0] == r[0]; }
    }
    assert Lit("http-")[0] == 'h' as int && |r| >= 5;
    assert r[..5][0] == r[0];
  }

  lemma AliasOnlyRespells(name: Text)
    requires AliasOnly(name)
    ensures Alias(name)
  {
    var d, r := Dashed(name), AliasOf(name);
    DashedIs(name);
    assert NoUnderscore(d);
    DashedUnless(name, d);
    if StartsWith(d, Lit("http-")) {
      assert d == Lit("http-") + r;
      assert forall i :: 0 <= i < |r| ==> r[i] == d[i + 5];
    }
    assert RoutingName(r) && NoUnderscore(r);
  }

  lemma RespellingIsAlias(name: Text, r: Text)
    requires RoutingName(r) && NoUnderscore(r) && name != r
    requires Respelled(name, r) || Respelled(name, Lit("http-") + r)
    ensures AliasOnly(name)
  {
    NoHttp(r);
    if Respelled(name, r) {
      DashedUnless(name, r);
    } else {
      var t := Lit("http-") + r;
      assert forall i :: 0 <= i < |t| ==> t[i] == if i < 5 then Lit("http-")[i] else r[i - 5];
      DashedUnless(name, t);
      assert t[..5] == Lit("http-") && t[5..] == r;
    }
  }

  /** The validator takes for aliases exactly the other spellings of routing names. */
  lemma AliasExactlyWhen(name: Text)
    ensures AliasOnly(name) <==> Alias(name)
  {
    if AliasOnly(name) { AliasOnlyRespells(name); }
    if r :| RoutingName(r) && NoUnderscore(r) && name != r
            && (Respelled(name, r) || Respelled(name, Lit("http-") + r)) {
      RespellingIsAlias(name, r);
    }
  }

  ghost predicate Unaliased(env: Env, hs: Headers) {
    forall i :: 0 <= i < |hs| ==> !Alias(env.lower(Strip(hs[i].name)))
  }

  lemma UnaliasedIs(env: Env, hs: Headers)
    ensures AnyAlias(env, hs) <==> !Unaliased(env, hs)
  {
    forall i | 0 <= i < |hs| ensures AliasOnly(Normal(env, hs[i])) <==> Alias(env.lower(Strip(hs[i].name))) {
      AliasExactlyWhen(Normal(env, hs[i]));
    }
  }

  // ----- arguments -----

  /** The key occurs in the arguments, at any depth, or in what a top-level JSON
      text among them spells out. */
  ghost predicate KeySent(loads: Loads, args: Json, key: Text) {
    || HasKey(args, key)
    || (args.Obj? && exists t, d :: HasField(args.fields, Str(t)) && SpellsOut(loads, t, d) && HasKey(d, key))
  }

  lemma {:induction false} OverlayKeys(loads: Loads, fs: Fields, key: Text)
    ensures FieldsHaveKey(fs, key) || FieldsHaveKey(Overlay(loads, fs, None), key) <==>
            || FieldsHaveKey(fs, key)
            || exists t, d :: HasField(fs, Str(t)) && SpellsOut(loads, t, d) && HasKey(d, key)
  {
    if fs.Field? {
      OverlayKeys(loads, fs.rest, key);
      if Decoding(loads, fs.value).Some? {
        var d := Decoding(loads, fs.value).value;
        DecodingIs(loads, fs.value, d);
        assert HasField(fs, Str(fs.value.s));
        assert fs.value == Str(fs.value.s);
      }
      forall t, d | HasField(fs, Str(t)) && SpellsOut(loads, t, d) && HasKey(d, key)
        ensures HasField(fs.rest, Str(t)) || (Decoding(loads, fs.value) == Some(d))
      {
        DecodingIs(loads, fs.value, d);
      }
      forall t, d | HasField(fs.rest, Str(t)) && SpellsOut(loads, t, d) && HasKey(d, key)
        ensures HasField(fs, Str(t))
      {
      }
    }
  }

  lemma KeySentIs(loads: Loads, args: Json, key: Text)
    ensures HasKey(args, key) || HasKey(OverlayArgs(loads, args, None), key) <==> KeySent(loads, args, key)
  {
    if args.Obj? { OverlayKeys(loads, args.fields, key); }
  }

  /** Some key of the arguments as sent, or as decoded, is ambiguous; with a schema
      too large to walk, there are arguments at all. */
  ghost predicate KeyInDoubt(env: Env, schema: Json, args: Json) {
    if Containers(schema) > 100_000 then args != Null && args != Obj(NoFields) && args != Arr(NoItems)
    else exists key :: KeySent(env.loads, args, key) && Ambiguous(schema, env.fold, key)
  }

  lemma FlaggedIsAmbiguous(fold: Fold, schema: Json, v: Json)
    ensures FlaggedIn(Mappings(schema), fold, [], v) != multiset{} <==>
            exists key :: HasKey(v, key) && Ambiguous(schema, fold, key)
  {
    NoneFlaggedExactlyWhen(Mappings(schema), fold, [], v);
    forall key ensures Flagged(Mappings(schema), fold, key) <==> Ambiguous(schema, fold, key) {
      FlaggedExactlyWhen(schema, fold, key);
    }
  }

  lemma KeyInDoubtIs(env: Env, schema: Json, args: Json)
    ensures CaseVariants(env.fold, schema, args)
            || CaseVariants(env.fold, schema, OverlayArgs(env.loads, args, None))
            <==> KeyInDoubt(env, schema, args)
  {
    if Containers(schema) <= 100_000 {
      var decoded := OverlayArgs(env.loads, args, None);
      FlaggedIsAmbiguous(env.fold, schema, args);
      FlaggedIsAmbiguous(env.fold, schema, decoded);
      forall key ensures HasKey(args, key) || HasKey(decoded, key) <==> KeySent(env.loads, args, key) {
        KeySentIs(env.loads, args, key);
      }
    }
  }

  /** A name, trail by trail: each node is the object that has the next under the
      next step. */
  predicate Trail(nodes: seq<Json>, path: seq<Text>) {
    && |nodes| == |path| + 1
    && forall i :: 0 <= i < |path| ==> nodes[i].Obj? && Get(nodes[i].fields, path[i]) == Some(nodes[i + 1])
  }

  /** The argument at a path is what the path's trail ends at, and null without one. */
  lemma {:induction false} ArgAtEnds(args: Json, path: seq<Text>, v: Json)
    requires v != Null
    ensures ArgAt(args, path) == v <==>
            exists nodes :: Trail(nodes, path) && nodes[0] == args && nodes[|path|] == v
    decreases |path|
  {
    if path == [] {
      if args == v { assert Trail([args], path); }
    } else {
      if args.Obj? && Get(args.fields, path[0]).Some? {
        ArgAtEnds(Get(args.fields, path[0]).value, path[1..], v);
      }
      if ArgAt(args, path) == v {
        var rest :| Trail(rest, path[1..]) && rest[0] == Get(args.fields, path[0]).value && rest[|path| - 1] == v;
        var nodes := [args] + rest;
        assert forall i :: 0 < i < |path| ==> path[i] == path[1..][i - 1];
        assert Trail(nodes, path) && nodes[0] == args && nodes[|path|] == v;
      }
      if nodes :| Trail(nodes, path) && nodes[0] == args && nodes[|path|] == v {
        assert forall i :: 0 <= i < |path| - 1 ==> path[1..][i] == path[i + 1];
        assert Trail(nodes[1..], path[1..]) && nodes[1..][0] == nodes[1];
      }
    }
  }

  /** The top-level argument as the server runs it: decoded where a valid annotation
      reaches through the JSON text it spells out. */
  ghost predicate Runs(env: Env, schema: Json, args: Fields, key: Text, v: Json) {
    if exists t, d :: Get(args, key) == Some(Str(t)) && SpellsOut(env.loads, t, d) && ReachedThrough(env, schema, key)
    then exists t :: Get(args, key) == Some(Str(t)) && SpellsOut(env.loads, t, v)
    else Get(args, key) == Some(v)
  }

  ghost predicate ReachedThrough(env: Env, schema: Json, key: Text) {
    exists a :: FirstClaimant(env.lower, WalkRoot(schema), a) && |a.path| > 1 && a.path[0] == key
  }

  lemma {:induction false} OverlayAt(loads: Loads, fs: Fields, through: set<Text>, key: Text)
    ensures Get(Overlay(loads, fs, Some(through)), key)
            == if Get(fs, key).Some? && Decoding(loads, Get(fs, key).value).Some? && key in through
               then Decoding(loads, Get(fs, key).value) else Get(fs, key)
  {
    if fs.Field? { OverlayAt(loads, fs.rest, through, key); }
  }

  lemma RunsIs(env: Env, schema: Json, args: Fields, key: Text, v: Json)
    ensures Get(EffectiveArgs(env.loads, Valid(env.lower, WalkRoot(schema)), Obj(args)).fields, key) == Some(v)
            <==> Runs(env, schema, args, key, v)
  {
    var anns := Valid(env.lower, WalkRoot(schema));
    OverlayAt(env.loads, args, Through(anns), key);
    ThroughIs(env, schema, key);
    if Get(args, key).Some? {
      forall d ensures Decoding(env.loads, Get(args, key).value) == Some(d) <==>
                       Get(args, key).value.Str? && SpellsOut(env.loads, Get(args, key).value.s, d)
      {
        DecodingIs(env.loads, Get(args, key).value, d);
      }
    }
  }

  lemma ThroughIs(env: Env, schema: Json, key: Text)
    ensures key in Through(Valid(env.lower, WalkRoot(schema))) <==> ReachedThrough(env, schema, key)
  {
    forall a ensures a in Valid(env.lower, WalkRoot(schema)) <==> FirstClaimant(env.lower, WalkRoot(schema), a) {
      ValidExactly(env.lower, WalkRoot(schema), a);
    }
  }

  /** v is the argument at the path as the server runs it, and present. */
  ghost predicate ArgumentRun(env: Env, schema: Json, args: Json, path: seq<Text>, v: Json) {
    && v != Null && args.Obj? && path != []
    && exists nodes :: Trail(nodes, path[1..]) && Runs(env, schema, args.fields, path[0], nodes[0])
                       && nodes[|path| - 1] == v
  }

  lemma ArgumentRunIs(env: Env, schema: Json, args: Json, path: seq<Text>, v: Json)
    requires path != [] && v != Null
    ensures ArgumentRun(env, schema, args, path, v) <==>
            ArgAt(EffectiveArgs(env.loads, Valid(env.lower, WalkRoot(schema)), args), path) == v
  {
    var run := EffectiveArgs(env.loads, Valid(env.lower, WalkRoot(schema)), args);
    if args.Obj? {
      forall top ensures Get(run.fields, path[0]) == Some(top) <==> Runs(env, schema, args.fields, path[0], top) {
        RunsIs(env, schema, args.fields, path[0], top);
      }
      if Get(run.fields, path[0]).Some? {
        ArgAtEnds(Get(run.fields, path[0]).value, path[1..], v);
      }
    }
  }

  /** How a header shows a text: as it is when plain, else as base64 of its UTF-8. */
  predicate Carries(x: Text, s: Text) {
    if Plain(s) then x == s else Encodable(s) && x == Lit("=?base64?") + Base64(Utf8(s)) + Lit("?=")
  }

  lemma CarriesIs(x: Text, s: Text)
    ensures EncodeHeaderValue(s) == Some(x) <==> Carries(x, s)
  {
    PlainExactlyWhen(s);
  }

  /** How a parameter header shows an argument; only booleans, integers that fit a
      double, and texts are shown. */
  predicate Shows(x: Text, v: Json) {
    match v
    case Bool(b) => x == if b then Lit("true") else Lit("false")
    case Int(n) =>
      && -9007199254740991 <= n <= 9007199254740991
      && SignedDecimal(x, n)
    case Str(s) => Carries(x, s)
    case _ => false
  }

  lemma ShowsIs(x: Text, v: Json)
    ensures Render(v) == Some(x) <==> Shows(x, v)
  {
    if v.Str? {
      CarriesIs(x, v.s);
    } else if v.Int? {
      IntTextIs(x, v.n);
    }
  }

  /** The annotation's header shows the argument the server runs, once, and is not
      sent when there is none. */
  ghost predicate Shown(env: Env, hs: Headers, schema: Json, args: Json, a: Annotation) {
    var header := Lit("mcp-param-") + env.lower(a.name);
    && (forall v :: ArgumentRun(env, schema, args, a.path, v) ==>
                      exists x :: Shows(x, v) && OneSent(env, hs, header, x))
    && ((forall v :: !ArgumentRun(env, schema, args, a.path, v)) ==> !AnySent(env, hs, header))
  }

  lemma ShownIs(env: Env, hs: Headers, schema: Json, args: Json, a: Annotation)
    requires a.path != []
    ensures var anns := Valid(env.lower, WalkRoot(schema));
            ParamMirrored(env, hs, a, EffectiveArgs(env.loads, anns, args)) <==> Shown(env, hs, schema, args, a)
  {
    var v := ArgAt(EffectiveArgs(env.loads, Valid(env.lower, WalkRoot(schema)), args), a.path);
    var header := ParamHeader(env, a);
    forall w ensures ArgumentRun(env, schema, args, a.path, w) <==> w != Null && w == v {
      if w != Null { ArgumentRunIs(env, schema, args, a.path, w); }
    }
    AnySentIs(env, hs, header);
    if v != Null {
      assert ArgumentRun(env, schema, args, a.path, v);
      forall x ensures Render(v) == Some(x) <==> Shows(x, v) { ShowsIs(x, v); }
      forall x ensures SentOnce(env, hs, header, x) <==> OneSent(env, hs, header, x) { OneSentIs(env, hs, header, x); }
    }
  }

  /** The headers of the parameters are those of the annotations, and the arguments
      are fit to be compared with them. */
  ghost predicate ArgumentsShown(env: Env, hs: Headers, schema: Json, args: Json) {
    && !TextTooDeep(args) && !KeyInDoubt(env, schema, args)
    && (forall a :: FirstClaimant(env.lower, WalkRoot(schema), a) ==> Shown(env, hs, schema, args, a))
    && forall i :: 0 <= i < |hs| && StartsWith(env.lower(Strip(hs[i].name)), Lit("mcp-param-")) ==>
         exists a :: FirstClaimant(env.lower, WalkRoot(schema), a)
                     && env.lower(Strip(hs[i].name)) == Lit("mcp-param-") + env.lower(a.name)
  }

  lemma DeclaredSentIs(env: Env, hs: Headers, schema: Json)
    ensures OnlyDeclaredSent(env, hs, Valid(env.lower, WalkRoot(schema))) <==>
            forall i :: 0 <= i < |hs| && StartsWith(env.lower(Strip(hs[i].name)), Lit("mcp-param-")) ==>
              exists a :: FirstClaimant(env.lower, WalkRoot(schema), a)
                          && env.lower(Strip(hs[i].name)) == Lit("mcp-param-") + env.lower(a.name)
  {
    var anns := Valid(env.lower, WalkRoot(schema));
    forall a ensures a in anns <==> FirstClaimant(env.lower, WalkRoot(schema), a) {
      ValidExactly(env.lower, WalkRoot(schema), a);
    }
    forall h ensures Sent(env, hs, h) <==> AnySent(env, hs, h) { AnySentIs(env, hs, h); }
    if OnlyDeclaredSent(env, hs, anns) {
      forall i | 0 <= i < |hs| && StartsWith(env.lower(Strip(hs[i].name)), Lit("mcp-param-"))
        ensures exists a :: FirstClaimant(env.lower, WalkRoot(schema), a)
                            && env.lower(Strip(hs[i].name)) == Lit("mcp-param-") + env.lower(a.name)
      {
        var h := env.lower(Strip(hs[i].name));
        assert AnySent(env, hs, h) && IsParam(h);
        var a :| a in anns && ParamHeader(env, a) == h;
      }
    }
  }

  lemma ArgumentsShownIs(env: Env, hs: Headers, schema: Json, args: Json)
    ensures ParamsAccepted(env, hs, schema, args) <==> ArgumentsShown(env, hs, schema, args)
  {
    KeyInDoubtIs(env, schema, args);
    if args.Obj? { RefusedExactlyWhen(args.fields); }
    DeclaredSentIs(env, hs, schema);
    var anns := Valid(env.lower, WalkRoot(schema));
    forall a ensures a in anns <==> FirstClaimant(env.lower, WalkRoot(schema), a) {
      ValidExactly(env.lower, WalkRoot(schema), a);
    }
    forall a | a in anns
      ensures ParamMirrored(env, hs, a, EffectiveArgs(env.loads, anns, args)) <==> Shown(env, hs, schema, args, a)
    {
      WalkRootFinds(schema, a);
      ShownIs(env, hs, schema, args, a);
    }
  }

  // ----- requests -----

  /** A request object with its method, its params and the version in their _meta. */
  predicate Request(body: Json, rpc: Text, params: Fields, version: Text) {
    && body.Obj? && Get(body.fields, Lit("method")) == Some(Str(rpc))
    && Get(body.fields, Lit("params")) == Some(Obj(params))
    && Get(params, Lit("_meta")).Some? && Get(params, Lit("_meta")).value.Obj?
    && Get(Get(params, Lit("_meta")).value.fields, Lit("io.modelcontextprotocol/protocolVersion")) == Some(Str(version))
  }

  /** The name header shows this parameter, a text. */
  ghost predicate NameShown(env: Env, hs: Headers, name: Option<Json>) {
    exists s, x :: name == Some(Str(s)) && Carries(x, s) && OneSent(env, hs, Lit("mcp-name"), x)
  }

  ghost predicate NameSent(env: Env, hs: Headers, rpc: Text, params: Fields) {
    if rpc == Lit("tools/call") || rpc == Lit("prompts/get") then NameShown(env, hs, Get(params, Lit("name")))
    else if rpc == Lit("resources/read") then NameShown(env, hs, Get(params, Lit("uri")))
    else !AnySent(env, hs, Lit("mcp-name"))
  }

  function ArgumentsOf(params: Fields): Json {
    if Get(params, Lit("arguments")).Some? then Get(params, Lit("arguments")).value else Null
  }

  ghost predicate ParametersSent(env: Env, hs: Headers, rpc: Text, params: Fields, schemas: Option<map<Text, Json>>) {
    if rpc != Lit("tools/call") || schemas.None? then
      forall i :: 0 <= i < |hs| ==> !StartsWith(env.lower(Strip(hs[i].name)), Lit("mcp-param-"))
    else
      exists tool :: Get(params, Lit("name")) == Some(Str(tool)) && tool in schemas.value
                     && ArgumentsShown(env, hs, schemas.value[tool], ArgumentsOf(params))
  }

  lemma RequestParts(body: Json, rpc: Text, params: Fields, version: Text)
    requires Request(body, rpc, params, version)
    ensures MethodOf(body) == Some(rpc) && Params(body) == Obj(params) && RawArgs(body) == ArgumentsOf(params)
    ensures Lookup(Meta(body), META_VERSION) == Some(Str(version))
  {
  }

  lemma NameSentIs(env: Env, hs: Headers, body: Json, rpc: Text, params: Fields)
    requires MethodOf(body) == Some(rpc) && Params(body) == Obj(params)
    ensures NameMirrored(env, hs, body) <==> NameSent(env, hs, rpc, params)
  {
    AnySentIs(env, hs, NAME_HEADER);
    forall x ensures SentOnce(env, hs, NAME_HEADER, x) <==> OneSent(env, hs, NAME_HEADER, x) {
      OneSentIs(env, hs, NAME_HEADER, x);
    }
    forall x, s ensures EncodeHeaderValue(s) == Some(x) <==> Carries(x, s) { CarriesIs(x, s); }
    forall s ensures EncodeHeaderValue(s).Some? <==> Encodable(s) { EncodesExactlyEncodable(s); }
    NameMethods();
  }

  lemma NameMethods()
    ensures Lit("tools/call") != Lit("resources/read") && Lit("prompts/get") != Lit("resources/read")
  {
    assert |Lit("tools/call")| == 10 && |Lit("prompts/get")| == 11 && |Lit("resources/read")| == 14;
  }

  lemma ParametersSentIs(env: Env, hs: Headers, body: Json, rpc: Text, params: Fields,
                         schemas: Option<map<Text, Json>>)
    requires MethodOf(body) == Some(rpc) && Params(body) == Obj(params) && RawArgs(body) == ArgumentsOf(params)
    ensures ToolMirrored(env, hs, body, schemas) <==> ParametersSent(env, hs, rpc, params, schemas)
  {
    if rpc != Lit("tools/call") || schemas.None? {
      forall h ensures Sent(env, hs, h) <==> AnySent(env, hs, h) { AnySentIs(env, hs, h); }
      if ToolMirrored(env, hs, body, schemas) {
        forall i | 0 <= i < |hs| ensures !StartsWith(env.lower(Strip(hs[i].name)), Lit("mcp-param-")) {
          assert AnySent(env, hs, env.lower(Strip(hs[i].name)));
        }
      }
    } else {
      var tool := TextOf(Get(params, Lit("name")));
      if tool.Some? && tool.value in schemas.value {
        ArgumentsShownIs(env, hs, schemas.value[tool.value], RawArgs(body));
      }
    }
  }

  /** A request of a version is accepted exactly when the version is supported, no
      header goes by another spelling of a routing name, and the routing headers,
      each sent once, show its version, its method, its name and its arguments. */
  lemma RequestAcceptedExactlyWhen(env: Env, hs: Headers, body: Json, rpc: Text, params: Fields, version: Text,
                                   supported: set<Text>, schemas: Option<map<Text, Json>>)
    requires Request(body, rpc, params, version)
    ensures Judge(env, hs, body, supported, schemas) == Accept(version) <==>
            && version in supported && Unaliased(env, hs)
            && OneSent(env, hs, Lit("mcp-protocol-version"), version) && OneSent(env, hs, Lit("mcp-method"), rpc)
            && NameSent(env, hs, rpc, params) && ParametersSent(env, hs, rpc, params, schemas)
  {
    AcceptedExactlyWhen(env, hs, body, supported, schemas, version);
    RequestParts(body, rpc, params, version);
    UnaliasedIs(env, hs);
    OneSentIs(env, hs, Lit("mcp-protocol-version"), version);
    OneSentIs(env, hs, Lit("mcp-method"), rpc);
    NameSentIs(env, hs, body, rpc, params);
    ParametersSentIs(env, hs, body, rpc, params, schemas);
  }

  /** Nothing but such requests is ever accepted, and only as of their own version. */
  lemma OnlyRequestsAccepted(env: Env, hs: Headers, body: Json, supported: set<Text>,
                             schemas: Option<map<Text, Json>>, version: Text) returns (rpc: Text, params: Fields)
    requires Judge(env, hs, body, supported, schemas) == Accept(version)
    ensures Request(body, rpc, params, version)
  {
    AcceptedExactlyWhen(env, hs, body, supported, schemas, version);
    rpc, params := MethodOf(body).value, Params(body).fields;
  }

  /** With a schema that is not too large, exact and case-insensitive binding agree
      on every accepted call: wherever a key of the arguments occurs, as sent or as
      decoded, each mapping that declares a name with its fold declares that key. */
  lemma AcceptedKeysBind(env: Env, hs: Headers, body: Json, params: Fields, version: Text, supported: set<Text>,
                         schemas: map<Text, Json>, tool: Text, key: Text, p: Fields, n: Text)
    requires Judge(env, hs, body, supported, Some(schemas)) == Accept(version)
    requires Request(body, Lit("tools/call"), params, version)
    requires Get(params, Lit("name")) == Some(Str(tool)) && tool in schemas && Containers(schemas[tool]) <= 100_000
    requires KeySent(env.loads, ArgumentsOf(params), key)
    requires Declaring(schemas[tool], p) && Get(p, n).Some? && env.fold(n) == env.fold(key)
    ensures Get(p, key).Some?
  {
    RequestAcceptedExactlyWhen(env, hs, body, Lit("tools/call"), params, version, supported, Some(schemas));
    KeysBind(env, schemas[tool], ArgumentsOf(params), key, p, n);
  }

  lemma KeysBind(env: Env, schema: Json, args: Json, key: Text, p: Fields, n: Text)
    requires !KeyInDoubt(env, schema, args) && Containers(schema) <= 100_000 && KeySent(env.loads, args, key)
    requires Declaring(schema, p) && Get(p, n).Some? && env.fold(n) == env.fold(key)
    ensures Get(p, key).Some?
  {
    assert !Ambiguous(schema, env.fold, key);
    assert DeclaredName(schema, n);
    if Get(p, key).None? {
      assert Parted(schema, key, n);
      assert false;
    }
  }

  /** With everything before it in order, a call is refused for its keys exactly
      when one of them is in doubt. */
  lemma RefusedForKeysExactlyWhen(env: Env, hs: Headers, body: Json, params: Fields, version: Text,
                                  supported: set<Text>, schemas: map<Text, Json>, tool: Text)
    requires Request(body, Lit("tools/call"), params, version) && version in supported && Unaliased(env, hs)
    requires OneSent(env, hs, Lit("mcp-protocol-version"), version)
    requires OneSent(env, hs, Lit("mcp-method"), Lit("tools/call")) && NameSent(env, hs, Lit("tools/call"), params)
    requires Get(params, Lit("name")) == Some(Str(tool)) && tool in schemas
    ensures var args := ArgumentsOf(params);
            && (Judge(env, hs, body, supported, Some(schemas)) == Reject(ArgumentTooDeep) <==> TextTooDeep(args))
            && (Judge(env, hs, body, supported, Some(schemas)) == Reject(CaseVariantArgument) <==>
                !TextTooDeep(args) && KeyInDoubt(env, schemas[tool], args))
  {
    RequestParts(body, Lit("tools/call"), params, version);
    RoutedPasses(env, hs, body, Lit("tools/call"), params, version, supported);
    ToolDecides(env, hs, body, supported, schemas, tool);
    KeysDecide(env, Collect(env, hs), schemas[tool], ArgumentsOf(params));
  }

  lemma RoutedPasses(env: Env, hs: Headers, body: Json, rpc: Text, params: Fields, version: Text, supported: set<Text>)
    requires Request(body, rpc, params, version) && version in supported && Unaliased(env, hs)
    requires OneSent(env, hs, Lit("mcp-protocol-version"), version)
    requires OneSent(env, hs, Lit("mcp-method"), rpc) && NameSent(env, hs, rpc, params)
    ensures MethodOf(body) == Some(rpc) && !AnyAlias(env, hs)
    ensures CheckVersion(Collect(env, hs), body, supported).None? && CheckRouting(Collect(env, hs), body).None?
  {
    RequestParts(body, rpc, params, version);
    UnaliasedIs(env, hs);
    OneSentIs(env, hs, Lit("mcp-protocol-version"), version);
    OneSentIs(env, hs, Lit("mcp-method"), rpc);
    NameSentIs(env, hs, body, rpc, params);
    CheckVersionAgrees(env, hs, body, supported);
    CheckRoutingAgrees(env, hs, body);
  }

  lemma ToolDecides(env: Env, hs: Headers, body: Json, supported: set<Text>, schemas: map<Text, Json>, tool: Text)
    requires !AnyAlias(env, hs) && MethodOf(body) == Some(Lit("tools/call"))
    requires CheckVersion(Collect(env, hs), body, supported).None? && CheckRouting(Collect(env, hs), body).None?
    requires TextOf(Lookup(Params(body), Lit("name"))) == Some(tool) && tool in schemas
    ensures forall r :: Judge(env, hs, body, supported, Some(schemas)) == Reject(r) <==>
                        CheckParams(env, Collect(env, hs), schemas[tool], RawArgs(body)) == Some(r)
  {
  }

  lemma KeysDecide(env: Env, m: Multimap, schema: Json, args: Json)
    ensures CheckParams(env, m, schema, args) == Some(ArgumentTooDeep) <==> TextTooDeep(args)
    ensures CheckParams(env, m, schema, args) == Some(CaseVariantArgument) <==>
            !TextTooDeep(args) && KeyInDoubt(env, schema, args)
  {
    var anns := Valid(env.lower, WalkRoot(schema));
    KeyInDoubtIs(env, schema, args);
    if args.Obj? { RefusedExactlyWhen(args.fields); }
    EachReason(env, m, anns, EffectiveArgs(env.loads, anns, args));
  }

  lemma {:induction false} EachReason(env: Env, m: Multimap, anns: seq<Annotation>, args: Json)
    ensures CheckEach(env, m, anns, args) in {None, Some(ParamMismatch)}
    decreases |anns|
  {
    if anns != [] { EachReason(env, m, anns[1..], args); }
  }

  // ----- what the other requests are refused for -----

  lemma SingleIs(env: Env, hs: Headers, name: Text)
    ensures SingleOf(Collect(env, hs), name) == Missing <==> !AnySent(env, hs, name)
    ensures forall v :: SingleOf(Collect(env, hs), name) == One(v) <==> OneSent(env, hs, name, v)
    ensures SingleOf(Collect(env, hs), name).Several? <==>
            AnySent(env, hs, name) && forall v :: !OneSent(env, hs, name, v)
  {
    SingleAgrees(env, hs, name);
    AnySentIs(env, hs, name);
    forall v ensures SentOnce(env, hs, name, v) <==> OneSent(env, hs, name, v) { OneSentIs(env, hs, name, v); }
  }

  /** Some header belongs to the modern transport alone. */
  ghost predicate ModernSent(env: Env, hs: Headers) {
    || AnySent(env, hs, Lit("mcp-method")) || AnySent(env, hs, Lit("mcp-name"))
    || exists i :: 0 <= i < |hs| && StartsWith(env.lower(Strip(hs[i].name)), Lit("mcp-param-"))
  }

  lemma ModernSentIs(env: Env, hs: Headers)
    ensures var m := Collect(env, hs);
            ModernSent(env, hs) <==> METHOD_HEADER in m || NAME_HEADER in m || SomeParam(m)
  {
    SomeParamAgrees(env, hs);
    forall h ensures h in Collect(env, hs) <==> AnySent(env, hs, h) {
      CollectHolds(env, hs, h);
      AnySentIs(env, hs, h);
    }
    if i :| 0 <= i < |hs| && StartsWith(env.lower(Strip(hs[i].name)), Lit("mcp-param-")) {
      assert AnySent(env, hs, env.lower(Strip(hs[i].name)));
    }
  }

  /** The body could be a legacy request: nothing modern is sent with it, and the
      version header is absent or names a legacy version. */
  ghost predicate LegacySent(env: Env, hs: Headers) {
    && !ModernSent(env, hs)
    && (|| !AnySent(env, hs, Lit("mcp-protocol-version"))
        || exists v :: OneSent(env, hs, Lit("mcp-protocol-version"), v)
             && (v == Lit("2025-11-25") || v == Lit("2025-06-18") || v == Lit("2025-03-26") || v == Lit("2024-11-05")))
  }

  /** Nothing modern is sent, and one version that is neither legacy nor supported. */
  ghost predicate UnknownSent(env: Env, hs: Headers, supported: set<Text>) {
    && !ModernSent(env, hs)
    && exists v :: OneSent(env, hs, Lit("mcp-protocol-version"), v) && v !in supported
         && v != Lit("2025-11-25") && v != Lit("2025-06-18") && v != Lit("2025-03-26") && v != Lit("2024-11-05")
  }

  lemma GateIs(env: Env, hs: Headers, supported: set<Text>)
    ensures LegacyGate(Collect(env, hs), supported).None? <==> LegacySent(env, hs)
    ensures LegacyGate(Collect(env, hs), supported) == Some(UnsupportedVersion) <==> UnknownSent(env, hs, supported)
    ensures LegacyGate(Collect(env, hs), supported)
            in {None, Some(UnsupportedVersion), Some(ParamMismatch), Some(Mismatch(METHOD_HEADER)),
                Some(Mismatch(NAME_HEADER)), Some(Mismatch(VERSION_HEADER))}
  {
    ModernSentIs(env, hs);
    SingleIs(env, hs, Lit("mcp-protocol-version"));
  }

  /** A request with a method whose params carry no _meta, or one without a version. */
  predicate Unversioned(body: Json) {
    && body.Obj? && Get(body.fields, Lit("method")).Some? && Get(body.fields, Lit("method")).value.Str?
    && var params := Get(body.fields, Lit("params"));
    || params.None? || !params.value.Obj?
    || Get(params.value.fields, Lit("_meta")) in {None, Some(Null)}
    || (Get(params.value.fields, Lit("_meta")).value.Obj?
        && Get(Get(params.value.fields, Lit("_meta")).value.fields,
               Lit("io.modelcontextprotocol/protocolVersion")).None?)
  }

  /** A request with a method whose _meta is no object, or names no text as version. */
  predicate BadMeta(body: Json) {
    && body.Obj? && Get(body.fields, Lit("method")).Some? && Get(body.fields, Lit("method")).value.Str?
    && var params := Get(body.fields, Lit("params"));
    && params.Some? && params.value.Obj?
    && Get(params.value.fields, Lit("_meta")).Some?
    && var meta := Get(params.value.fields, Lit("_meta")).value;
    && meta != Null
    && (meta.Obj? ==> Get(meta.fields, Lit("io.modelcontextprotocol/protocolVersion")).Some?
                      && !Get(meta.fields, Lit("io.modelcontextprotocol/protocolVersion")).value.Str?)
  }

  lemma JudgedByVersion(env: Env, hs: Headers, body: Json, supported: set<Text>, schemas: Option<map<Text, Json>>,
                        r: Reason)
    requires r in {HeaderAlias, Batch, NotARequest, InvalidRequest, InvalidMeta, MissingMeta, UnsupportedVersion}
    ensures Judge(env, hs, body, supported, schemas) == Reject(r) <==>
            if AnyAlias(env, hs) then r == HeaderAlias else CheckVersion(Collect(env, hs), body, supported) == Some(r)
  {
    var m := Collect(env, hs);
    if !AnyAlias(env, hs) && CheckVersion(m, body, supported).None? {
      MethodRead(m, body, supported);
      RoutingReasons(m, body);
      ToolReasons(env, m, body, schemas);
    }
  }

  lemma MethodRead(m: Multimap, body: Json, supported: set<Text>)
    requires CheckVersion(m, body, supported).None?
    ensures MethodOf(body).Some?
  {
  }

  lemma RoutingReasons(m: Multimap, body: Json)
    requires MethodOf(body).Some?
    ensures CheckRouting(m, body)
            in {None, Some(Mismatch(METHOD_HEADER)), Some(Mismatch(NAME_HEADER)), Some(InvalidName)}
  {
  }

  lemma ToolReasons(env: Env, m: Multimap, body: Json, schemas: Option<map<Text, Json>>)
    ensures CheckTool(env, m, body, schemas)
            in {None, Some(ParamMismatch), Some(UnknownTool), Some(CaseVariantArgument), Some(ArgumentTooDeep)}
  {
    if MethodOf(body) == Some(TOOLS_CALL) && schemas.Some? {
      var tool := TextOf(Lookup(Params(body), Lit("name")));
      if tool.Some? && tool.value in schemas.value {
        var anns := Valid(env.lower, WalkRoot(schemas.value[tool.value]));
        EachReason(env, m, anns, EffectiveArgs(env.loads, anns, RawArgs(body)));
      }
    }
  }

  lemma BatchIs(m: Multimap, body: Json, supported: set<Text>)
    requires LegacyGate(m, supported) != Some(Batch)
    ensures CheckVersion(m, body, supported) == Some(Batch) <==> body.Arr? && LegacyGate(m, supported).None?
  {
  }

  lemma MissingMetaIs(m: Multimap, body: Json, supported: set<Text>)
    requires LegacyGate(m, supported) != Some(MissingMeta)
    ensures CheckVersion(m, body, supported) == Some(MissingMeta) <==>
            Unversioned(body) && LegacyGate(m, supported).None?
  {
    if LegacyGate(m, supported).None? { assert !SingleOf(m, VERSION_HEADER).Several?; }
  }

  /** The two refusals after which a server may fall back to a legacy handler are
      given exactly to what a legacy client could have sent. */
  lemma FallbackExactlyWhen(env: Env, hs: Headers, body: Json, supported: set<Text>, schemas: Option<map<Text, Json>>)
    ensures Judge(env, hs, body, supported, schemas) == Reject(Batch) <==>
            Unaliased(env, hs) && body.Arr? && LegacySent(env, hs)
    ensures Judge(env, hs, body, supported, schemas) == Reject(MissingMeta) <==>
            Unaliased(env, hs) && Unversioned(body) && LegacySent(env, hs)
  {
    UnaliasedIs(env, hs);
    GateIs(env, hs, supported);
    BatchIs(Collect(env, hs), body, supported);
    MissingMetaIs(Collect(env, hs), body, supported);
    JudgedByVersion(env, hs, body, supported, schemas, Batch);
    JudgedByVersion(env, hs, body, supported, schemas, MissingMeta);
  }

  lemma MalformedIs(m: Multimap, body: Json, supported: set<Text>)
    requires LegacyGate(m, supported) !in {Some(NotARequest), Some(InvalidRequest), Some(InvalidMeta)}
    ensures CheckVersion(m, body, supported) == Some(NotARequest) <==>
            body.Obj? && Get(body.fields, Lit("method")).None?
    ensures CheckVersion(m, body, supported) == Some(InvalidRequest) <==>
            !body.Arr? && (body.Obj? ==> exists v :: Get(body.fields, Lit("method")) == Some(v) && !v.Str?)
  {
  }

  lemma BadMetaIs(m: Multimap, body: Json, supported: set<Text>)
    requires LegacyGate(m, supported) != Some(InvalidMeta)
    ensures CheckVersion(m, body, supported) == Some(InvalidMeta) <==>
            BadMeta(body) && !SingleOf(m, VERSION_HEADER).Several?
  {
  }

  /** A body that is no well-formed request is refused as just that. */
  lemma MalformedExactlyWhen(env: Env, hs: Headers, body: Json, supported: set<Text>,
                             schemas: Option<map<Text, Json>>)
    ensures Judge(env, hs, body, supported, schemas) == Reject(HeaderAlias) <==> !Unaliased(env, hs)
    ensures Judge(env, hs, body, supported, schemas) == Reject(NotARequest) <==>
            Unaliased(env, hs) && body.Obj? && Get(body.fields, Lit("method")).None?
    ensures Judge(env, hs, body, supported, schemas) == Reject(InvalidRequest) <==>
            && Unaliased(env, hs) && !body.Arr?
            && (body.Obj? ==> exists v :: Get(body.fields, Lit("method")) == Some(v) && !v.Str?)
    ensures Judge(env, hs, body, supported, schemas) == Reject(InvalidMeta) <==>
            && Unaliased(env, hs) && BadMeta(body)
            && (AnySent(env, hs, Lit("mcp-protocol-version")) ==>
                exists v :: OneSent(env, hs, Lit("mcp-protocol-version"), v))
  {
    UnaliasedIs(env, hs);
    GateIs(env, hs, supported);
    SingleIs(env, hs, Lit("mcp-protocol-version"));
    MalformedIs(Collect(env, hs), body, supported);
    BadMetaIs(Collect(env, hs), body, supported);
    JudgedByVersion(env, hs, body, supported, schemas, HeaderAlias);
    JudgedByVersion(env, hs, body, supported, schemas, NotARequest);
    JudgedByVersion(env, hs, body, supported, schemas, InvalidRequest);
    JudgedByVersion(env, hs, body, supported, schemas, InvalidMeta);
    NoAliasReason(Collect(env, hs), body, supported);
  }

  lemma NoAliasReason(m: Multimap, body: Json, supported: set<Text>)
    ensures CheckVersion(m, body, supported) != Some(HeaderAlias)
  {
  }

  lemma UnsupportedIs(m: Multimap, body: Json, supported: set<Text>)
    requires SingleOf(m, VERSION_HEADER).Several? ==> LegacyGate(m, supported) != Some(UnsupportedVersion)
    ensures CheckVersion(m, body, supported) == Some(UnsupportedVersion) <==>
            || ((body.Arr? || Unversioned(body)) && LegacyGate(m, supported) == Some(UnsupportedVersion))
            || exists rpc, params, version :: Request(body, rpc, params, version) && version !in supported
                 && SingleOf(m, VERSION_HEADER) == One(version)
  {
    if MethodOf(body).Some? && Meta(body).Obj? && Lookup(Meta(body), META_VERSION).Some?
       && Lookup(Meta(body), META_VERSION).value.Str? {
      assert Request(body, MethodOf(body).value, Params(body).fields, Lookup(Meta(body), META_VERSION).value.s);
    }
  }

  /** A version is called unsupported exactly when it is and the request says it
      consistently, or is a legacy one but for it. */
  lemma UnsupportedExactlyWhen(env: Env, hs: Headers, body: Json, supported: set<Text>,
                               schemas: Option<map<Text, Json>>)
    ensures Judge(env, hs, body, supported, schemas) == Reject(UnsupportedVersion) <==>
            && Unaliased(env, hs)
            && (|| ((body.Arr? || Unversioned(body)) && UnknownSent(env, hs, supported))
                || exists rpc, params, version :: Request(body, rpc, params, version) && version !in supported
                     && OneSent(env, hs, Lit("mcp-protocol-version"), version))
  {
    UnaliasedIs(env, hs);
    GateIs(env, hs, supported);
    SingleIs(env, hs, Lit("mcp-protocol-version"));
    UnsupportedIs(Collect(env, hs), body, supported);
    JudgedByVersion(env, hs, body, supported, schemas, UnsupportedVersion);
  }

  lemma JudgedByRouting(env: Env, hs: Headers, body: Json, supported: set<Text>, schemas: Option<map<Text, Json>>)
    requires !AnyAlias(env, hs) && CheckVersion(Collect(env, hs), body, supported).None? && MethodOf(body).Some?
    ensures Judge(env, hs, body, supported, schemas) == Reject(InvalidName) <==>
            CheckRouting(Collect(env, hs), body) == Some(InvalidName)
    ensures Judge(env, hs, body, supported, schemas) == Reject(UnknownTool) <==>
            CheckRouting(Collect(env, hs), body).None?
            && CheckTool(env, Collect(env, hs), body, schemas) == Some(UnknownTool)
  {
    RoutingReasons(Collect(env, hs), body);
    ToolReasons(env, Collect(env, hs), body, schemas);
  }

  lemma UnknownToolIs(env: Env, m: Multimap, body: Json, schemas: Option<map<Text, Json>>)
    ensures CheckTool(env, m, body, schemas) == Some(UnknownTool) <==>
            MethodOf(body) == Some(TOOLS_CALL) && schemas.Some?
            && var tool := TextOf(Lookup(Params(body), Lit("name"))); tool.None? || tool.value !in schemas.value
  {
    if MethodOf(body) == Some(TOOLS_CALL) && schemas.Some? {
      var tool := TextOf(Lookup(Params(body), Lit("name")));
      if tool.Some? && tool.value in schemas.value {
        NeverUnknown(env, m, schemas.value[tool.value], RawArgs(body));
      }
    }
  }

  lemma NeverUnknown(env: Env, m: Multimap, schema: Json, args: Json)
    ensures CheckParams(env, m, schema, args) != Some(UnknownTool)
  {
    var anns := Valid(env.lower, WalkRoot(schema));
    EachReason(env, m, anns, EffectiveArgs(env.loads, anns, args));
  }

  /** A request whose name no header could show is refused for that, and a call of
      a tool without a schema for that. */
  lemma UnnamedExactlyWhen(env: Env, hs: Headers, body: Json, rpc: Text, params: Fields, version: Text,
                           supported: set<Text>, schemas: Option<map<Text, Json>>)
    requires Request(body, rpc, params, version) && version in supported && Unaliased(env, hs)
    requires OneSent(env, hs, Lit("mcp-protocol-version"), version) && OneSent(env, hs, Lit("mcp-method"), rpc)
    ensures Judge(env, hs, body, supported, schemas) == Reject(InvalidName) <==>
            && (AnySent(env, hs, Lit("mcp-name")) ==> exists x :: OneSent(env, hs, Lit("mcp-name"), x))
            && (|| ((rpc == Lit("tools/call") || rpc == Lit("prompts/get")) && !Nameable(Get(params, Lit("name"))))
                || (rpc == Lit("resources/read") && !Nameable(Get(params, Lit("uri")))))
  {
    RequestParts(body, rpc, params, version);
    UnaliasedIs(env, hs);
    OneSentIs(env, hs, Lit("mcp-protocol-version"), version);
    CheckVersionAgrees(env, hs, body, supported);
    JudgedByRouting(env, hs, body, supported, schemas);
    NameRefused(env, hs, body, rpc, params);
  }

  lemma UnknownToolExactlyWhen(env: Env, hs: Headers, body: Json, rpc: Text, params: Fields, version: Text,
                               supported: set<Text>, schemas: Option<map<Text, Json>>)
    requires Request(body, rpc, params, version) && version in supported && Unaliased(env, hs)
    requires OneSent(env, hs, Lit("mcp-protocol-version"), version) && OneSent(env, hs, Lit("mcp-method"), rpc)
    requires NameSent(env, hs, rpc, params)
    ensures Judge(env, hs, body, supported, schemas) == Reject(UnknownTool) <==>
            && rpc == Lit("tools/call") && schemas.Some?
            && exists tool :: Get(params, Lit("name")) == Some(Str(tool)) && tool !in schemas.value
  {
    RequestParts(body, rpc, params, version);
    RoutedPasses(env, hs, body, rpc, params, version, supported);
    JudgedByRouting(env, hs, body, supported, schemas);
    UnknownToolIs(env, Collect(env, hs), body, schemas);
  }

  /** A request of a version is refused for the first of the three routing headers
      that does not show what the body says. */
  lemma MismatchExactlyWhen(env: Env, hs: Headers, body: Json, rpc: Text, params: Fields, version: Text,
                            supported: set<Text>, schemas: Option<map<Text, Json>>)
    requires Request(body, rpc, params, version) && Unaliased(env, hs)
    ensures var verdict := Judge(env, hs, body, supported, schemas);
            var shown := OneSent(env, hs, Lit("mcp-protocol-version"), version);
            && (verdict == Reject(Mismatch(Lit("mcp-protocol-version"))) <==> !shown)
            && (shown && version in supported ==>
                  (verdict == Reject(Mismatch(Lit("mcp-method"))) <==> !OneSent(env, hs, Lit("mcp-method"), rpc)))
            && (shown && version in supported && OneSent(env, hs, Lit("mcp-method"), rpc) ==>
                  (verdict in {Reject(Mismatch(Lit("mcp-name"))), Reject(InvalidName)} <==>
                   !NameSent(env, hs, rpc, params)))
  {
    RequestParts(body, rpc, params, version);
    UnaliasedIs(env, hs);
    FixedNamesApart();
    SingleIs(env, hs, Lit("mcp-protocol-version"));
    SingleIs(env, hs, Lit("mcp-method"));
    OneSentIs(env, hs, Lit("mcp-method"), rpc);
    NameSentIs(env, hs, body, rpc, params);
    CheckRoutingAgrees(env, hs, body);
    RoutingReasons(Collect(env, hs), body);
    MethodMismatch(Collect(env, hs), body, rpc);
    ToolReasons(env, Collect(env, hs), body, schemas);
    VersionMismatch(Collect(env, hs), body, rpc, params, version, supported);
  }

  lemma VersionMismatch(m: Multimap, body: Json, rpc: Text, params: Fields, version: Text, supported: set<Text>)
    requires Request(body, rpc, params, version)
    ensures CheckVersion(m, body, supported) ==
            if SingleOf(m, VERSION_HEADER) != One(version) then Some(Mismatch(VERSION_HEADER))
            else if version !in supported then Some(UnsupportedVersion)
            else None
  {
    RequestParts(body, rpc, params, version);
  }

  lemma MethodMismatch(m: Multimap, body: Json, rpc: Text)
    requires MethodOf(body) == Some(rpc)
    ensures CheckRouting(m, body) == Some(Mismatch(METHOD_HEADER)) <==> SingleOf(m, METHOD_HEADER) != One(rpc)
  {
    FixedNamesApart();
  }

  /** A text that a header can show. */
  predicate Nameable(v: Option<Json>) { v.Some? && v.value.Str? && Encodable(v.value.s) }

  lemma NameRefused(env: Env, hs: Headers, body: Json, rpc: Text, params: Fields)
    requires MethodOf(body) == Some(rpc) && Params(body) == Obj(params) && OneSent(env, hs, Lit("mcp-method"), rpc)
    ensures CheckRouting(Collect(env, hs), body) == Some(InvalidName) <==>
            && (AnySent(env, hs, Lit("mcp-name")) ==> exists x :: OneSent(env, hs, Lit("mcp-name"), x))
            && (|| ((rpc == Lit("tools/call") || rpc == Lit("prompts/get")) && !Nameable(Get(params, Lit("name"))))
                || (rpc == Lit("resources/read") && !Nameable(Get(params, Lit("uri")))))
  {
    NameMethods();
    SingleIs(env, hs, Lit("mcp-method"));
    SingleIs(env, hs, Lit("mcp-name"));
    forall s ensures EncodeHeaderValue(s).Some? <==> Encodable(s) { EncodesExactlyEncodable(s); }
  }
}
