/** A request whose own client's headers are rejected: its one annotation reaches
    through an argument given as JSON text. */
module EnvelopeWitness {
  import opened Common
  import opened Text
  import opened JsonText
  import opened Dict
  import opened Annotations
  import opened SchemaKeys
  import opened BracketDepth
  import opened Envelope
  import opened EnvelopeMirror
  import opened EnvelopeRendered

  const A: Text := [0x61]
  const B: Text := [0x62]
  const TOOL: Text := [0x74]
  const HEADER: Text := [0x68]
  const VERSION: Text := [0x76]

  function One(key: Text, v: Json): Json { Obj(Field(key, v, NoFields)) }

  // ----- the schema: a has a property b, whose header is h -----

  function Leaf(): Json {
    Obj(Field(X_MCP_HEADER, Str(HEADER), Field(TYPE, Str(Lit("string")), NoFields)))
  }

  function Nested(): Json { One(PROPERTIES, One(B, Leaf())) }

  function Schema(): Json { One(PROPERTIES, One(A, Nested())) }

  function Reaching(): Annotation { Annotation(HEADER, [A, B], Some(Str(Lit("string")))) }

  lemma SchemaWords()
    ensures |PROPERTIES| == 10 && |X_MCP_HEADER| == 12 && |TYPE| == 4
    ensures PROPERTIES != X_MCP_HEADER && TYPE != X_MCP_HEADER && A != PROPERTIES && B != PROPERTIES
  {
  }

  lemma LeafWalk(path: seq<Text>)
    ensures WalkOne(B, Leaf(), path, 1) == [Annotation(HEADER, path + [B], Some(Str(Lit("string"))))]
  {
    SchemaWords();
    var fs := Leaf().fields;
    assert Get(fs, X_MCP_HEADER) == Some(Str(HEADER));
    assert Get(fs, TYPE) == Some(Str(Lit("string"))) by { assert Get(fs.rest, TYPE) == Some(Str(Lit("string"))); }
    assert WalkProperties(fs.rest.rest, path + [B], 2) == [];
    assert WalkProperties(fs.rest, path + [B], 2) == [];
    assert Walk(fs, path + [B], 2) == [];
  }

  lemma NestedWalk()
    ensures WalkOne(A, Nested(), [], 0) == [Reaching()]
  {
    SchemaWords();
    LeafWalk([A]);
    var props := Field(B, Leaf(), NoFields);
    assert WalkEach(props, [A], 1) == WalkOne(B, Leaf(), [A], 1) + WalkEach(NoFields, [A], 1);
    assert WalkProperties(Nested().fields, [A], 1) == WalkEach(props, [A], 1);
    assert Get(Nested().fields, X_MCP_HEADER) == None by { assert Get(NoFields, X_MCP_HEADER) == None; }
    assert [] + [A] == [A] && [A] + [B] == [A, B];
  }

  lemma SchemaWalk()
    ensures WalkRoot(Schema()) == [Reaching()]
  {
    NestedWalk();
    var props := Field(A, Nested(), NoFields);
    assert WalkEach(props, [], 0) == WalkOne(A, Nested(), [], 0) + WalkEach(NoFields, [], 0);
    assert WalkProperties(Schema().fields, [], 0) == WalkEach(props, [], 0);
  }

  lemma SchemaValid(lower: Lower)
    ensures Valid(lower, WalkRoot(Schema())) == [Reaching()]
  {
    SchemaWalk();
    var a := Reaching();
    assert IsToken(HEADER) && MatchesToken(a.name) && Primitive(a.typ);
    assert Claimed(lower, []) == {} && Valid(lower, []) == [];
    ClaimedOneMore(lower, [], a);
    assert [] + [a] == [a];
  }

  lemma SchemaSmall()
    ensures Containers(Schema()) <= MAX_SCHEMA_CONTAINERS
  {
    assert Containers(Leaf()) <= 1 by { assert FieldsContainers(Leaf().fields.rest) == 0; }
    SmallOne(B, Leaf());
    SmallOne(PROPERTIES, One(B, Leaf()));
    SmallOne(A, Nested());
    SmallOne(PROPERTIES, One(A, Nested()));
  }

  lemma SmallOne(key: Text, v: Json)
    ensures Containers(One(key, v)) == 1 + Containers(v)
  {
    assert FieldsContainers(NoFields) == 0;
  }

  // ----- the environment and the request -----

  /** {"b":"v"} as written. */
  function WrittenArg(): Written { Object([], Member([], B, [], [], Literal(VERSION), [], NoMembers)) }

  function TextArg(): Text { Show(WrittenArg()) }

  /** Folding that keeps names apart, ASCII lowering, and a loader for this text. */
  function Environment(): Env {
    Env(s => AsciiLower(s), s => s, t => if t == TextArg() then Some(One(B, Str(VERSION))) else None)
  }

  lemma TextArgShape()
    ensures |TextArg()| > 1 && Opens(TextArg()[0]) && Strip(TextArg()) == TextArg()
    ensures !TooDeep(Str(TextArg()))
  {
    var w, m := WrittenArg(), WrittenArg().members;
    assert LiteralBody(B) by { assert LiteralBody(B[1..]); }
    assert LiteralBody(VERSION) by { assert LiteralBody(VERSION[1..]); }
    assert WellMembers(NoMembers) && WellWritten(m.v) && WellMembers(m) && WellWritten(w);
    var t := TextArg();
    ClosesLast(m);
    assert t == Char('{') + ([] + ShowMembers(m));
    assert NoOuterSpace(t);
    StripFixed(t);
    ScannerReadsNesting([], w, []);
    assert [] + t + [] == t;
    assert MembersNesting(NoMembers) == 0 && Nesting(m.v) == 0;
    assert Nesting(w) == 1;
  }

  lemma ClosesLast(ms: Members)
    requires ms.Member? && ms.rest.NoMembers?
    ensures var t := ShowMembers(ms); |t| > 0 && t[|t| - 1] == '}' as int
  {
  }

  function RawCall(): Json { One(A, Str(TextArg())) }

  function Body(): Json {
    Obj(Field(Lit("method"), Str(TOOLS_CALL),
        Field(Lit("params"),
              Obj(Field(Lit("name"), Str(TOOL),
                  Field(Lit("arguments"), RawCall(),
                  Field(Lit("_meta"), One(META_VERSION, Str(VERSION)), NoFields)))), NoFields)))
  }

  lemma BodyRead()
    ensures MethodOf(Body()) == Some(TOOLS_CALL)
    ensures Lookup(Meta(Body()), META_VERSION) == Some(Str(VERSION))
    ensures TextOf(Lookup(Params(Body()), Lit("name"))) == Some(TOOL)
    ensures RawArgs(Body()) == RawCall()
  {
    var m, p, n, a, e := Lit("method"), Lit("params"), Lit("name"), Lit("arguments"), Lit("_meta");
    assert m[0] != p[0] && |n| == 4 && |a| == 9 && |e| == 5;
    var fs := Params(Body()).fields;
    assert Get(fs, a) == Get(fs.rest, a) && Get(fs, e) == Get(fs.rest, e) == Get(fs.rest.rest, e);
  }

  lemma Effective(env: Env)
    requires env == Environment()
    ensures var args := EffectiveArgs(env.loads, [Reaching()], RawCall());
            ArgAt(args, [A, B]) == Str(VERSION)
  {
    TextArgShape();
    var args := EffectiveArgs(env.loads, [Reaching()], RawCall());
    assert Reaching() in [Reaching()] && A in Through([Reaching()]);
    assert args == One(A, One(B, Str(VERSION)));
    assert [A, B][1..] == [B] && [B][1..] == [];
    assert ArgAt(One(B, Str(VERSION)), [B]) == Str(VERSION);
  }

  /** When no two names share a fold, nothing is ever flagged. */
  lemma ApartNeverFlags(decl: Declared, fold: Fold, path: Text, v: Json)
    requires forall s, t :: fold(s) == fold(t) ==> s == t
    ensures FlaggedIn(decl, fold, path, v) == multiset{}
  {
    forall k | HasKey(v, k) ensures !Flagged(decl, fold, k) {
      var spellings := Spellings(decl, fold, fold(k));
      PassesExactlyWhen(decl, fold, k);
      if spellings != {} {
        assert spellings == {k};
        SingletonCodeclared(decl, spellings);
      }
    }
    NoneFlaggedExactlyWhen(decl, fold, path, v);
  }

  lemma NoVariants(env: Env)
    requires env == Environment()
    ensures !CaseVariants(env.fold, Schema(), RawCall())
    ensures !CaseVariants(env.fold, Schema(), OverlayArgs(env.loads, RawCall(), None))
  {
    SchemaSmall();
    ApartNeverFlags(Mappings(Schema()), env.fold, [], RawCall());
    ApartNeverFlags(Mappings(Schema()), env.fold, [], OverlayArgs(env.loads, RawCall(), None));
  }

  lemma RawCallShallow()
    ensures RawCall().Obj? && !SomeTooDeep(RawCall().fields)
  {
    TextArgShape();
    assert !SomeTooDeep(NoFields);
  }

  /** Any request with these parts will do. */
  ghost predicate Sample(body: Json) {
    && MethodOf(body) == Some(TOOLS_CALL)
    && Lookup(Meta(body), META_VERSION) == Some(Str(VERSION))
    && TextOf(Lookup(Params(body), Lit("name"))) == Some(TOOL)
    && RawArgs(body) == RawCall()
  }

  lemma SampleRenderable(env: Env, body: Json, schemas: map<Text, Json>)
    requires env == Environment() && Sample(body) && TOOL in schemas && schemas[TOOL] == Schema()
    ensures Renderable(env, body, {VERSION}, schemas, VERSION, TOOL)
  {
    NoVariants(env);
    RawCallShallow();
    assert Encodable(TOOL);
  }

  lemma SampleReaches(env: Env, body: Json)
    requires env == Environment() && Sample(body)
    ensures var anns := Valid(env.lower, WalkRoot(Schema()));
            && anns == [Reaching()] && WellNamed(env, anns)
            && ArgAt(RawArgs(body), [A, B][..1]).Str?
            && ArgAt(EffectiveArgs(env.loads, anns, RawArgs(body)), [A, B]) != Null
  {
    SchemaValid(env.lower);
    Effective(env);
    assert [A, B][..1] == [A] && [A][1..] == [];
    assert IsToken(HEADER);
  }

  lemma SampleRejected(env: Env, body: Json, schemas: map<Text, Json>)
    requires env == Environment() && Sample(body) && TOOL in schemas && schemas[TOOL] == Schema()
    ensures LowersAscii(env.lower) && Renderable(env, body, {VERSION}, schemas, VERSION, TOOL)
    ensures Judge(env, Rendered(Valid(env.lower, WalkRoot(schemas[TOOL])), TOOL, VERSION, RawArgs(body)), body,
                  {VERSION}, Some(schemas)) != Accept(VERSION)
  {
    SampleRenderable(env, body, schemas);
    SampleReaches(env, body);
    TextArgumentRefused(env, body, {VERSION}, schemas, VERSION, TOOL, Reaching());
  }

  /** The call of a with the text of {"b":"v"} is rejected with its own headers. */
  lemma TextArgumentCase()
    ensures exists env: Env, body: Json, schemas: map<Text, Json>, version: Text, tool: Text ::
              && LowersAscii(env.lower) && Renderable(env, body, {version}, schemas, version, tool)
              && Judge(env, Rendered(Valid(env.lower, WalkRoot(schemas[tool])), tool, version, RawArgs(body)), body,
                       {version}, Some(schemas)) != Accept(version)
  {
    BodyRead();
    SampleRejected(Environment(), Body(), map[TOOL := Schema()]);
  }
}
