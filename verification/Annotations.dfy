/** x-mcp-header annotations of an input schema, and the canonical rendering of
    the arguments they point at. */
module Annotations {
  import opened Common
  import opened Text
  import opened JsonText
  import opened Dict
  import opened HeaderValue

  const X_MCP_HEADER: Text := Lit("x-mcp-header")
  const TYPE: Text := Lit("type")
  const MAX_WALK_DEPTH := 16
  const JS_SAFE_INT := 0x1F_FFFF_FFFF_FFFF

  /** str.lower. */
  type Lower = Text -> Text

  datatype Annotation = Annotation(name: Text, path: seq<Text>, typ: Option<Json>)

  function Walk(schema: Fields, path: seq<Text>, depth: nat): seq<Annotation>
    decreases schema, 1
  {
    if depth > MAX_WALK_DEPTH then []
    else WalkProperties(schema, path, depth)
  }

  /** The annotations below the schema's properties, if it has any. */
  function WalkProperties(schema: Fields, path: seq<Text>, depth: nat): seq<Annotation>
    decreases schema, 0
  {
    if schema.NoFields? then []
    else if schema.key == PROPERTIES then
      if schema.value.Obj? then WalkEach(schema.value.fields, path, depth) else []
    else WalkProperties(schema.rest, path, depth)
  }

  function WalkEach(props: Fields, path: seq<Text>, depth: nat): seq<Annotation>
    decreases props, 2
  {
    if props.NoFields? then []
    else WalkOne(props.key, props.value, path, depth) + WalkEach(props.rest, path, depth)
  }

  function WalkOne(key: Text, sub: Json, path: seq<Text>, depth: nat): seq<Annotation>
    decreases sub, 3
  {
    if !sub.Obj? then []
    else
      var ann := Get(sub.fields, X_MCP_HEADER);
      (if ann.Some? && ann.value.Str? then [Annotation(ann.value.s, path + [key], Get(sub.fields, TYPE))] else [])
      + Walk(sub.fields, path + [key], depth + 1)
  }

  function WalkRoot(schema: Json): seq<Annotation> {
    if schema.Obj? then Walk(schema.fields, [], 0) else []
  }

  // ----- what the walk finds -----

  /** Following a path through properties mappings from a schema ends at a
      sub-schema that carries the annotation. */
  predicate FoundIn(schema: Fields, path: seq<Text>, a: Annotation)
    decreases schema, 0
  {
    && path != [] && schema.Field?
    && if schema.key == Lit("properties") then schema.value.Obj? && FoundEach(schema.value.fields, path, a)
       else FoundIn(schema.rest, path, a)
  }

  predicate FoundEach(props: Fields, path: seq<Text>, a: Annotation)
    requires path != []
    decreases props, 1
  {
    props.Field? && ((props.key == path[0] && FoundAt(props.value, path, a)) || FoundEach(props.rest, path, a))
  }

  predicate FoundAt(sub: Json, path: seq<Text>, a: Annotation)
    requires path != []
    decreases sub, 2
  {
    && sub.Obj?
    && if |path| == 1 then
         Get(sub.fields, Lit("x-mcp-header")) == Some(Str(a.name)) && Get(sub.fields, Lit("type")) == a.typ
       else FoundIn(sub.fields, path[1..], a)
  }

  /** The part of an annotation's path below a prefix, none if it is not below. */
  function Below(a: Annotation, prefix: seq<Text>): seq<Text> {
    if |prefix| <= |a.path| && a.path[..|prefix|] == prefix then a.path[|prefix|..] else []
  }

  predicate WithinWalk(path: seq<Text>, depth: nat) { depth + |path| <= MAX_WALK_DEPTH + 1 }

  lemma BelowKey(a: Annotation, prefix: seq<Text>, key: Text)
    ensures Below(a, prefix + [key])
            == if Below(a, prefix) != [] && Below(a, prefix)[0] == key then Below(a, prefix)[1..] else []
    ensures a.path == prefix + [key] <==> Below(a, prefix) == [key]
  {
    var n := |prefix|;
    if n < |a.path| {
      assert a.path[..n + 1] == a.path[..n] + [a.path[n]];
      assert a.path[n..][0] == a.path[n] && a.path[n..][1..] == a.path[n + 1..];
      assert (prefix + [key])[..n] == prefix && (prefix + [key])[n] == key;
      if a.path[n..] == [key] && a.path[..n] == prefix { assert a.path == a.path[..n] + a.path[n..]; }
    }
    if a.path == prefix + [key] { assert a.path[n..] == [key]; }
  }

  lemma {:induction false} WalkFinds(schema: Fields, prefix: seq<Text>, depth: nat, a: Annotation)
    ensures a in Walk(schema, prefix, depth) <==>
            WithinWalk(Below(a, prefix), depth) && FoundIn(schema, Below(a, prefix), a)
    decreases schema, 1
  {
    if depth <= MAX_WALK_DEPTH { PropertiesFind(schema, prefix, depth, a); }
  }

  lemma {:induction false} PropertiesFind(schema: Fields, prefix: seq<Text>, depth: nat, a: Annotation)
    requires depth <= MAX_WALK_DEPTH
    ensures a in WalkProperties(schema, prefix, depth) <==>
            WithinWalk(Below(a, prefix), depth) && FoundIn(schema, Below(a, prefix), a)
    decreases schema, 0
  {
    if schema.Field? {
      if schema.key != PROPERTIES {
        PropertiesFind(schema.rest, prefix, depth, a);
      } else if schema.value.Obj? {
        EachFinds(schema.value.fields, prefix, depth, a);
      }
    }
  }

  lemma {:induction false} EachFinds(props: Fields, prefix: seq<Text>, depth: nat, a: Annotation)
    requires depth <= MAX_WALK_DEPTH
    ensures a in WalkEach(props, prefix, depth) <==>
            WithinWalk(Below(a, prefix), depth) && Below(a, prefix) != [] && FoundEach(props, Below(a, prefix), a)
    decreases props, 2
  {
    if props.Field? {
      OneFinds(props.key, props.value, prefix, depth, a);
      EachFinds(props.rest, prefix, depth, a);
    }
  }

  lemma {:induction false} OneFinds(key: Text, sub: Json, prefix: seq<Text>, depth: nat, a: Annotation)
    requires depth <= MAX_WALK_DEPTH
    ensures a in WalkOne(key, sub, prefix, depth) <==>
            (&& WithinWalk(Below(a, prefix), depth) && Below(a, prefix) != [] && Below(a, prefix)[0] == key
             && FoundAt(sub, Below(a, prefix), a))
    decreases sub, 3
  {
    BelowKey(a, prefix, key);
    if sub.Obj? { WalkFinds(sub.fields, prefix + [key], depth + 1, a); }
  }

  /** The walk finds exactly the annotations at the end of a chain of properties
      mappings no longer than its depth limit allows. */
  lemma WalkRootFinds(schema: Json, a: Annotation)
    ensures a in WalkRoot(schema) <==>
            schema.Obj? && |a.path| <= 17 && FoundIn(schema.fields, a.path, a)
  {
    assert Below(a, []) == a.path;
    if schema.Obj? { WalkFinds(schema.fields, [], 0, a); }
  }

  // ----- in which order -----

  /** Every dict has each name once. */
  predicate DistinctNames(v: Json)
    decreases v
  {
    match v
    case Arr(items) => DistinctInItems(items)
    case Obj(fields) => DistinctInFields(fields)
    case _ => true
  }

  predicate DistinctInItems(xs: Items)
    decreases xs
  {
    xs.Item? ==> DistinctNames(xs.head) && DistinctInItems(xs.tail)
  }

  predicate DistinctInFields(fs: Fields)
    decreases fs
  {
    fs.Field? ==> Get(fs.rest, fs.key).None? && DistinctNames(fs.value) && DistinctInFields(fs.rest)
  }

  /** Path p is before path q in the schema as it is written: above it, or branching
      off earlier. */
  predicate Earlier(schema: Fields, p: seq<Text>, q: seq<Text>)
    decreases schema, 0
  {
    && schema.Field? && p != [] && q != []
    && if schema.key == Lit("properties") then schema.value.Obj? && EarlierEach(schema.value.fields, p, q)
       else Earlier(schema.rest, p, q)
  }

  predicate EarlierEach(props: Fields, p: seq<Text>, q: seq<Text>)
    requires p != [] && q != []
    decreases props, 1
  {
    && props.Field?
    && if p[0] != props.key then q[0] != props.key && EarlierEach(props.rest, p, q)
       else
         || q[0] != props.key
         || (|q| > 1 && (|p| == 1 || (props.value.Obj? && Earlier(props.value.fields, p[1..], q[1..]))))
  }

  lemma {:induction false} FoundHasKey(props: Fields, path: seq<Text>, a: Annotation)
    requires path != [] && FoundEach(props, path, a)
    ensures Get(props, path[0]).Some?
    decreases props
  {
    if props.key != path[0] { FoundHasKey(props.rest, path, a); }
  }

  lemma {:induction false} WalkOrdered(schema: Fields, prefix: seq<Text>, depth: nat, i: nat, j: nat)
    requires DistinctInFields(schema) && i < j < |Walk(schema, prefix, depth)|
    ensures var w := Walk(schema, prefix, depth); Earlier(schema, Below(w[i], prefix), Below(w[j], prefix))
    decreases schema, 1
  {
    PropertiesOrdered(schema, prefix, depth, i, j);
  }

  lemma {:induction false} PropertiesOrdered(schema: Fields, prefix: seq<Text>, depth: nat, i: nat, j: nat)
    requires DistinctInFields(schema) && depth <= MAX_WALK_DEPTH && i < j < |WalkProperties(schema, prefix, depth)|
    ensures var w := WalkProperties(schema, prefix, depth); Earlier(schema, Below(w[i], prefix), Below(w[j], prefix))
    decreases schema, 0
  {
    if schema.key == PROPERTIES {
      EachOrdered(schema.value.fields, prefix, depth, i, j);
    } else {
      PropertiesOrdered(schema.rest, prefix, depth, i, j);
    }
  }

  ghost predicate OrderedIn(props: Fields, w: seq<Annotation>, prefix: seq<Text>, i: nat, j: nat)
    requires i < j < |w|
  {
    && Below(w[i], prefix) != [] && Below(w[j], prefix) != []
    && EarlierEach(props, Below(w[i], prefix), Below(w[j], prefix))
  }

  lemma {:induction false} EachOrdered(props: Fields, prefix: seq<Text>, depth: nat, i: nat, j: nat)
    requires DistinctInFields(props) && depth <= MAX_WALK_DEPTH && i < j < |WalkEach(props, prefix, depth)|
    ensures OrderedIn(props, WalkEach(props, prefix, depth), prefix, i, j)
    decreases props, 2
  {
    var w, n := WalkEach(props, prefix, depth), |WalkOne(props.key, props.value, prefix, depth)|;
    var rest := WalkEach(props.rest, prefix, depth);
    if j < n {
      OneOrdered(props, prefix, depth, i, j);
    } else {
      assert w[j] == rest[j - n];
      InRest(props, prefix, depth, j - n);
      if i < n {
        OneFinds(props.key, props.value, prefix, depth, w[i]);
      } else {
        EachOrdered(props.rest, prefix, depth, i - n, j - n);
        InRest(props, prefix, depth, i - n);
      }
    }
  }

  lemma InRest(props: Fields, prefix: seq<Text>, depth: nat, j: nat)
    requires props.Field? && DistinctInFields(props) && depth <= MAX_WALK_DEPTH
    requires j < |WalkEach(props.rest, prefix, depth)|
    ensures var a := WalkEach(props.rest, prefix, depth)[j]; Below(a, prefix) != [] && Below(a, prefix)[0] != props.key
  {
    var a := WalkEach(props.rest, prefix, depth)[j];
    EachFinds(props.rest, prefix, depth, a);
    FoundHasKey(props.rest, Below(a, prefix), a);
  }

  lemma {:induction false} OneOrdered(props: Fields, prefix: seq<Text>, depth: nat, i: nat, j: nat)
    requires props.Field? && DistinctInFields(props) && depth <= MAX_WALK_DEPTH
    requires i < j < |WalkOne(props.key, props.value, prefix, depth)|
    ensures OrderedIn(props, WalkOne(props.key, props.value, prefix, depth), prefix, i, j)
    decreases props, 1
  {
    var w, sub := WalkOne(props.key, props.value, prefix, depth), props.value.fields;
    var inner := Walk(sub, prefix + [props.key], depth + 1);
    var n := |w| - |inner|;
    assert w[j] == inner[j - n];
    BelowOne(props, prefix, depth, i);
    BelowOne(props, prefix, depth, j);
    WalkFinds(sub, prefix + [props.key], depth + 1, w[j]);
    if i >= n {
      WalkOrdered(sub, prefix + [props.key], depth + 1, i - n, j - n);
    }
  }

  lemma BelowOne(props: Fields, prefix: seq<Text>, depth: nat, i: nat)
    requires props.Field? && depth <= MAX_WALK_DEPTH && i < |WalkOne(props.key, props.value, prefix, depth)|
    ensures var a := WalkOne(props.key, props.value, prefix, depth)[i];
            && Below(a, prefix) != [] && Below(a, prefix)[0] == props.key
            && Below(a, prefix)[1..] == Below(a, prefix + [props.key])
  {
    var a := WalkOne(props.key, props.value, prefix, depth)[i];
    OneFinds(props.key, props.value, prefix, depth, a);
    BelowKey(a, prefix, props.key);
  }

  /** Annotations are found in the order of the schema, each before those below it. */
  lemma FoundInOrder(schema: Json, i: nat, j: nat)
    requires DistinctNames(schema) && i < j < |WalkRoot(schema)|
    ensures schema.Obj? && Earlier(schema.fields, WalkRoot(schema)[i].path, WalkRoot(schema)[j].path)
  {
    WalkOrdered(schema.fields, [], 0, i, j);
    var a, b := WalkRoot(schema)[i], WalkRoot(schema)[j];
    assert Below(a, []) == a.path && Below(b, []) == b.path;
  }

  // ----- which of them are valid -----

  predicate TokenChar(c: CodePoint) {
    || IsDigit(c) || 'a' as int <= c <= 'z' as int || 'A' as int <= c <= 'Z' as int
    || c == '!' as int || 0x23 <= c <= 0x27 || c == '*' as int || c == '+' as int || c == '-' as int
    || c == '.' as int || c == '^' as int || c == '_' as int || c == '`' as int || c == '|' as int || c == '~' as int
  }

  predicate IsToken(s: Text) { s != [] && forall i :: 0 <= i < |s| ==> TokenChar(s[i]) }

  /** What the source's pattern matches: a token, or a token and a line feed,
      since $ also matches before a final line feed. */
  predicate MatchesToken(s: Text) {
    IsToken(s) || (s != [] && s[|s| - 1] == 0x0A && IsToken(s[..|s| - 1]))
  }

  function NonNull(xs: Items): seq<Json> {
    if xs.NoItems? then [] else (if xs.head == Str(Lit("null")) then [] else [xs.head]) + NonNull(xs.tail)
  }

  /** A primitive type, or a list with one besides "null". */
  predicate Primitive(typ: Option<Json>) {
    typ.Some? &&
    var t := if typ.value.Arr? then (if |NonNull(typ.value.items)| == 1 then NonNull(typ.value.items)[0] else Null)
             else typ.value;
    t == Str(Lit("string")) || t == Str(Lit("integer")) || t == Str(Lit("boolean"))
  }

  /** The lowered token names of some annotations, of whatever type. */
  function Claimed(lower: Lower, anns: seq<Annotation>): set<Text> {
    set a | a in anns && MatchesToken(a.name) :: lower(a.name)
  }

  /** The valid ones among anns[n..]: each name is claimed by its first token
      spelling, even when that one's type is not primitive. */
  function Valid(lower: Lower, anns: seq<Annotation>): seq<Annotation> {
    if anns == [] then []
    else
      var front, a := anns[..|anns| - 1], anns[|anns| - 1];
      Valid(lower, front) +
      if MatchesToken(a.name) && lower(a.name) !in Claimed(lower, front) && Primitive(a.typ) then [a] else []
  }

  method XMcpHeaderAnnotations(lower: Lower, schema: Json) returns (valid: seq<Annotation>)
    ensures valid == Valid(lower, WalkRoot(schema))
  {
    var annotations := WalkRoot(schema);
    var seen: set<Text> := {};
    valid := [];
    for i := 0 to |annotations|
      invariant seen == Claimed(lower, annotations[..i])
      invariant valid == Valid(lower, annotations[..i])
    {
      var a := annotations[i];
      assert annotations[..i + 1] == annotations[..i] + [a];
      ClaimedOneMore(lower, annotations[..i], a);
      if MatchesToken(a.name) && lower(a.name) !in seen {
        seen := seen + {lower(a.name)};
        if Primitive(a.typ) {
          valid := valid + [a];
        }
      }
    }
    assert annotations[..|annotations|] == annotations;
  }

  lemma ClaimedOneMore(lower: Lower, anns: seq<Annotation>, a: Annotation)
    ensures Claimed(lower, anns + [a]) == Claimed(lower, anns) + if MatchesToken(a.name) then {lower(a.name)} else {}
    ensures Valid(lower, anns + [a]) == Valid(lower, anns) +
            if MatchesToken(a.name) && lower(a.name) !in Claimed(lower, anns) && Primitive(a.typ) then [a] else []
  {
    assert (anns + [a])[..|anns|] == anns;
    forall b | b in anns && MatchesToken(b.name) ensures lower(b.name) in Claimed(lower, anns + [a]) {
      assert b in anns + [a];
    }
    assert a in anns + [a];
  }

  lemma {:induction false} ValidSound(lower: Lower, anns: seq<Annotation>, i: nat)
    requires i < |Valid(lower, anns)|
    ensures var a := Valid(lower, anns)[i];
            a in anns && MatchesToken(a.name) && Primitive(a.typ) && lower(a.name) in Claimed(lower, anns)
    decreases |anns|
  {
    var front, a := anns[..|anns| - 1], anns[|anns| - 1];
    assert anns == front + [a];
    ClaimedOneMore(lower, front, a);
    if i < |Valid(lower, front)| {
      ValidSound(lower, front, i);
    }
  }

  /** No two valid annotations share a header name, in any case. */
  lemma {:induction false} ValidDistinct(lower: Lower, anns: seq<Annotation>, i: nat, j: nat)
    requires i < j < |Valid(lower, anns)|
    ensures lower(Valid(lower, anns)[i].name) != lower(Valid(lower, anns)[j].name)
    decreases |anns|
  {
    var front := anns[..|anns| - 1];
    if j < |Valid(lower, front)| {
      ValidDistinct(lower, front, i, j);
    } else {
      ValidSound(lower, front, i);
    }
  }

  /** An annotation of token name and primitive type, and no earlier annotation
      has a token name that lowers to the same. */
  ghost predicate FirstClaim(lower: Lower, anns: seq<Annotation>, i: nat)
    requires i < |anns|
  {
    TokenName(anns[i].name) && Scalar(anns[i].typ) && Unclaimed(lower, anns[..i], lower(anns[i].name))
  }

  ghost predicate Unclaimed(lower: Lower, anns: seq<Annotation>, lowered: Text) {
    forall a :: a in anns && TokenName(a.name) ==> lower(a.name) != lowered
  }

  /** At least one letter, digit or mark that RFC 9110 section 5.6.2 allows in a
      token, and nothing else but possibly a final line feed. */
  predicate TokenName(s: Text) {
    ListedChars(if s != [] && s[|s| - 1] == 10 then s[..|s| - 1] else s)
  }

  predicate ListedChars(t: Text) { t != [] && forall i :: 0 <= i < |t| ==> ListedChar(t[i]) }

  predicate ListedChar(c: CodePoint) {
    || '0' as int <= c <= '9' as int || 'a' as int <= c <= 'z' as int || 'A' as int <= c <= 'Z' as int
    || c in Lit("!#$%&'*+-.^_`|~")
  }

  lemma MarkListed(c: CodePoint)
    ensures c in Lit("!#$%&'*+-.^_`|~") <==>
            || c == '!' as int || 0x23 <= c <= 0x27 || c == '*' as int || c == '+' as int || c == '-' as int
            || c == '.' as int || c == '^' as int || c == '_' as int || c == '`' as int || c == '|' as int
            || c == '~' as int
  {
    assert Lit("!#$%&'*+-.^_`|~")
           == [0x21, 0x23, 0x24, 0x25, 0x26, 0x27, 0x2A, 0x2B, 0x2D, 0x2E, 0x5E, 0x5F, 0x60, 0x7C, 0x7E];
  }

  lemma TokenNameIs(s: Text)
    ensures MatchesToken(s) <==> TokenName(s)
  {
    TokenListed(s);
    if s != [] && s[|s| - 1] == 10 {
      TokenListed(s[..|s| - 1]);
      assert !TokenChar(s[|s| - 1]);
    }
  }

  lemma TokenListed(s: Text)
    ensures IsToken(s) <==> ListedChars(s)
  {
    forall i | 0 <= i < |s| ensures TokenChar(s[i]) <==> ListedChar(s[i]) { MarkListed(s[i]); }
  }

  /** One of the three scalar types, or a list of just one of them and "null". */
  ghost predicate Scalar(typ: Option<Json>) {
    && typ.Some?
    && if typ.value.Arr? then exists t :: ScalarType(t) && OnlyIn(typ.value.items, t) else ScalarType(typ.value)
  }

  predicate ScalarType(t: Json) { t in {Str(Lit("string")), Str(Lit("integer")), Str(Lit("boolean"))} }

  /** The items are t, once, and "null" any number of times. */
  predicate OnlyIn(xs: Items, t: Json) {
    xs.Item? && if xs.head == Str(Lit("null")) then OnlyIn(xs.tail, t) else xs.head == t && OnlyNull(xs.tail)
  }

  predicate OnlyNull(xs: Items) { xs.Item? ==> xs.head == Str(Lit("null")) && OnlyNull(xs.tail) }

  lemma {:induction false} OnlyNullIs(xs: Items)
    ensures OnlyNull(xs) <==> NonNull(xs) == []
  {
    if xs.Item? {
      OnlyNullIs(xs.tail);
      assert |NonNull(xs)| == |NonNull(xs.tail)| + if xs.head == Str(Lit("null")) then 0 else 1;
    }
  }

  lemma {:induction false} OnlyInIs(xs: Items, t: Json)
    requires t != Str(Lit("null"))
    ensures OnlyIn(xs, t) <==> NonNull(xs) == [t]
  {
    if xs.Item? {
      OnlyInIs(xs.tail, t);
      OnlyNullIs(xs.tail);
      if xs.head != Str(Lit("null")) {
        assert NonNull(xs)[1..] == NonNull(xs.tail) && NonNull(xs)[0] == xs.head;
        if NonNull(xs.tail) == [] { assert NonNull(xs) == [xs.head]; }
      }
    }
  }

  lemma ScalarIs(typ: Option<Json>)
    ensures Primitive(typ) <==> Scalar(typ)
  {
    if typ.Some? && typ.value.Arr? {
      var rest := NonNull(typ.value.items);
      forall t | ScalarType(t) ensures OnlyIn(typ.value.items, t) <==> rest == [t] {
        assert |Lit("null")| == 4;
        OnlyInIs(typ.value.items, t);
      }
      if |rest| == 1 { assert rest == [rest[0]]; }
    }
  }

  lemma FirstClaimIs(lower: Lower, anns: seq<Annotation>, i: nat)
    requires i < |anns|
    ensures FirstClaim(lower, anns, i) <==>
            && MatchesToken(anns[i].name) && Primitive(anns[i].typ)
            && lower(anns[i].name) !in Claimed(lower, anns[..i])
  {
    ScalarIs(anns[i].typ);
    TokenNameIs(anns[i].name);
    forall a | a in anns[..i] ensures MatchesToken(a.name) <==> TokenName(a.name) { TokenNameIs(a.name); }
  }

  ghost predicate FirstClaimant(lower: Lower, anns: seq<Annotation>, a: Annotation) {
    exists i :: 0 <= i < |anns| && anns[i] == a && FirstClaim(lower, anns, i)
  }

  lemma ClaimedBefore(lower: Lower, anns: seq<Annotation>, i: nat)
    requires i < |anns| - 1
    ensures anns[..|anns| - 1][i] == anns[i]
    ensures FirstClaim(lower, anns[..|anns| - 1], i) <==> FirstClaim(lower, anns, i)
  {
    assert anns[..|anns| - 1][..i] == anns[..i];
  }

  lemma FirstClaimantOneMore(lower: Lower, anns: seq<Annotation>, a: Annotation)
    requires anns != []
    ensures var n := |anns| - 1;
            FirstClaimant(lower, anns, a) <==>
            FirstClaimant(lower, anns[..n], a) || (anns[n] == a && FirstClaim(lower, anns, n))
  {
    forall i: nat | i < |anns| - 1
      ensures anns[..|anns| - 1][i] == anns[i]
              && (FirstClaim(lower, anns[..|anns| - 1], i) <==> FirstClaim(lower, anns, i))
    {
      ClaimedBefore(lower, anns, i);
    }
  }

  /** The valid annotations are exactly the primitive first claimants of their names. */
  lemma {:induction false} ValidExactly(lower: Lower, anns: seq<Annotation>, a: Annotation)
    ensures a in Valid(lower, anns) <==> FirstClaimant(lower, anns, a)
    decreases |anns|
  {
    if anns != [] {
      ValidExactly(lower, anns[..|anns| - 1], a);
      FirstClaimantOneMore(lower, anns, a);
      FirstClaimIs(lower, anns, |anns| - 1);
    }
  }

  // ----- arguments -----

  /** The argument at a path; Null when absent. */
  function ArgAt(arguments: Json, path: seq<Text>): Json
    decreases |path|
  {
    if path == [] then arguments
    else if !arguments.Obj? || Get(arguments.fields, path[0]).None? then Null
    else ArgAt(Get(arguments.fields, path[0]).value, path[1..])
  }

  /** The canonical header rendering; None when there is none. */
  function Render(v: Json): Option<Text> {
    match v
    case Bool(b) => Some(if b then Lit("true") else Lit("false"))
    case Int(n) => if -JS_SAFE_INT <= n <= JS_SAFE_INT then Some(IntText(n)) else None
    case Str(s) => EncodeHeaderValue(s)
    case _ => None
  }

  /** The rendering of a type determines the value within it. */
  lemma RenderInjective(v: Json, w: Json)
    requires Render(v).Some? && Render(v) == Render(w)
    requires (v.Bool? && w.Bool?) || (v.Int? && w.Int?) || (v.Str? && w.Str?)
    ensures v == w
  {
    if v.Int? {
      IntTextInjective(v.n, w.n);
    } else if v.Str? {
      Injective(v.s, w.s);
    } else {
      assert |Lit("true")| == 4 && |Lit("false")| == 5;
    }
  }
}
