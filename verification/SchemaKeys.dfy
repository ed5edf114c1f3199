/** Argument keys that a case-insensitive decoder could bind to a property the
    exact-key view does not see: two worklist walks over JSON. */
module SchemaKeys {
  import opened Common
  import opened Text
  import opened JsonText
  import opened Dict
  import opened TextOrder

  const TOO_LARGE: Text := Lit("<schema-too-large>")
  const MAX_SCHEMA_CONTAINERS := 100_000

  /** str.casefold. */
  type Fold = Text -> Text

  function KeySet(fs: Fields): set<Text> {
    if fs.NoFields? then {} else {fs.key} + KeySet(fs.rest)
  }

  function ItemSeq(xs: Items): seq<Json> {
    if xs.NoItems? then [] else [xs.head] + ItemSeq(xs.tail)
  }

  function ValueSeq(fs: Fields): seq<Json> {
    if fs.NoFields? then [] else [fs.value] + ValueSeq(fs.rest)
  }

  predicate IsContainer(v: Json) { v.Arr? || v.Obj? }

  function Children(v: Json): seq<Json> {
    match v
    case Arr(items) => ItemSeq(items)
    case Obj(fields) => ValueSeq(fields)
    case _ => []
  }

  /** The names a node declares directly, if it has a properties mapping. */
  function Declares(v: Json): seq<set<Text>> {
    if v.Obj? && Get(v.fields, PROPERTIES).Some? && Get(v.fields, PROPERTIES).value.Obj?
    then [KeySet(Get(v.fields, PROPERTIES).value.fields)] else []
  }

  // ----- the recursive traversal of a schema -----

  /** Every properties mapping anywhere in a value. */
  function Mappings(v: Json): multiset<set<Text>>
    decreases v
  {
    multiset(Declares(v)) + match v
      case Arr(items) => ItemsMappings(items)
      case Obj(fields) => FieldsMappings(fields)
      case _ => multiset{}
  }

  function ItemsMappings(xs: Items): multiset<set<Text>>
    decreases xs
  {
    if xs.NoItems? then multiset{} else Mappings(xs.head) + ItemsMappings(xs.tail)
  }

  function FieldsMappings(fs: Fields): multiset<set<Text>>
    decreases fs
  {
    if fs.NoFields? then multiset{} else Mappings(fs.value) + FieldsMappings(fs.rest)
  }

  function Containers(v: Json): nat
    decreases v
  {
    match v
    case Arr(items) => 1 + ItemsContainers(items)
    case Obj(fields) => 1 + FieldsContainers(fields)
    case _ => 0
  }

  function ItemsContainers(xs: Items): nat
    decreases xs
  {
    if xs.NoItems? then 0 else Containers(xs.head) + ItemsContainers(xs.tail)
  }

  function FieldsContainers(fs: Fields): nat
    decreases fs
  {
    if fs.NoFields? then 0 else Containers(fs.value) + FieldsContainers(fs.rest)
  }

  // ----- what that traversal finds -----

  /** w is v or occurs in it, at any depth. */
  predicate Occurs(w: Json, v: Json)
    decreases v
  {
    || w == v
    || match v
       case Arr(items) => ItemsOccur(w, items)
       case Obj(fields) => FieldsOccur(w, fields)
       case _ => false
  }

  predicate ItemsOccur(w: Json, xs: Items)
    decreases xs
  {
    xs.Item? && (Occurs(w, xs.head) || ItemsOccur(w, xs.tail))
  }

  predicate FieldsOccur(w: Json, fs: Fields)
    decreases fs
  {
    fs.Field? && (Occurs(w, fs.value) || FieldsOccur(w, fs.rest))
  }

  /** Some object of the schema, at any depth, has p under "properties". */
  ghost predicate Declaring(schema: Json, p: Fields) {
    exists fs: Fields :: Occurs(Obj(fs), schema) && Get(fs, Lit("properties")) == Some(Obj(p))
  }

  lemma {:induction false} MappingOccurs(v: Json, m: set<Text>) returns (w: Json)
    requires m in Mappings(v)
    ensures Occurs(w, v) && Declares(w) == [m]
    decreases v
  {
    if m in multiset(Declares(v)) {
      w := v;
    } else if v.Arr? {
      w := MappingInItems(v.items, m);
    } else {
      w := MappingInFields(v.fields, m);
    }
  }

  lemma {:induction false} MappingInItems(xs: Items, m: set<Text>) returns (w: Json)
    requires m in ItemsMappings(xs)
    ensures ItemsOccur(w, xs) && Declares(w) == [m]
    decreases xs
  {
    if m in Mappings(xs.head) { w := MappingOccurs(xs.head, m); } else { w := MappingInItems(xs.tail, m); }
  }

  lemma {:induction false} MappingInFields(fs: Fields, m: set<Text>) returns (w: Json)
    requires m in FieldsMappings(fs)
    ensures FieldsOccur(w, fs) && Declares(w) == [m]
    decreases fs
  {
    if m in Mappings(fs.value) { w := MappingOccurs(fs.value, m); } else { w := MappingInFields(fs.rest, m); }
  }

  lemma {:induction false} OccurringMapped(v: Json, w: Json, m: set<Text>)
    requires Occurs(w, v) && Declares(w) == [m]
    ensures m in Mappings(v)
    decreases v
  {
    if w == v {
      assert m in multiset(Declares(v));
    } else if v.Arr? {
      ItemsMapped(v.items, w, m);
    } else {
      FieldsMapped(v.fields, w, m);
    }
  }

  lemma {:induction false} ItemsMapped(xs: Items, w: Json, m: set<Text>)
    requires ItemsOccur(w, xs) && Declares(w) == [m]
    ensures m in ItemsMappings(xs)
    decreases xs
  {
    if Occurs(w, xs.head) { OccurringMapped(xs.head, w, m); } else { ItemsMapped(xs.tail, w, m); }
  }

  lemma {:induction false} FieldsMapped(fs: Fields, w: Json, m: set<Text>)
    requires FieldsOccur(w, fs) && Declares(w) == [m]
    ensures m in FieldsMappings(fs)
    decreases fs
  {
    if Occurs(w, fs.value) { OccurringMapped(fs.value, w, m); } else { FieldsMapped(fs.rest, w, m); }
  }

  lemma {:induction false} KeysAre(p: Fields, k: Text)
    ensures k in KeySet(p) <==> Get(p, k).Some?
  {
    if p.Field? { KeysAre(p.rest, k); }
  }

  /** The traversal finds the key sets of exactly the properties mappings that
      objects of the schema have, at any depth. */
  lemma MappingsAreDeclared(schema: Json, m: set<Text>)
    ensures m in Mappings(schema) <==> exists p :: Declaring(schema, p) && m == KeySet(p)
  {
    if m in Mappings(schema) {
      var w := MappingOccurs(schema, m);
      var p := Get(w.fields, PROPERTIES).value.fields;
      assert Occurs(Obj(w.fields), schema) && Declaring(schema, p) && m == KeySet(p);
    }
    if p :| Declaring(schema, p) && m == KeySet(p) {
      var fs :| Occurs(Obj(fs), schema) && Get(fs, Lit("properties")) == Some(Obj(p));
      OccurringMapped(schema, Obj(fs), m);
    }
  }

  // ----- what a stack of nodes still holds -----

  function AllMappings(nodes: seq<Json>): multiset<set<Text>> {
    if nodes == [] then multiset{} else Mappings(nodes[0]) + AllMappings(nodes[1..])
  }

  function AllContainers(nodes: seq<Json>): nat {
    if nodes == [] then 0 else Containers(nodes[0]) + AllContainers(nodes[1..])
  }

  lemma {:induction false} AllConcat(a: seq<Json>, b: seq<Json>)
    ensures AllMappings(a + b) == AllMappings(a) + AllMappings(b)
    ensures AllContainers(a + b) == AllContainers(a) + AllContainers(b)
    decreases |a|
  {
    if a == [] {
      assert a + b == b;
    } else {
      assert (a + b)[1..] == a[1..] + b;
      AllConcat(a[1..], b);
    }
  }

  lemma AllOne(v: Json)
    ensures AllMappings([v]) == Mappings(v) && AllContainers([v]) == Containers(v)
  {
    assert [v][1..] == [];
  }

  lemma {:induction false} AllItems(xs: Items)
    ensures AllMappings(ItemSeq(xs)) == ItemsMappings(xs) && AllContainers(ItemSeq(xs)) == ItemsContainers(xs)
    decreases xs
  {
    if xs.Item? {
      AllItems(xs.tail);
      assert ItemSeq(xs)[1..] == ItemSeq(xs.tail);
    }
  }

  lemma {:induction false} AllValues(fs: Fields)
    ensures AllMappings(ValueSeq(fs)) == FieldsMappings(fs) && AllContainers(ValueSeq(fs)) == FieldsContainers(fs)
    decreases fs
  {
    if fs.Field? {
      AllValues(fs.rest);
      assert ValueSeq(fs)[1..] == ValueSeq(fs.rest);
    }
  }

  /** Popping a node and pushing its children only takes the node itself off. */
  lemma Expand(rest: seq<Json>, v: Json)
    ensures AllMappings(rest + [v]) == multiset(Declares(v)) + AllMappings(rest + Children(v))
    ensures AllContainers(rest + [v]) == (if IsContainer(v) then 1 else 0) + AllContainers(rest + Children(v))
  {
    AllConcat(rest, [v]);
    AllOne(v);
    AllConcat(rest, Children(v));
    ChildrenOf(v);
  }

  lemma ChildrenOf(v: Json)
    ensures Mappings(v) == multiset(Declares(v)) + AllMappings(Children(v))
    ensures Containers(v) == (if IsContainer(v) then 1 else 0) + AllContainers(Children(v))
  {
    match v
    case Arr(items) => AllItems(items);
    case Obj(fields) => AllValues(fields);
    case _ =>
  }

  /** The walk finds every properties mapping, unless the schema has more
      containers than the cap. */
  method DeclaredPropertyMappings(schema: Json) returns (mappings: seq<set<Text>>, truncated: bool)
    ensures truncated <==> Containers(schema) > MAX_SCHEMA_CONTAINERS
    ensures !truncated ==> multiset(mappings) == Mappings(schema)
  {
    mappings := [];
    var stack, seen := [schema], 0;
    AllOne(schema);
    while stack != []
      invariant Gathered(mappings, stack, schema)
      invariant seen + AllContainers(stack) == Containers(schema) && seen <= MAX_SCHEMA_CONTAINERS
      decreases AllContainers(stack), |stack|
    {
      var node, rest := stack[|stack| - 1], stack[..|stack| - 1];
      assert stack == rest + [node];
      GatherTurn(mappings, rest, node, schema);
      stack := rest;
      if IsContainer(node) {
        seen := seen + 1;
        if seen > MAX_SCHEMA_CONTAINERS {
          return mappings, true;
        }
        mappings := mappings + Declares(node);
        stack := stack + Children(node);
      }
    }
    truncated := false;
  }

  ghost predicate Gathered(mappings: seq<set<Text>>, stack: seq<Json>, schema: Json) {
    multiset(mappings) + AllMappings(stack) == Mappings(schema)
  }

  lemma GatherTurn(mappings: seq<set<Text>>, rest: seq<Json>, v: Json, schema: Json)
    requires Gathered(mappings, rest + [v], schema)
    ensures Gathered(mappings + Declares(v), rest + Children(v), schema)
    ensures AllContainers(rest + [v]) == (if IsContainer(v) then 1 else 0) + AllContainers(rest + Children(v))
    ensures !IsContainer(v) ==> rest + Children(v) == rest && mappings + Declares(v) == mappings
  {
    Expand(rest, v);
  }

  // ----- which keys are flagged -----

  /** The properties mappings of a schema. */
  type Declared = multiset<set<Text>>

  function Union(decl: Declared): set<Text> {
    set m, n | m in decl && n in m :: n
  }

  /** The declared spellings of a folded name. */
  function Spellings(decl: Declared, fold: Fold, f: Text): set<Text> {
    set n | n in Union(decl) && fold(n) == f
  }

  /** Every mapping that declares one of these spellings declares all of them. */
  predicate Codeclared(decl: Declared, spellings: set<Text>) {
    forall m :: m in decl && m * spellings != {} ==> spellings <= m
  }

  /** The loop's test of a key. */
  predicate Flagged(decl: Declared, fold: Fold, key: Text) {
    var spellings := Spellings(decl, fold, fold(key));
    spellings != {} &&
    if |spellings| == 1 || (|spellings| > 1 && Codeclared(decl, spellings)) then key !in spellings else true
  }

  function KeyPath(path: Text, key: Text): Text { path + Char('/') + key }

  function IndexPath(path: Text, i: nat): Text { path + Char('/') + NatText(i) }

  // ----- the recursive traversal of a value -----

  function FlaggedIn(decl: Declared, fold: Fold, path: Text, v: Json): multiset<Text>
    decreases v
  {
    match v
    case Obj(fields) => FieldsFlagged(decl, fold, path, fields)
    case Arr(items) => ItemsFlagged(decl, fold, path, items, 0)
    case _ => multiset{}
  }

  function FieldsFlagged(decl: Declared, fold: Fold, path: Text, fs: Fields): multiset<Text>
    decreases fs
  {
    if fs.NoFields? then multiset{}
    else
      (if Flagged(decl, fold, fs.key) then multiset{KeyPath(path, fs.key)} else multiset{})
      + FlaggedIn(decl, fold, KeyPath(path, fs.key), fs.value) + FieldsFlagged(decl, fold, path, fs.rest)
  }

  function ItemsFlagged(decl: Declared, fold: Fold, path: Text, xs: Items, i: nat): multiset<Text>
    decreases xs
  {
    if xs.NoItems? then multiset{}
    else FlaggedIn(decl, fold, IndexPath(path, i), xs.head) + ItemsFlagged(decl, fold, path, xs.tail, i + 1)
  }

  // ----- the worklist over a value -----

  datatype Node = Node(path: Text, v: Json)

  function NodeFields(path: Text, fs: Fields): seq<Node> {
    if fs.NoFields? then [] else [Node(KeyPath(path, fs.key), fs.value)] + NodeFields(path, fs.rest)
  }

  function NodeItems(path: Text, xs: Items, i: nat): seq<Node>
    decreases xs
  {
    if xs.NoItems? then [] else [Node(IndexPath(path, i), xs.head)] + NodeItems(path, xs.tail, i + 1)
  }

  function KeysFlagged(decl: Declared, fold: Fold, path: Text, fs: Fields): seq<Text> {
    if fs.NoFields? then []
    else (if Flagged(decl, fold, fs.key) then [KeyPath(path, fs.key)] else []) + KeysFlagged(decl, fold, path, fs.rest)
  }

  function StackFlagged(decl: Declared, fold: Fold, nodes: seq<Node>): multiset<Text> {
    if nodes == [] then multiset{}
    else FlaggedIn(decl, fold, nodes[0].path, nodes[0].v) + StackFlagged(decl, fold, nodes[1..])
  }

  function StackContainers(nodes: seq<Node>): nat {
    if nodes == [] then 0 else Containers(nodes[0].v) + StackContainers(nodes[1..])
  }

  lemma {:induction false} StackConcat(decl: Declared, fold: Fold, a: seq<Node>, b: seq<Node>)
    ensures StackFlagged(decl, fold, a + b) == StackFlagged(decl, fold, a) + StackFlagged(decl, fold, b)
    ensures StackContainers(a + b) == StackContainers(a) + StackContainers(b)
    decreases |a|
  {
    if a == [] {
      assert a + b == b;
    } else {
      assert (a + b)[1..] == a[1..] + b;
      StackConcat(decl, fold, a[1..], b);
    }
  }

  lemma StackOne(decl: Declared, fold: Fold, n: Node)
    ensures StackFlagged(decl, fold, [n]) == FlaggedIn(decl, fold, n.path, n.v)
    ensures StackContainers([n]) == Containers(n.v)
  {
    assert [n][1..] == [];
  }

  lemma {:induction false} StackOfFields(decl: Declared, fold: Fold, path: Text, fs: Fields)
    ensures multiset(KeysFlagged(decl, fold, path, fs)) + StackFlagged(decl, fold, NodeFields(path, fs))
            == FieldsFlagged(decl, fold, path, fs)
    ensures StackContainers(NodeFields(path, fs)) == FieldsContainers(fs)
    decreases fs
  {
    if fs.Field? {
      StackOfFields(decl, fold, path, fs.rest);
      assert NodeFields(path, fs)[1..] == NodeFields(path, fs.rest);
    }
  }

  lemma {:induction false} StackOfItems(decl: Declared, fold: Fold, path: Text, xs: Items, i: nat)
    ensures StackFlagged(decl, fold, NodeItems(path, xs, i)) == ItemsFlagged(decl, fold, path, xs, i)
    ensures StackContainers(NodeItems(path, xs, i)) == ItemsContainers(xs)
    decreases xs
  {
    if xs.Item? {
      StackOfItems(decl, fold, path, xs.tail, i + 1);
      assert NodeItems(path, xs, i)[1..] == NodeItems(path, xs.tail, i + 1);
    }
  }

  function NodeChildren(n: Node): seq<Node> {
    match n.v
    case Obj(fields) => NodeFields(n.path, fields)
    case Arr(items) => NodeItems(n.path, items, 0)
    case _ => []
  }

  function NodeFlagged(decl: Declared, fold: Fold, n: Node): seq<Text> {
    if n.v.Obj? then KeysFlagged(decl, fold, n.path, n.v.fields) else []
  }

  lemma ExpandNode(decl: Declared, fold: Fold, rest: seq<Node>, n: Node)
    ensures StackFlagged(decl, fold, rest + [n])
            == multiset(NodeFlagged(decl, fold, n)) + StackFlagged(decl, fold, rest + NodeChildren(n))
    ensures StackContainers(rest + [n])
            == (if IsContainer(n.v) then 1 else 0) + StackContainers(rest + NodeChildren(n))
  {
    StackConcat(decl, fold, rest, [n]);
    StackOne(decl, fold, n);
    StackConcat(decl, fold, rest, NodeChildren(n));
    match n.v
    case Obj(fields) => StackOfFields(decl, fold, n.path, fields);
    case Arr(items) => StackOfItems(decl, fold, n.path, items, 0);
    case _ =>
  }

  /** Nothing is declared, so nothing is flagged. */
  lemma NothingDeclared(decl: Declared, fold: Fold, path: Text, v: Json)
    requires Union(decl) == {}
    ensures FlaggedIn(decl, fold, path, v) == multiset{}
  {
    forall k | HasKey(v, k) ensures !Flagged(decl, fold, k) {
      assert Spellings(decl, fold, fold(k)) == {};
    }
    NoneFlaggedExactlyWhen(decl, fold, path, v);
  }

  /** What the walk returns on a schema within the cap: the flagged key paths of
      the recursive traversal, sorted. */
  ghost predicate SortedListing(found: seq<Text>, bag: multiset<Text>) {
    Sorted(found) && multiset(found) == bag
  }

  /** A schema too large to walk flags everything. */
  method SchemaCaseVariantKeys(fold: Fold, schema: Json, value: Json) returns (found: seq<Text>)
    ensures Containers(schema) > MAX_SCHEMA_CONTAINERS ==>
              found == if value == Null || value == Obj(NoFields) || value == Arr(NoItems) then [] else [TOO_LARGE]
    ensures Containers(schema) <= MAX_SCHEMA_CONTAINERS ==>
              SortedListing(found, FlaggedIn(Mappings(schema), fold, [], value))
  {
    var mappings, truncated := DeclaredPropertyMappings(schema);
    if truncated {
      return if value == Null || value == Obj(NoFields) || value == Arr(NoItems) then [] else [TOO_LARGE];
    }
    var decl := multiset(mappings);
    found := [];
    if Union(decl) == {} {
      NothingDeclared(decl, fold, [], value);
      return;
    }
    var stack := [Node([], value)];
    WalkStarts(decl, fold, value);
    while stack != []
      invariant Walked(decl, fold, found, stack, value)
      decreases StackContainers(stack), |stack|
    {
      var node, rest := stack[|stack| - 1], stack[..|stack| - 1];
      assert stack == rest + [node];
      WalkTurn(decl, fold, found, rest, node, value);
      found := found + NodeFlagged(decl, fold, node);
      stack := rest + NodeChildren(node);
    }
    WalkEnds(decl, fold, found, value);
    found := Sort(found);
  }

  lemma WalkStarts(decl: Declared, fold: Fold, value: Json)
    ensures Walked(decl, fold, [], [Node([], value)], value)
  {
    StackOne(decl, fold, Node([], value));
  }

  lemma WalkEnds(decl: Declared, fold: Fold, found: seq<Text>, value: Json)
    requires Walked(decl, fold, found, [], value)
    ensures SortedListing(Sort(found), FlaggedIn(decl, fold, [], value))
  {
    SortSorts(found);
  }

  /** What has been found and what the stack still holds are all there is. */
  ghost predicate Walked(decl: Declared, fold: Fold, found: seq<Text>, stack: seq<Node>, value: Json) {
    multiset(found) + StackFlagged(decl, fold, stack) == FlaggedIn(decl, fold, [], value)
  }

  lemma WalkTurn(decl: Declared, fold: Fold, found: seq<Text>, rest: seq<Node>, n: Node, value: Json)
    requires Walked(decl, fold, found, rest + [n], value)
    ensures Walked(decl, fold, found + NodeFlagged(decl, fold, n), rest + NodeChildren(n), value)
    ensures StackContainers(rest + NodeChildren(n)) <= StackContainers(rest + [n])
    ensures StackContainers(rest + NodeChildren(n)) == StackContainers(rest + [n]) ==>
              rest + NodeChildren(n) == rest
  {
    ExpandNode(decl, fold, rest, n);
    if !IsContainer(n.v) { assert rest + NodeChildren(n) == rest; }
  }

  // ----- what an empty answer means -----

  /** The key occurs at some depth of the value. */
  predicate HasKey(v: Json, k: Text)
    decreases v
  {
    match v
    case Obj(fields) => FieldsHaveKey(fields, k)
    case Arr(items) => ItemsHaveKey(items, k)
    case _ => false
  }

  predicate FieldsHaveKey(fs: Fields, k: Text)
    decreases fs
  {
    fs.Field? && (fs.key == k || HasKey(fs.value, k) || FieldsHaveKey(fs.rest, k))
  }

  predicate ItemsHaveKey(xs: Items, k: Text)
    decreases xs
  {
    xs.Item? && (HasKey(xs.head, k) || ItemsHaveKey(xs.tail, k))
  }

  lemma {:induction false} NoneFlaggedExactlyWhen(decl: Declared, fold: Fold, path: Text, v: Json)
    ensures FlaggedIn(decl, fold, path, v) == multiset{} <==> forall k :: HasKey(v, k) ==> !Flagged(decl, fold, k)
    decreases v, 0
  {
    match v
    case Obj(fields) => NoFieldFlagged(decl, fold, path, fields);
    case Arr(items) => NoItemFlagged(decl, fold, path, items, 0);
    case _ =>
  }

  lemma {:induction false} NoFieldFlagged(decl: Declared, fold: Fold, path: Text, fs: Fields)
    ensures FieldsFlagged(decl, fold, path, fs) == multiset{} <==>
            forall k :: FieldsHaveKey(fs, k) ==> !Flagged(decl, fold, k)
    decreases fs, 0
  {
    if fs.Field? {
      NoneFlaggedExactlyWhen(decl, fold, KeyPath(path, fs.key), fs.value);
      NoFieldFlagged(decl, fold, path, fs.rest);
      EmptySum3(if Flagged(decl, fold, fs.key) then multiset{KeyPath(path, fs.key)} else multiset{},
                FlaggedIn(decl, fold, KeyPath(path, fs.key), fs.value), FieldsFlagged(decl, fold, path, fs.rest));
      assert FieldsHaveKey(fs, fs.key);
    }
  }

  lemma {:induction false} NoItemFlagged(decl: Declared, fold: Fold, path: Text, xs: Items, i: nat)
    ensures ItemsFlagged(decl, fold, path, xs, i) == multiset{} <==>
            forall k :: ItemsHaveKey(xs, k) ==> !Flagged(decl, fold, k)
    decreases xs, 0
  {
    if xs.Item? {
      NoneFlaggedExactlyWhen(decl, fold, IndexPath(path, i), xs.head);
      NoItemFlagged(decl, fold, path, xs.tail, i + 1);
      EmptySum3(multiset{}, FlaggedIn(decl, fold, IndexPath(path, i), xs.head),
                ItemsFlagged(decl, fold, path, xs.tail, i + 1));
    }
  }

  // ----- the paths it gives -----

  /** Following the steps, by keys and positions, from a value ends at a key. */
  predicate KeyAt(v: Json, steps: seq<Text>)
    decreases v
  {
    match v
    case Obj(fields) => KeyAtField(fields, steps)
    case Arr(items) => KeyAtItem(items, 0, steps)
    case _ => false
  }

  predicate KeyAtField(fs: Fields, steps: seq<Text>)
    decreases fs
  {
    && fs.Field? && steps != []
    && ((fs.key == steps[0] && (|steps| == 1 || KeyAt(fs.value, steps[1..]))) || KeyAtField(fs.rest, steps))
  }

  predicate KeyAtItem(xs: Items, i: nat, steps: seq<Text>)
    decreases xs
  {
    && xs.Item? && |steps| > 1
    && ((steps[0] == NatText(i) && KeyAt(xs.head, steps[1..])) || KeyAtItem(xs.tail, i + 1, steps))
  }

  /** Each step after a slash. */
  function Slashed(steps: seq<Text>): Text {
    if steps == [] then [] else ['/' as int] + steps[0] + Slashed(steps[1..])
  }

  lemma SlashedMore(path: Text, step: Text, steps: seq<Text>)
    ensures Slashed([step] + steps) == ['/' as int] + step + Slashed(steps)
    ensures path + Slashed([step] + steps) == path + Char('/') + step + Slashed(steps)
  {
    assert ([step] + steps)[1..] == steps;
    assert path + (['/' as int] + step + Slashed(steps)) == path + Char('/') + step + Slashed(steps);
  }

  /** The steps end at a flagged key, and this is their path. */
  predicate Listed(decl: Declared, fold: Fold, path: Text, steps: seq<Text>, x: Text) {
    steps != [] && Flagged(decl, fold, steps[|steps| - 1]) && x == path + Slashed(steps)
  }

  lemma ListedMore(decl: Declared, fold: Fold, path: Text, step: Text, steps: seq<Text>, x: Text)
    requires steps != []
    ensures Listed(decl, fold, path, [step] + steps, x) <==> Listed(decl, fold, path + Char('/') + step, steps, x)
  {
    SlashedMore(path, step, steps);
  }

  lemma ListedOne(decl: Declared, fold: Fold, path: Text, step: Text, x: Text)
    ensures Listed(decl, fold, path, [step], x) <==> Flagged(decl, fold, step) && x == path + Char('/') + step
  {
    SlashedMore(path, step, []);
    assert [step] + [] == [step] && path + Char('/') + step + Slashed([]) == path + Char('/') + step;
  }

  lemma {:induction false} StepsOf(decl: Declared, fold: Fold, path: Text, v: Json, x: Text) returns (steps: seq<Text>)
    requires x in FlaggedIn(decl, fold, path, v)
    ensures KeyAt(v, steps) && Listed(decl, fold, path, steps, x)
    decreases v
  {
    if v.Obj? { steps := StepsOfField(decl, fold, path, v.fields, x); }
    else { steps := StepsOfItem(decl, fold, path, v.items, 0, x); }
  }

  lemma {:induction false} StepsOfField(decl: Declared, fold: Fold, path: Text, fs: Fields, x: Text)
    returns (steps: seq<Text>)
    requires x in FieldsFlagged(decl, fold, path, fs)
    ensures KeyAtField(fs, steps) && Listed(decl, fold, path, steps, x)
    decreases fs
  {
    if Flagged(decl, fold, fs.key) && x == KeyPath(path, fs.key) {
      steps := [fs.key];
      ListedOne(decl, fold, path, fs.key, x);
    } else if x in FlaggedIn(decl, fold, KeyPath(path, fs.key), fs.value) {
      var rest := StepsOf(decl, fold, KeyPath(path, fs.key), fs.value, x);
      steps := [fs.key] + rest;
      ListedMore(decl, fold, path, fs.key, rest, x);
    } else {
      steps := StepsOfField(decl, fold, path, fs.rest, x);
    }
  }

  lemma {:induction false} StepsOfItem(decl: Declared, fold: Fold, path: Text, xs: Items, i: nat, x: Text)
    returns (steps: seq<Text>)
    requires x in ItemsFlagged(decl, fold, path, xs, i)
    ensures KeyAtItem(xs, i, steps) && Listed(decl, fold, path, steps, x)
    decreases xs
  {
    if x in FlaggedIn(decl, fold, IndexPath(path, i), xs.head) {
      var rest := StepsOf(decl, fold, IndexPath(path, i), xs.head, x);
      steps := [NatText(i)] + rest;
      ListedMore(decl, fold, path, NatText(i), rest, x);
    } else {
      steps := StepsOfItem(decl, fold, path, xs.tail, i + 1, x);
    }
  }

  lemma {:induction false} StepsListed(decl: Declared, fold: Fold, path: Text, v: Json, steps: seq<Text>, x: Text)
    requires KeyAt(v, steps) && Listed(decl, fold, path, steps, x)
    ensures x in FlaggedIn(decl, fold, path, v)
    decreases v
  {
    if v.Obj? {
      StepsListedInFields(decl, fold, path, v.fields, steps, x);
    } else {
      StepsListedInItems(decl, fold, path, v.items, 0, steps, x);
    }
  }

  lemma {:induction false} StepsListedInFields(decl: Declared, fold: Fold, path: Text, fs: Fields, steps: seq<Text>,
                                               x: Text)
    requires KeyAtField(fs, steps) && Listed(decl, fold, path, steps, x)
    ensures x in FieldsFlagged(decl, fold, path, fs)
    decreases fs
  {
    if KeyAtField(fs.rest, steps) {
      StepsListedInFields(decl, fold, path, fs.rest, steps, x);
    } else if |steps| == 1 {
      assert steps == [fs.key];
      ListedOne(decl, fold, path, fs.key, x);
    } else {
      assert steps == [fs.key] + steps[1..];
      ListedMore(decl, fold, path, fs.key, steps[1..], x);
      StepsListed(decl, fold, KeyPath(path, fs.key), fs.value, steps[1..], x);
    }
  }

  lemma {:induction false} StepsListedInItems(decl: Declared, fold: Fold, path: Text, xs: Items, i: nat,
                                              steps: seq<Text>, x: Text)
    requires KeyAtItem(xs, i, steps) && Listed(decl, fold, path, steps, x)
    ensures x in ItemsFlagged(decl, fold, path, xs, i)
    decreases xs
  {
    if KeyAtItem(xs.tail, i + 1, steps) {
      StepsListedInItems(decl, fold, path, xs.tail, i + 1, steps, x);
    } else {
      assert steps == [NatText(i)] + steps[1..];
      ListedMore(decl, fold, path, NatText(i), steps[1..], x);
      StepsListed(decl, fold, IndexPath(path, i), xs.head, steps[1..], x);
    }
  }

  /** The walk gives exactly the paths of the flagged keys: the steps down to each,
      every one after a slash. */
  lemma PathsExactly(decl: Declared, fold: Fold, v: Json, x: Text)
    ensures x in FlaggedIn(decl, fold, [], v) <==>
            exists steps :: KeyAt(v, steps) && steps != [] && Flagged(decl, fold, steps[|steps| - 1])
                            && x == Slashed(steps)
  {
    if x in FlaggedIn(decl, fold, [], v) {
      var steps := StepsOf(decl, fold, [], v, x);
      assert [] + Slashed(steps) == Slashed(steps);
    }
    if steps :| KeyAt(v, steps) && steps != [] && Flagged(decl, fold, steps[|steps| - 1]) && x == Slashed(steps) {
      assert [] + Slashed(steps) == Slashed(steps);
      StepsListed(decl, fold, [], v, steps, x);
    }
  }

  lemma EmptySum3(a: multiset<Text>, b: multiset<Text>, c: multiset<Text>)
    ensures a + b + c == multiset{} <==> a == multiset{} && b == multiset{} && c == multiset{}
  {
    assert |a + b + c| == |a| + |b| + |c|;
  }

  lemma SingletonCodeclared(decl: Declared, spellings: set<Text>)
    requires |spellings| == 1
    ensures Codeclared(decl, spellings)
  {
    var x :| x in spellings;
    assert |spellings - {x}| == 0;
    assert spellings == {x} + (spellings - {x}) == {x};
    forall m | m in decl && m * spellings != {} ensures spellings <= m {
      var y :| y in m * spellings;
      assert y in spellings;
    }
  }

  /** A key passes exactly when nothing folds to it, or it is itself declared
      and the mappings agree on which spellings of it they declare. */
  lemma PassesExactlyWhen(decl: Declared, fold: Fold, k: Text)
    ensures !Flagged(decl, fold, k) <==>
            var spellings := Spellings(decl, fold, fold(k));
            spellings == {} || (k in spellings && Codeclared(decl, spellings))
  {
    var spellings := Spellings(decl, fold, fold(k));
    if |spellings| == 1 {
      SingletonCodeclared(decl, spellings);
    }
  }

  /** Wherever a name folds to the key's fold, the mapping declares the key. */
  predicate BindingAgrees(decl: Declared, fold: Fold, k: Text) {
    forall m, n :: m in decl && n in m && fold(n) == fold(k) ==> k in m
  }

  /** A key whose binding agrees is flagged all the same exactly when the mappings
      disagree on its other spellings: the documented caution, and no more. */
  lemma FlaggedThoughAgreeing(decl: Declared, fold: Fold, k: Text)
    requires BindingAgrees(decl, fold, k)
    ensures Flagged(decl, fold, k) <==>
            var spellings := Spellings(decl, fold, fold(k));
            spellings != {} && !Codeclared(decl, spellings)
  {
    PassesExactlyWhen(decl, fold, k);
    var spellings := Spellings(decl, fold, fold(k));
    if n :| n in spellings {
      var m :| m in decl && n in m;
      assert k in m;
    }
  }

  /** Two spellings, one of which some mapping leaves out. */
  lemma CautionFlags(fold: Fold, k: Text, other: Text)
    requires k != other && fold(k) == fold(other)
    ensures var decl := multiset{{k, other}, {k}};
            BindingAgrees(decl, fold, k) && Flagged(decl, fold, k)
  {
    var decl := multiset{{k, other}, {k}};
    var spellings := Spellings(decl, fold, fold(k));
    assert {k, other} in decl && {k} in decl;
    assert k in Union(decl) && other in Union(decl);
    assert {k} * spellings != {} && !(spellings <= {k}) by { assert k in {k} * spellings && other in spellings; }
    FlaggedThoughAgreeing(decl, fold, k);
  }

  /** With an empty answer, exact and case-insensitive binding agree: wherever a
      key occurs, a mapping that declares a name with its case fold declares
      that very key. */
  lemma ExactBindingAgrees(fold: Fold, schema: Json, value: Json, k: Text, m: set<Text>, n: Text)
    requires FlaggedIn(Mappings(schema), fold, [], value) == multiset{}
    requires HasKey(value, k) && m in Mappings(schema) && n in m && fold(n) == fold(k)
    ensures k in m
  {
    var decl := Mappings(schema);
    NoneFlaggedExactlyWhen(decl, fold, [], value);
    PassesExactlyWhen(decl, fold, k);
    var spellings := Spellings(decl, fold, fold(k));
    assert n in Union(decl) && n in spellings;
    assert n in m * spellings;
  }

  /** Some properties mapping of the schema declares the name. */
  ghost predicate DeclaredName(schema: Json, n: Text) {
    exists p :: Declaring(schema, p) && Get(p, n).Some?
  }

  /** Some properties mapping of the schema declares b and not a. */
  ghost predicate Parted(schema: Json, a: Text, b: Text) {
    exists p :: Declaring(schema, p) && Get(p, b).Some? && Get(p, a).None?
  }

  /** The key folds to a declared name, and either it is not declared itself or
      some mapping declares one spelling of it and leaves out another. */
  ghost predicate Ambiguous(schema: Json, fold: Fold, k: Text) {
    && (exists n :: DeclaredName(schema, n) && fold(n) == fold(k))
    && (!DeclaredName(schema, k)
        || exists a, b :: DeclaredName(schema, a) && Parted(schema, a, b) && fold(a) == fold(b) == fold(k))
  }

  lemma SpellingsAre(schema: Json, fold: Fold, k: Text, n: Text)
    ensures n in Spellings(Mappings(schema), fold, fold(k)) <==> fold(n) == fold(k) && DeclaredName(schema, n)
  {
    var decl := Mappings(schema);
    if n in Union(decl) {
      var m :| m in decl && n in m;
      MappingsAreDeclared(schema, m);
      var p :| Declaring(schema, p) && m == KeySet(p);
      KeysAre(p, n);
    }
    if DeclaredName(schema, n) {
      var p :| Declaring(schema, p) && Get(p, n).Some?;
      MappingsAreDeclared(schema, KeySet(p));
      KeysAre(p, n);
      assert KeySet(p) in decl && n in Union(decl);
    }
  }

  lemma PartedIs(schema: Json, a: Text, b: Text)
    ensures Parted(schema, a, b) <==> exists m :: m in Mappings(schema) && b in m && a !in m
  {
    if Parted(schema, a, b) {
      var p :| Declaring(schema, p) && Get(p, b).Some? && Get(p, a).None?;
      MappingsAreDeclared(schema, KeySet(p));
      KeysAre(p, a);
      KeysAre(p, b);
    }
    if m :| m in Mappings(schema) && b in m && a !in m {
      MappingsAreDeclared(schema, m);
      var p :| Declaring(schema, p) && m == KeySet(p);
      KeysAre(p, a);
      KeysAre(p, b);
    }
  }

  lemma NotCodeclared(decl: Declared, spellings: set<Text>)
    ensures !Codeclared(decl, spellings) <==>
            exists a, b :: a in spellings && b in spellings && exists m :: m in decl && b in m && a !in m
  {
    if !Codeclared(decl, spellings) {
      var m :| m in decl && m * spellings != {} && !(spellings <= m);
      var a, b :| a in spellings && a !in m && b in m * spellings;
    }
    if a, b :| a in spellings && b in spellings && exists m :: m in decl && b in m && a !in m {
      var m :| m in decl && b in m && a !in m;
      assert b in m * spellings;
    }
  }

  lemma CodeclaredIs(schema: Json, fold: Fold, k: Text)
    ensures !Codeclared(Mappings(schema), Spellings(Mappings(schema), fold, fold(k))) <==>
            exists a, b :: DeclaredName(schema, a) && Parted(schema, a, b) && fold(a) == fold(b) == fold(k)
  {
    var decl := Mappings(schema);
    var all := Spellings(decl, fold, fold(k));
    NotCodeclared(decl, all);
    if a, b :| a in all && b in all && exists m :: m in decl && b in m && a !in m {
      SpellingsAre(schema, fold, k, a);
      SpellingsAre(schema, fold, k, b);
      PartedIs(schema, a, b);
    }
    if a, b :| DeclaredName(schema, a) && Parted(schema, a, b) && fold(a) == fold(b) == fold(k) {
      SpellingsAre(schema, fold, k, a);
      SpellingsAre(schema, fold, k, b);
      PartedIs(schema, a, b);
    }
  }

  /** The loop's test of a key, told of the schema. */
  lemma FlaggedExactlyWhen(schema: Json, fold: Fold, k: Text)
    ensures Flagged(Mappings(schema), fold, k) <==> Ambiguous(schema, fold, k)
  {
    var all := Spellings(Mappings(schema), fold, fold(k));
    PassesExactlyWhen(Mappings(schema), fold, k);
    SpellingsAre(schema, fold, k, k);
    CodeclaredIs(schema, fold, k);
    if n :| n in all { SpellingsAre(schema, fold, k, n); }
    if n :| DeclaredName(schema, n) && fold(n) == fold(k) { SpellingsAre(schema, fold, k, n); }
  }

  /** The answer for a walkable schema is empty exactly when every key of the
      value, at any depth, folds to nothing declared or is declared with the
      mappings in agreement. */
  lemma EmptyExactlyWhen(fold: Fold, schema: Json, value: Json)
    ensures FlaggedIn(Mappings(schema), fold, [], value) == multiset{} <==>
            forall k :: HasKey(value, k) ==>
              var spellings := Spellings(Mappings(schema), fold, fold(k));
              spellings == {} || (k in spellings && Codeclared(Mappings(schema), spellings))
  {
    var decl := Mappings(schema);
    NoneFlaggedExactlyWhen(decl, fold, [], value);
    forall k ensures !Flagged(decl, fold, k) <==>
        var spellings := Spellings(decl, fold, fold(k));
        spellings == {} || (k in spellings && Codeclared(decl, spellings))
    {
      PassesExactlyWhen(decl, fold, k);
    }
  }
}
