/** The plain-data view of tool arguments that the scanners read: a walk over an
    object graph that may share and cycle, cut by a depth limit, by the objects
    on the current path and by an entry budget shared by the whole walk. */
module ScanView {
  import opened Text
  import opened JsonText
  import opened FreshKeys

  const MAX_KWARG_DEPTH: nat := 64
  const MAX_SCAN_ENTRIES: nat := 100_000
  const CYCLE: Text := Lit("<cycle>")

  type Scalar = v: Json | !v.Arr? && !v.Obj? witness Null

  /** A Python value: an atom, given with its view (None, a bool, a number, a
      str, decoded bytes, a date's text), or an object known by its identity. */
  datatype Value = Atom(view: Scalar) | Ref(id: nat)

  /** A pair of a mapping, and the name of the key's type. */
  datatype Entry = Entry(key: Value, kind: Text, value: Value)

  /** What an object is read as: the value behind a secret; the value of an enum
      member, the text of a pattern or the item of a numpy scalar; the pairs of a
      dict, a mapping, a dataclass or a model; the items of an iterable; or
      nothing the scanners could read. */
  datatype Node =
    | Secret(inner: Value)
    | Wrapped(inner: Value)
    | Pairs(entries: seq<Entry>)
    | Iterable(items: seq<Value>)
    | Unviewable

  /** The objects by identity, and json.dumps as used for non-text keys. */
  datatype World = World(node: nat -> Node, dumps: Json -> Text)

  datatype Refusal = TooDeep | TooMany | CannotBeScanned

  /** A result, with the budget left, or the ValidationError raised. */
  datatype Scan<+T> = Refused(why: Refusal) | Done(result: T, left: nat)

  function ItemsOf(vs: seq<Json>): Items {
    if vs == [] then NoItems else Item(vs[0], ItemsOf(vs[1..]))
  }

  function FieldsOf(out: seq<Named>): Fields {
    if out == [] then NoFields else Field(out[0].key, out[0].view, FieldsOf(out[1..]))
  }

  function Level(depth: nat): nat { if depth > MAX_KWARG_DEPTH then 0 else MAX_KWARG_DEPTH + 1 - depth }

  // ----- the view -----

  function View(w: World, v: Value, depth: nat, seen: set<nat>, left: nat): Scan<Json>
    decreases Level(depth), 3, 0
  {
    if depth > MAX_KWARG_DEPTH then Refused(TooDeep)
    else if v.Atom? then Done(v.view, left)
    else
      match w.node(v.id)
      case Secret(inner) => View(w, inner, depth + 1, seen, left)
      case node =>
        if v.id in seen then Done(Str(CYCLE), left) else ViewNode(w, node, depth, seen + {v.id}, left)
  }

  function ViewNode(w: World, node: Node, depth: nat, seen: set<nat>, left: nat): Scan<Json>
    requires depth <= MAX_KWARG_DEPTH
    decreases Level(depth), 2, 0
  {
    match node
    case Pairs(entries) => ViewPairs(w, entries, depth, seen, left)
    case Iterable(items) =>
      (match ViewItems(w, items, depth, seen, left)
       case Refused(why) => Refused(why)
       case Done(vs, l) => Done(Arr(ItemsOf(vs)), l))
    case Unviewable => Refused(CannotBeScanned)
    case _ => View(w, node.inner, depth + 1, seen, left)
  }

  function ViewPairs(w: World, entries: seq<Entry>, depth: nat, seen: set<nat>, left: nat): Scan<Json>
    requires depth <= MAX_KWARG_DEPTH
    decreases Level(depth), 1, |entries| + 1
  {
    match ViewEntries(w, entries, depth, seen, left)
    case Refused(why) => Refused(why)
    case Done(vs, l) => Done(Obj(FieldsOf(Filled(vs).out)), l)
  }

  function ViewItems(w: World, items: seq<Value>, depth: nat, seen: set<nat>, left: nat): Scan<seq<Json>>
    requires depth <= MAX_KWARG_DEPTH
    decreases Level(depth), 1, |items|
  {
    if items == [] then Done([], left)
    else if left == 0 then Refused(TooMany)
    else
      match View(w, items[0], depth + 1, seen, left - 1)
      case Refused(why) => Refused(why)
      case Done(v, l) =>
        (match ViewItems(w, items[1..], depth, seen, l)
         case Refused(why) => Refused(why)
         case Done(vs, m) => Done([v] + vs, m))
  }

  /** The text of a key: a str as it is, anything else by its view. */
  function KeyText(w: World, k: Value, depth: nat, seen: set<nat>, left: nat): Scan<Text>
    requires depth <= MAX_KWARG_DEPTH
    decreases Level(depth), 0, 0
  {
    if k.Atom? && k.view.Str? then Done(k.view.s, left)
    else
      match View(w, k, depth + 1, seen, left)
      case Refused(why) => Refused(why)
      case Done(v, l) => Done(if v.Str? then v.s else w.dumps(v), l)
  }

  /** The entries of a mapping before their keys are made distinct. */
  function ViewEntries(w: World, entries: seq<Entry>, depth: nat, seen: set<nat>, left: nat): Scan<seq<Viewed>>
    requires depth <= MAX_KWARG_DEPTH
    decreases Level(depth), 1, |entries|
  {
    if entries == [] then Done([], left)
    else if left == 0 then Refused(TooMany)
    else
      match ViewEntry(w, entries[0], depth, seen, left - 1)
      case Refused(why) => Refused(why)
      case Done(v, l) =>
        (match ViewEntries(w, entries[1..], depth, seen, l)
         case Refused(why) => Refused(why)
         case Done(vs, m) => Done([v] + vs, m))
  }

  function ViewEntry(w: World, e: Entry, depth: nat, seen: set<nat>, left: nat): Scan<Viewed>
    requires depth <= MAX_KWARG_DEPTH
    decreases Level(depth), 0, 1
  {
    match KeyText(w, e.key, depth, seen, left)
    case Refused(why) => Refused(why)
    case Done(base, l) =>
      (match View(w, e.value, depth + 1, seen, l)
       case Refused(why) => Refused(why)
       case Done(v, m) => Done(Viewed(base, e.kind, v), m))
  }

  /** The view of a call's arguments. */
  function JsonableArguments(w: World, kwargs: seq<Entry>): Scan<Json> {
    ViewPairs(w, kwargs, 0, {}, MAX_SCAN_ENTRIES)
  }

  // ----- the walk with its shared budget -----

  /** The one-element list every level of the walk charges. */
  class Budget {
    var left: int

    constructor (n: nat)
      ensures left == n
    {
      left := n;
    }
  }

  datatype Outcome<+T> = Failed(why: Refusal) | Ok(result: T)

  /** What a call of the walk returns and leaves in the budget. */
  ghost predicate Follows<T>(r: Outcome<T>, left: int, s: Scan<T>) {
    match s
    case Refused(why) => r == Failed(why)
    case Done(x, l) => r == Ok(x) && left == l
  }

  method ScanValue(w: World, v: Value, depth: nat, seen: set<nat>, budget: Budget) returns (r: Outcome<Json>)
    requires budget.left >= 0
    modifies budget
    ensures Follows(r, budget.left, View(w, v, depth, seen, old(budget.left)))
    decreases Level(depth), 3, 0
  {
    if depth > MAX_KWARG_DEPTH {
      return Failed(TooDeep);
    }
    if v.Atom? {
      return Ok(v.view);
    }
    var node := w.node(v.id);
    if node.Secret? {
      r := ScanValue(w, node.inner, depth + 1, seen, budget);
      return;
    }
    if v.id in seen {
      return Ok(Str(CYCLE));
    }
    r := ScanNode(w, node, depth, seen + {v.id}, budget);
  }

  method ScanNode(w: World, node: Node, depth: nat, seen: set<nat>, budget: Budget) returns (r: Outcome<Json>)
    requires budget.left >= 0 && depth <= MAX_KWARG_DEPTH
    modifies budget
    ensures Follows(r, budget.left, ViewNode(w, node, depth, seen, old(budget.left)))
    decreases Level(depth), 2, 0
  {
    match node
    case Pairs(entries) =>
      r := ViewMapping(w, entries, depth, seen, budget);
    case Iterable(items) =>
      r := ScanItems(w, items, depth, seen, budget);
    case Unviewable =>
      r := Failed(CannotBeScanned);
    case _ =>
      r := ScanValue(w, node.inner, depth + 1, seen, budget);
  }

  /** Put what has been viewed before a result. */
  function Prepend<T>(done: seq<T>, s: Scan<seq<T>>): Scan<seq<T>> {
    match s
    case Refused(why) => Refused(why)
    case Done(vs, l) => Done(done + vs, l)
  }

  method ScanItems(w: World, items: seq<Value>, depth: nat, seen: set<nat>, budget: Budget)
    returns (r: Outcome<Json>)
    requires budget.left >= 0 && depth <= MAX_KWARG_DEPTH
    modifies budget
    ensures Follows(r, budget.left, ViewNode(w, Iterable(items), depth, seen, old(budget.left)))
    decreases Level(depth), 1, |items|
  {
    var out: seq<Json> := [];
    ItemsStart(w, items, depth, seen, budget.left);
    for i := 0 to |items|
      invariant budget.left >= 0
      invariant ItemsAlong(w, items, depth, seen, old(budget.left), i, out, budget.left)
    {
      ItemsStep(w, items, depth, seen, old(budget.left), i, out, budget.left);
      budget.left := budget.left - 1;
      if budget.left < 0 {
        return Failed(TooMany);
      }
      var v := ScanValue(w, items[i], depth + 1, seen, budget);
      if v.Failed? {
        return Failed(v.why);
      }
      out := out + [v.result];
    }
    assert items[|items|..] == [] && out + [] == out;
    r := Ok(Arr(ItemsOf(out)));
  }

  /** The first i items have been viewed and the rest are still to come. */
  ghost predicate ItemsAlong(w: World, items: seq<Value>, depth: nat, seen: set<nat>, budget: nat, i: nat,
                             done: seq<Json>, left: nat)
    requires depth <= MAX_KWARG_DEPTH && i <= |items|
  {
    ViewItems(w, items, depth, seen, budget) == Prepend(done, ViewItems(w, items[i..], depth, seen, left))
  }

  lemma ItemsStart(w: World, items: seq<Value>, depth: nat, seen: set<nat>, left: nat)
    requires depth <= MAX_KWARG_DEPTH
    ensures ItemsAlong(w, items, depth, seen, left, 0, [], left)
  {
    assert items[0..] == items;
    PrependNone(ViewItems(w, items, depth, seen, left));
  }

  lemma ItemsStep(w: World, items: seq<Value>, depth: nat, seen: set<nat>, budget: nat, i: nat, done: seq<Json>,
                  left: nat)
    requires depth <= MAX_KWARG_DEPTH && i < |items| && ItemsAlong(w, items, depth, seen, budget, i, done, left)
    ensures left == 0 ==> ViewItems(w, items, depth, seen, budget) == Refused(TooMany)
    ensures left > 0 ==>
              match View(w, items[i], depth + 1, seen, left - 1)
              case Refused(why) => ViewItems(w, items, depth, seen, budget) == Refused(why)
              case Done(v, l) => ItemsAlong(w, items, depth, seen, budget, i + 1, done + [v], l)
  {
    var rest := items[i..];
    assert rest[0] == items[i] && rest[1..] == items[i + 1..];
    if left > 0 {
      var s := View(w, items[i], depth + 1, seen, left - 1);
      if s.Done? {
        PrependOne(done, s.result, ViewItems(w, items[i + 1..], depth, seen, s.left));
      }
    }
  }

  lemma PrependNone<T>(s: Scan<seq<T>>)
    ensures Prepend([], s) == s
  {
    if s.Done? { assert [] + s.result == s.result; }
  }

  lemma PrependOne<T>(done: seq<T>, v: T, s: Scan<seq<T>>)
    ensures Prepend(done + [v], s) == Prepend(done, Prepend([v], s))
  {
    if s.Done? { assert done + [v] + s.result == done + ([v] + s.result); }
  }

  method ScanKey(w: World, k: Value, depth: nat, seen: set<nat>, budget: Budget) returns (r: Outcome<Text>)
    requires budget.left >= 0 && depth <= MAX_KWARG_DEPTH
    modifies budget
    ensures Follows(r, budget.left, KeyText(w, k, depth, seen, old(budget.left)))
    decreases Level(depth), 0, 0
  {
    if k.Atom? && k.view.Str? {
      return Ok(k.view.s);
    }
    var v := ScanValue(w, k, depth + 1, seen, budget);
    if v.Failed? {
      return Failed(v.why);
    }
    r := Ok(if v.result.Str? then v.result.s else w.dumps(v.result));
  }

  ghost predicate Picked(f: Filling, base: Text, kind: Text, key: Text, collisions: map<Text, nat>) {
    var n := NumberFor(f, base, kind);
    key == KeyFor(base, kind, n) && collisions == if n == 0 then f.collisions else f.collisions[base := n]
  }

  /** The renaming loop: counts up until the key is free, which the number of
      keys taken bounds. */
  method FreeKey(out: seq<Named>, counts: map<Text, nat>, base: Text, kind: Text)
    returns (key: Text, collisions: map<Text, nat>)
    ensures Picked(Filling(out, counts), base, kind, key, collisions)
    ensures key !in Keys(out)
  {
    key, collisions := base, counts;
    ghost var c, free := CountOf(counts, base), FirstFree(Keys(out), base, kind, CountOf(counts, base) + 1);
    while key in Keys(out)
      invariant c <= CountOf(collisions, base) <= free
      invariant CountOf(collisions, base) == c ==> key == base && collisions == counts
      invariant CountOf(collisions, base) > c ==>
                  (&& base in Keys(out) && collisions == counts[base := CountOf(collisions, base)]
                   && key == Renaming(base, kind, CountOf(collisions, base)))
      decreases free - CountOf(collisions, base)
    {
      var n := CountOf(collisions, base) + 1;
      collisions := collisions[base := n];
      key := Renaming(base, kind, n);
    }
  }

  /** An entry's key text, the free key it gets, and then its value's view. */
  method ScanEntry(w: World, e: Entry, depth: nat, seen: set<nat>, out: seq<Named>, counts: map<Text, nat>,
                   budget: Budget)
    returns (r: Outcome<Viewed>, key: Text, collisions: map<Text, nat>)
    requires budget.left >= 0 && depth <= MAX_KWARG_DEPTH
    modifies budget
    ensures Follows(r, budget.left, ViewEntry(w, e, depth, seen, old(budget.left)))
    ensures r.Ok? ==> Picked(Filling(out, counts), r.result.base, r.result.kind, key, collisions)
    decreases Level(depth), 0, 1
  {
    key, collisions := [], counts;
    var base := ScanKey(w, e.key, depth, seen, budget);
    if base.Failed? {
      r := Failed(base.why);
      return;
    }
    key, collisions := FreeKey(out, counts, base.result, e.kind);
    var v := ScanValue(w, e.value, depth + 1, seen, budget);
    r := if v.Failed? then Failed(v.why) else Ok(Viewed(base.result, e.kind, v.result));
  }

  method ViewMapping(w: World, entries: seq<Entry>, depth: nat, seen: set<nat>, budget: Budget)
    returns (r: Outcome<Json>)
    requires budget.left >= 0 && depth <= MAX_KWARG_DEPTH
    modifies budget
    ensures Follows(r, budget.left, ViewPairs(w, entries, depth, seen, old(budget.left)))
    decreases Level(depth), 1, |entries| + 1
  {
    var out: seq<Named> := [];
    var collisions: map<Text, nat> := map[];
    ghost var done: seq<Viewed> := [];
    EntriesStart(w, entries, depth, seen, budget.left);
    for i := 0 to |entries|
      invariant budget.left >= 0
      invariant Filling(out, collisions) == Filled(done)
      invariant EntriesAlong(w, entries, depth, seen, old(budget.left), i, done, budget.left)
    {
      EntriesStep(w, entries, depth, seen, old(budget.left), i, done, budget.left);
      budget.left := budget.left - 1;
      if budget.left < 0 {
        return Failed(TooMany);
      }
      ghost var before := Filling(out, collisions);
      var v, key;
      v, key, collisions := ScanEntry(w, entries[i], depth, seen, out, collisions, budget);
      if v.Failed? {
        return Failed(v.why);
      }
      out := Assign(out, key, v.result.view);
      FilledWith(done, v.result, before, key, collisions, out);
      done := done + [v.result];
    }
    assert entries[|entries|..] == [] && done + [] == done;
    r := Ok(Obj(FieldsOf(out)));
  }

  lemma FilledWith(done: seq<Viewed>, v: Viewed, f: Filling, key: Text, counts: map<Text, nat>, out: seq<Named>)
    requires f == Filled(done) && Picked(f, v.base, v.kind, key, counts) && out == Assign(f.out, key, v.view)
    ensures Filling(out, counts) == Filled(done + [v])
  {
    assert (done + [v])[..|done|] == done;
  }

  /** The first i entries have been viewed and the rest are still to come. */
  ghost predicate EntriesAlong(w: World, entries: seq<Entry>, depth: nat, seen: set<nat>, budget: nat, i: nat,
                               done: seq<Viewed>, left: nat)
    requires depth <= MAX_KWARG_DEPTH && i <= |entries|
  {
    ViewEntries(w, entries, depth, seen, budget) == Prepend(done, ViewEntries(w, entries[i..], depth, seen, left))
  }

  lemma EntriesStart(w: World, entries: seq<Entry>, depth: nat, seen: set<nat>, left: nat)
    requires depth <= MAX_KWARG_DEPTH
    ensures EntriesAlong(w, entries, depth, seen, left, 0, [], left)
  {
    assert entries[0..] == entries;
    PrependNone(ViewEntries(w, entries, depth, seen, left));
  }

  lemma EntriesStep(w: World, entries: seq<Entry>, depth: nat, seen: set<nat>, budget: nat, i: nat,
                    done: seq<Viewed>, left: nat)
    requires depth <= MAX_KWARG_DEPTH && i < |entries| && EntriesAlong(w, entries, depth, seen, budget, i, done, left)
    ensures left == 0 ==> ViewEntries(w, entries, depth, seen, budget) == Refused(TooMany)
    ensures left > 0 ==>
              match ViewEntry(w, entries[i], depth, seen, left - 1)
              case Refused(why) => ViewEntries(w, entries, depth, seen, budget) == Refused(why)
              case Done(v, l) => EntriesAlong(w, entries, depth, seen, budget, i + 1, done + [v], l)
  {
    var rest := entries[i..];
    assert rest[0] == entries[i] && rest[1..] == entries[i + 1..];
    if left > 0 {
      var s := ViewEntry(w, entries[i], depth, seen, left - 1);
      if s.Done? {
        PrependOne(done, s.result, ViewEntries(w, entries[i + 1..], depth, seen, s.left));
      }
    }
  }

  method Arguments(w: World, kwargs: seq<Entry>) returns (r: Outcome<Json>)
    ensures match JsonableArguments(w, kwargs)
            case Refused(why) => r == Failed(why)
            case Done(view, _) => r == Ok(view)
  {
    var budget := new Budget(MAX_SCAN_ENTRIES);
    r := ViewMapping(w, kwargs, 0, {}, budget);
  }
}
