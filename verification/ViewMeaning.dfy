/** The scan view against the unfolding of the object graph: the tree that is cut
    only where an object would be entered while it is being read. */
module ViewMeaning {
  import opened Text
  import opened JsonText
  import opened FreshKeys
  import opened ScanView

  // ----- unfolding -----

  /** An atom, the mark of a cycle, what is behind a secret or a wrapper, a dict or
      a list. */
  datatype Tree = Leaf(view: Scalar) | Mark | Behind(inner: Tree) | Dict(branches: Branches) | List(trees: Trees)

  datatype Trees = NoTrees | Trees(head: Tree, tail: Trees)

  datatype Branches = NoBranches | Branch(key: Tree, kind: Text, value: Tree, rest: Branches)

  predicate Unfolds(w: World, v: Value, seen: set<nat>, t: Tree)
    decreases t, 1
  {
    match v
    case Atom(view) => t == Leaf(view)
    case Ref(id) =>
      if w.node(id).Secret? then t.Behind? && Unfolds(w, w.node(id).inner, seen, t.inner)
      else if id in seen then t == Mark
      else UnfoldsNode(w, w.node(id), seen + {id}, t)
  }

  predicate UnfoldsNode(w: World, node: Node, seen: set<nat>, t: Tree)
    decreases t, 0
  {
    match node
    case Pairs(entries) => t.Dict? && UnfoldsPairs(w, entries, seen, t.branches)
    case Iterable(items) => t.List? && UnfoldsItems(w, items, seen, t.trees)
    case Unviewable => false
    case _ => t.Behind? && Unfolds(w, node.inner, seen, t.inner)
  }

  predicate UnfoldsItems(w: World, items: seq<Value>, seen: set<nat>, ts: Trees)
    decreases ts
  {
    match ts
    case NoTrees => items == []
    case Trees(t, rest) => items != [] && Unfolds(w, items[0], seen, t) && UnfoldsItems(w, items[1..], seen, rest)
  }

  predicate UnfoldsPairs(w: World, entries: seq<Entry>, seen: set<nat>, bs: Branches)
    decreases bs
  {
    match bs
    case NoBranches => entries == []
    case Branch(key, kind, value, rest) =>
      && entries != [] && kind == entries[0].kind && Unfolds(w, entries[0].key, seen, key)
      && Unfolds(w, entries[0].value, seen, value) && UnfoldsPairs(w, entries[1..], seen, rest)
  }

  // ----- its height, its number of entries and its plain data -----

  function Higher(m: nat, n: nat): nat { if m < n then n else m }

  function Height(t: Tree): nat {
    match t
    case Behind(inner) => 1 + Height(inner)
    case Dict(bs) => HeightOver(bs)
    case List(ts) => HeightAbove(ts)
    case _ => 0
  }

  function HeightAbove(ts: Trees): nat {
    if ts.NoTrees? then 0 else Higher(1 + Height(ts.head), HeightAbove(ts.tail))
  }

  function HeightOver(bs: Branches): nat {
    if bs.NoBranches? then 0 else Higher(1 + Higher(Height(bs.key), Height(bs.value)), HeightOver(bs.rest))
  }

  /** The items and pairs anywhere in the tree, those of keys included. */
  function Entries(t: Tree): nat {
    match t
    case Behind(inner) => Entries(inner)
    case Dict(bs) => PairCount(bs)
    case List(ts) => ItemCount(ts)
    case _ => 0
  }

  function ItemCount(ts: Trees): nat {
    if ts.NoTrees? then 0 else 1 + Entries(ts.head) + ItemCount(ts.tail)
  }

  function PairCount(bs: Branches): nat {
    if bs.NoBranches? then 0 else 1 + Entries(bs.key) + Entries(bs.value) + PairCount(bs.rest)
  }

  function Plain(w: World, t: Tree): Json
    decreases t
  {
    match t
    case Leaf(view) => view
    case Mark => Str(Lit("<cycle>"))
    case Behind(inner) => Plain(w, inner)
    case Dict(bs) => Obj(FieldsOf(Filled(PlainPairs(w, bs)).out))
    case List(ts) => Arr(PlainItems(w, ts))
  }

  function PlainItems(w: World, ts: Trees): Items
    decreases ts
  {
    if ts.NoTrees? then NoItems else Item(Plain(w, ts.head), PlainItems(w, ts.tail))
  }

  function PlainPairs(w: World, bs: Branches): seq<Viewed>
    decreases bs
  {
    if bs.NoBranches? then []
    else
      var key, value := Plain(w, bs.key), Plain(w, bs.value);
      [Viewed(if key.Str? then key.s else w.dumps(key), bs.kind, value)] + PlainPairs(w, bs.rest)
  }

  // ----- an unfolding within the limits is viewed -----

  lemma {:induction false} UnfoldingViewed(w: World, v: Value, depth: nat, seen: set<nat>, left: nat, t: Tree)
    requires Unfolds(w, v, seen, t) && depth + Height(t) <= 64 && Entries(t) <= left
    ensures View(w, v, depth, seen, left) == Done(Plain(w, t), left - Entries(t))
    decreases t, 1
  {
    if v.Ref? {
      if w.node(v.id).Secret? {
        UnfoldingViewed(w, w.node(v.id).inner, depth + 1, seen, left, t.inner);
      } else if v.id !in seen {
        NodeViewed(w, w.node(v.id), depth, seen + {v.id}, left, t);
      }
    }
  }

  lemma {:induction false} NodeViewed(w: World, node: Node, depth: nat, seen: set<nat>, left: nat, t: Tree)
    requires UnfoldsNode(w, node, seen, t) && depth + Height(t) <= 64 && Entries(t) <= left
    ensures ViewNode(w, node, depth, seen, left) == Done(Plain(w, t), left - Entries(t))
    decreases t, 0
  {
    match node
    case Pairs(entries) => PairsViewed(w, entries, depth, seen, left, t.branches);
    case Iterable(items) => ItemsViewed(w, items, depth, seen, left, t.trees);
    case Secret(inner) => UnfoldingViewed(w, inner, depth + 1, seen, left, t.inner);
    case Wrapped(inner) => UnfoldingViewed(w, inner, depth + 1, seen, left, t.inner);
    case Unviewable =>
  }

  lemma {:induction false} ItemsViewed(w: World, items: seq<Value>, depth: nat, seen: set<nat>, left: nat, ts: Trees)
    requires UnfoldsItems(w, items, seen, ts) && depth <= 64 && depth + HeightAbove(ts) <= 64
    requires ItemCount(ts) <= left
    ensures var s := ViewItems(w, items, depth, seen, left);
            s.Done? && ItemsOf(s.result) == PlainItems(w, ts) && s.left == left - ItemCount(ts)
    decreases ts
  {
    if ts.Trees? {
      UnfoldingViewed(w, items[0], depth + 1, seen, left - 1, ts.head);
      ItemsViewed(w, items[1..], depth, seen, left - 1 - Entries(ts.head), ts.tail);
      ItemMore(w, items, depth, seen, left);
    }
  }

  lemma ItemMore(w: World, items: seq<Value>, depth: nat, seen: set<nat>, left: nat)
    requires depth <= 64 && items != [] && left > 0 && View(w, items[0], depth + 1, seen, left - 1).Done?
    requires ViewItems(w, items[1..], depth, seen, View(w, items[0], depth + 1, seen, left - 1).left).Done?
    ensures var s := View(w, items[0], depth + 1, seen, left - 1);
            var rest := ViewItems(w, items[1..], depth, seen, s.left);
            && ViewItems(w, items, depth, seen, left) == Done([s.result] + rest.result, rest.left)
            && ItemsOf([s.result] + rest.result) == Item(s.result, ItemsOf(rest.result))
  {
    var s := View(w, items[0], depth + 1, seen, left - 1);
    var rest := ViewItems(w, items[1..], depth, seen, s.left);
    assert ([s.result] + rest.result)[1..] == rest.result;
  }

  lemma {:induction false} KeyViewed(w: World, k: Value, depth: nat, seen: set<nat>, left: nat, t: Tree)
    requires Unfolds(w, k, seen, t) && depth + 1 + Height(t) <= 64 && Entries(t) <= left
    ensures var key := Plain(w, t);
            KeyText(w, k, depth, seen, left) == Done(if key.Str? then key.s else w.dumps(key), left - Entries(t))
    decreases t, 2
  {
    UnfoldingViewed(w, k, depth + 1, seen, left, t);
  }

  lemma {:induction false} PairsViewed(w: World, entries: seq<Entry>, depth: nat, seen: set<nat>, left: nat,
                                       bs: Branches)
    requires UnfoldsPairs(w, entries, seen, bs) && depth <= 64 && depth + HeightOver(bs) <= 64
    requires PairCount(bs) <= left
    ensures ViewEntries(w, entries, depth, seen, left) == Done(PlainPairs(w, bs), left - PairCount(bs))
    decreases bs, 1
  {
    if bs.Branch? {
      BranchLimits(bs);
      EntryViewed(w, entries[0], depth, seen, left - 1, bs);
      PairsViewed(w, entries[1..], depth, seen, left - 1 - Entries(bs.key) - Entries(bs.value), bs.rest);
      ViewedMore(w, entries, depth, seen, left);
    }
  }

  lemma BranchLimits(bs: Branches)
    requires bs.Branch?
    ensures PairCount(bs) == 1 + Entries(bs.key) + Entries(bs.value) + PairCount(bs.rest)
    ensures 1 + Height(bs.key) <= HeightOver(bs) && 1 + Height(bs.value) <= HeightOver(bs)
    ensures HeightOver(bs.rest) <= HeightOver(bs)
  {
  }

  lemma ViewedMore(w: World, entries: seq<Entry>, depth: nat, seen: set<nat>, left: nat)
    requires depth <= 64 && entries != [] && left > 0 && ViewEntry(w, entries[0], depth, seen, left - 1).Done?
    requires ViewEntries(w, entries[1..], depth, seen, ViewEntry(w, entries[0], depth, seen, left - 1).left).Done?
    ensures var s := ViewEntry(w, entries[0], depth, seen, left - 1);
            var rest := ViewEntries(w, entries[1..], depth, seen, s.left);
            ViewEntries(w, entries, depth, seen, left) == Done([s.result] + rest.result, rest.left)
  {
  }

  /** A pair as plain data, before its key is made distinct. */
  function PlainPair(w: World, key: Tree, kind: Text, value: Tree): Viewed {
    Viewed(if Plain(w, key).Str? then Plain(w, key).s else w.dumps(Plain(w, key)), kind, Plain(w, value))
  }

  lemma {:induction false} EntryViewed(w: World, e: Entry, depth: nat, seen: set<nat>, left: nat, bs: Branches)
    requires bs.Branch? && bs.kind == e.kind
    requires Unfolds(w, e.key, seen, bs.key) && Unfolds(w, e.value, seen, bs.value)
    requires depth + 1 + Height(bs.key) <= 64 && depth + 1 + Height(bs.value) <= 64
    requires Entries(bs.key) + Entries(bs.value) <= left
    ensures ViewEntry(w, e, depth, seen, left)
            == Done(PlainPair(w, bs.key, bs.kind, bs.value), left - Entries(bs.key) - Entries(bs.value))
    decreases bs, 0
  {
    KeyViewed(w, e.key, depth, seen, left, bs.key);
    UnfoldingViewed(w, e.value, depth + 1, seen, left - Entries(bs.key), bs.value);
  }

  // ----- and nothing else is -----

  lemma {:induction false} ViewUnfolds(w: World, v: Value, depth: nat, seen: set<nat>, left: nat) returns (t: Tree)
    requires View(w, v, depth, seen, left).Done?
    ensures Unfolds(w, v, seen, t) && depth + Height(t) <= 64 && Entries(t) <= left
    ensures View(w, v, depth, seen, left).left == left - Entries(t)
    decreases Level(depth), 3, 0
  {
    match v
    case Atom(view) => t := Leaf(view);
    case Ref(id) =>
      var node := w.node(id);
      if node.Secret? {
        t := ViewUnfolds(w, node.inner, depth + 1, seen, left);
        t := Behind(t);
      } else if id in seen {
        t := Mark;
      } else {
        t := NodeUnfolds(w, node, depth, seen + {id}, left);
      }
  }

  lemma {:induction false} NodeUnfolds(w: World, node: Node, depth: nat, seen: set<nat>, left: nat) returns (t: Tree)
    requires depth <= 64 && !node.Secret? && ViewNode(w, node, depth, seen, left).Done?
    ensures UnfoldsNode(w, node, seen, t) && depth + Height(t) <= 64 && Entries(t) <= left
    ensures ViewNode(w, node, depth, seen, left).left == left - Entries(t)
    decreases Level(depth), 2, 0
  {
    match node
    case Pairs(entries) =>
      var bs := PairsUnfold(w, entries, depth, seen, left);
      t := Dict(bs);
    case Iterable(items) =>
      var ts := ItemsUnfold(w, items, depth, seen, left);
      t := List(ts);
    case Wrapped(inner) =>
      t := ViewUnfolds(w, inner, depth + 1, seen, left);
      t := Behind(t);
  }

  lemma {:induction false} ItemsUnfold(w: World, items: seq<Value>, depth: nat, seen: set<nat>, left: nat)
    returns (ts: Trees)
    requires depth <= 64 && ViewItems(w, items, depth, seen, left).Done?
    ensures UnfoldsItems(w, items, seen, ts) && depth + HeightAbove(ts) <= 64 && ItemCount(ts) <= left
    ensures ViewItems(w, items, depth, seen, left).left == left - ItemCount(ts)
    decreases Level(depth), 1, |items|
  {
    if items == [] {
      ts := NoTrees;
    } else {
      ItemsDone(w, items, depth, seen, left);
      var t := ViewUnfolds(w, items[0], depth + 1, seen, left - 1);
      var rest := ItemsUnfold(w, items[1..], depth, seen, left - 1 - Entries(t));
      ts := Trees(t, rest);
    }
  }

  lemma ItemsDone(w: World, items: seq<Value>, depth: nat, seen: set<nat>, left: nat)
    requires depth <= 64 && items != [] && ViewItems(w, items, depth, seen, left).Done?
    ensures left > 0 && View(w, items[0], depth + 1, seen, left - 1).Done?
    ensures var rest := ViewItems(w, items[1..], depth, seen, View(w, items[0], depth + 1, seen, left - 1).left);
            rest.Done? && rest.left == ViewItems(w, items, depth, seen, left).left
  {
  }

  lemma {:induction false} KeyUnfolds(w: World, k: Value, depth: nat, seen: set<nat>, left: nat) returns (t: Tree)
    requires depth < 64 && KeyText(w, k, depth, seen, left).Done?
    ensures Unfolds(w, k, seen, t) && depth + 1 + Height(t) <= 64 && Entries(t) <= left
    ensures KeyText(w, k, depth, seen, left).left == left - Entries(t)
    decreases Level(depth), 0, 0
  {
    if k.Atom? && k.view.Str? {
      t := Leaf(k.view);
    } else {
      t := ViewUnfolds(w, k, depth + 1, seen, left);
    }
  }

  lemma {:induction false} PairsUnfold(w: World, entries: seq<Entry>, depth: nat, seen: set<nat>, left: nat)
    returns (bs: Branches)
    requires depth <= 64 && ViewEntries(w, entries, depth, seen, left).Done?
    ensures UnfoldsPairs(w, entries, seen, bs) && depth + HeightOver(bs) <= 64 && PairCount(bs) <= left
    ensures ViewEntries(w, entries, depth, seen, left).left == left - PairCount(bs)
    decreases Level(depth), 1, |entries|
  {
    if entries == [] {
      bs := NoBranches;
    } else {
      PairsDone(w, entries, depth, seen, left);
      var key, value := EntryUnfolds(w, entries[0], depth, seen, left - 1);
      var rest := PairsUnfold(w, entries[1..], depth, seen, left - 1 - Entries(key) - Entries(value));
      bs := Branch(key, entries[0].kind, value, rest);
    }
  }

  lemma PairsDone(w: World, entries: seq<Entry>, depth: nat, seen: set<nat>, left: nat)
    requires depth <= 64 && entries != [] && ViewEntries(w, entries, depth, seen, left).Done?
    ensures left > 0 && ViewEntry(w, entries[0], depth, seen, left - 1).Done?
    ensures var rest := ViewEntries(w, entries[1..], depth, seen, ViewEntry(w, entries[0], depth, seen, left - 1).left);
            rest.Done? && rest.left == ViewEntries(w, entries, depth, seen, left).left
  {
  }

  lemma {:induction false} EntryUnfolds(w: World, e: Entry, depth: nat, seen: set<nat>, left: nat)
    returns (key: Tree, value: Tree)
    requires depth <= 64 && ViewEntry(w, e, depth, seen, left).Done?
    ensures Unfolds(w, e.key, seen, key) && Unfolds(w, e.value, seen, value)
    ensures depth + 1 + Height(key) <= 64 && depth + 1 + Height(value) <= 64
    ensures Entries(key) + Entries(value) <= left
    ensures ViewEntry(w, e, depth, seen, left).left == left - Entries(key) - Entries(value)
    decreases Level(depth), 0, 1
  {
    EntryDone(w, e, depth, seen, left);
    key := KeyUnfolds(w, e.key, depth, seen, left);
    value := ViewUnfolds(w, e.value, depth + 1, seen, left - Entries(key));
  }

  lemma EntryDone(w: World, e: Entry, depth: nat, seen: set<nat>, left: nat)
    requires depth <= 64 && ViewEntry(w, e, depth, seen, left).Done?
    ensures depth < 64 && KeyText(w, e.key, depth, seen, left).Done?
    ensures var k := KeyText(w, e.key, depth, seen, left);
            var s := View(w, e.value, depth + 1, seen, k.left);
            s.Done? && ViewEntry(w, e, depth, seen, left).left == s.left
  {
  }

  /** The arguments of a call are viewed exactly when they unfold to a tree of height
      64 at most with 100,000 entries at most, and the view is that tree as plain
      data; everything else is refused. */
  lemma ViewedExactlyWhen(w: World, kwargs: seq<Entry>, view: Json)
    ensures JsonableArguments(w, kwargs).Done? && JsonableArguments(w, kwargs).result == view <==>
            exists bs :: UnfoldsPairs(w, kwargs, {}, bs) && HeightOver(bs) <= 64 && PairCount(bs) <= 100_000
                         && view == Plain(w, Dict(bs))
  {
    if JsonableArguments(w, kwargs).Done? {
      var bs := PairsUnfold(w, kwargs, 0, {}, MAX_SCAN_ENTRIES);
      PairsViewed(w, kwargs, 0, {}, MAX_SCAN_ENTRIES, bs);
    }
    if bs :| UnfoldsPairs(w, kwargs, {}, bs) && HeightOver(bs) <= 64 && PairCount(bs) <= 100_000
             && view == Plain(w, Dict(bs)) {
      PairsViewed(w, kwargs, 0, {}, MAX_SCAN_ENTRIES, bs);
    }
  }
}
