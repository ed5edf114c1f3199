/** What a scan view that was not refused is worth: it is small, it is shallow,
    and it says every text that can be read from the arguments and no other. */
module ViewFacts {
  import opened Text
  import opened JsonText
  import opened JsonDepth
  import opened FreshKeys
  import opened ScanView

  // ----- size and depth -----

  function Views(vs: seq<Viewed>): seq<Json> {
    if vs == [] then [] else [vs[0].view] + Views(vs[1..])
  }

  lemma {:induction false} ViewsAt(vs: seq<Viewed>)
    ensures |Views(vs)| == |vs| && forall i :: 0 <= i < |vs| ==> Views(vs)[i] == vs[i].view
    decreases |vs|
  {
    if vs != [] {
      ViewsAt(vs[1..]);
      assert forall i :: 0 < i < |vs| ==> vs[i] == vs[1..][i - 1];
    }
  }

  lemma {:induction false} FieldsAsItems(out: seq<Named>, js: seq<Json>)
    requires |out| == |js| && forall i :: 0 <= i < |out| ==> out[i].view == js[i]
    ensures FieldsSize(FieldsOf(out)) == ItemsSize(ItemsOf(js))
    ensures FieldsDepth(FieldsOf(out)) == ItemsDepth(ItemsOf(js))
    ensures FieldsOf(out).NoFields? <==> js == []
    decreases |out|
  {
    if out != [] {
      assert forall i :: 0 <= i < |out| - 1 ==> out[1..][i] == out[i + 1] && js[1..][i] == js[i + 1];
      FieldsAsItems(out[1..], js[1..]);
    }
  }

  /** The children of a container at some depth, and what they used. */
  predicate Fits(js: seq<Json>, depth: nat, used: int) {
    && ItemsSize(ItemsOf(js)) <= used
    && (js != [] ==> depth < MAX_KWARG_DEPTH && ItemsDepth(ItemsOf(js)) + depth < MAX_KWARG_DEPTH)
  }

  lemma FitsOne(j: Json, js: seq<Json>, depth: nat, one: int, rest: int)
    requires depth < MAX_KWARG_DEPTH && ValueDepth(j) + depth < MAX_KWARG_DEPTH && Size(j) <= one
    requires Fits(js, depth, rest)
    ensures Fits([j] + js, depth, one + rest)
  {
    assert ([j] + js)[1..] == js;
    assert ItemsOf([j] + js) == Item(j, ItemsOf(js));
  }

  /** Every entry of a view is paid for from the budget, once: however the graph
      shares its objects, the view of a call has no more entries than the budget
      and nests no deeper than the limit. */
  lemma {:induction false} ViewFits(w: World, v: Value, depth: nat, seen: set<nat>, left: nat)
    ensures var s := View(w, v, depth, seen, left);
            s.Done? ==>
              (&& depth <= MAX_KWARG_DEPTH && Size(s.result) - 1 + s.left <= left
               && ValueDepth(s.result) + depth <= MAX_KWARG_DEPTH)
    decreases Level(depth), 3, 0
  {
    if depth <= MAX_KWARG_DEPTH && v.Ref? {
      var node := w.node(v.id);
      if node.Secret? {
        ViewFits(w, node.inner, depth + 1, seen, left);
      } else if v.id !in seen {
        NodeFits(w, node, depth, seen + {v.id}, left);
      }
    }
  }

  lemma {:induction false} NodeFits(w: World, node: Node, depth: nat, seen: set<nat>, left: nat)
    requires depth <= MAX_KWARG_DEPTH
    ensures var s := ViewNode(w, node, depth, seen, left);
            s.Done? ==> Size(s.result) - 1 + s.left <= left && ValueDepth(s.result) + depth <= MAX_KWARG_DEPTH
    decreases Level(depth), 2, 0
  {
    match node
    case Pairs(entries) => PairsFit(w, entries, depth, seen, left);
    case Iterable(items) => ItemsFit(w, items, depth, seen, left);
    case Unviewable =>
    case _ => ViewFits(w, node.inner, depth + 1, seen, left);
  }

  lemma {:induction false} ItemsFit(w: World, items: seq<Value>, depth: nat, seen: set<nat>, left: nat)
    requires depth <= MAX_KWARG_DEPTH
    ensures var s := ViewItems(w, items, depth, seen, left); s.Done? ==> Fits(s.result, depth, left - s.left)
    decreases Level(depth), 1, |items|
  {
    if items != [] && left > 0 {
      ViewFits(w, items[0], depth + 1, seen, left - 1);
      var s := View(w, items[0], depth + 1, seen, left - 1);
      if s.Done? {
        ItemsFit(w, items[1..], depth, seen, s.left);
        var rest := ViewItems(w, items[1..], depth, seen, s.left);
        if rest.Done? { FitsOne(s.result, rest.result, depth, left - s.left, s.left - rest.left); }
      }
    }
  }

  lemma {:induction false} EntriesFit(w: World, entries: seq<Entry>, depth: nat, seen: set<nat>, left: nat)
    requires depth <= MAX_KWARG_DEPTH
    ensures var s := ViewEntries(w, entries, depth, seen, left);
            s.Done? ==> Fits(Views(s.result), depth, left - s.left)
    decreases Level(depth), 1, |entries|
  {
    if entries != [] && left > 0 {
      EntryFits(w, entries[0], depth, seen, left - 1);
      var s := ViewEntry(w, entries[0], depth, seen, left - 1);
      if s.Done? {
        EntriesFit(w, entries[1..], depth, seen, s.left);
        var rest := ViewEntries(w, entries[1..], depth, seen, s.left);
        if rest.Done? {
          FitsOne(s.result.view, Views(rest.result), depth, left - s.left, s.left - rest.left);
          assert ([s.result] + rest.result)[1..] == rest.result;
        }
      }
    }
  }

  lemma {:induction false} EntryFits(w: World, e: Entry, depth: nat, seen: set<nat>, left: nat)
    requires depth <= MAX_KWARG_DEPTH
    ensures var s := ViewEntry(w, e, depth, seen, left);
            s.Done? ==>
              (&& depth < MAX_KWARG_DEPTH && Size(s.result.view) - 1 + s.left <= left
               && ValueDepth(s.result.view) + depth < MAX_KWARG_DEPTH)
    decreases Level(depth), 0, 1
  {
    ViewFits(w, e.key, depth + 1, seen, left);
    var k := KeyText(w, e.key, depth, seen, left);
    if k.Done? { ViewFits(w, e.value, depth + 1, seen, k.left); }
  }

  lemma {:induction false} PairsFit(w: World, entries: seq<Entry>, depth: nat, seen: set<nat>, left: nat)
    requires depth <= MAX_KWARG_DEPTH
    ensures var s := ViewPairs(w, entries, depth, seen, left);
            s.Done? ==> Size(s.result) - 1 + s.left <= left && ValueDepth(s.result) + depth <= MAX_KWARG_DEPTH
    decreases Level(depth), 1, |entries| + 1
  {
    EntriesFit(w, entries, depth, seen, left);
    var s := ViewEntries(w, entries, depth, seen, left);
    if s.Done? {
      NoEntryLost(s.result);
      ViewsAt(s.result);
      FieldsAsItems(Filled(s.result).out, Views(s.result));
    }
  }

  lemma ArgumentsViewFits(w: World, kwargs: seq<Entry>)
    ensures var s := JsonableArguments(w, kwargs);
            s.Done? ==> Size(s.result) <= MAX_SCAN_ENTRIES + 1 && ValueDepth(s.result) <= MAX_KWARG_DEPTH
  {
    PairsFit(w, kwargs, 0, {}, MAX_SCAN_ENTRIES);
  }

  // ----- what a view says -----

  /** A text looked for: as a value somewhere, or as the text of a key. */
  datatype Sought = Leaf(t: Text) | KeyOf(t: Text)

  predicate Told(j: Json, q: Sought)
    decreases j
  {
    match j
    case Str(s) => q == Leaf(s)
    case Arr(items) => ToldItems(items, q)
    case Obj(fields) => ToldFields(fields, q)
    case _ => false
  }

  predicate ToldItems(xs: Items, q: Sought)
    decreases xs
  {
    xs.Item? && (Told(xs.head, q) || ToldItems(xs.tail, q))
  }

  predicate ToldFields(fs: Fields, q: Sought)
    decreases fs
  {
    fs.Field? && ((q.KeyOf? && StartsWith(fs.key, q.t)) || Told(fs.value, q) || ToldFields(fs.rest, q))
  }

  /** What can be read from a value by following at most n references. */
  ghost predicate Reads(w: World, v: Value, q: Sought, n: nat)
    decreases n, 1
  {
    match v
    case Atom(view) => q.Leaf? && view == Str(q.t)
    case Ref(id) => n > 0 && ReadsIn(w, w.node(id), q, n)
  }

  /** The text of an atom as a key: a str's own, anything else's printed view. */
  function AtomKeyText(w: World, view: Scalar): Text { if view.Str? then view.s else w.dumps(view) }

  /** A key that is an atom of this text, behind m secrets and wrappers. */
  ghost predicate TextKey(w: World, k: Value, t: Text, m: nat)
    decreases m
  {
    match k
    case Atom(view) => m == 0 && t == AtomKeyText(w, view)
    case Ref(id) => m > 0 && (w.node(id).Secret? || w.node(id).Wrapped?) && TextKey(w, w.node(id).inner, t, m - 1)
  }

  ghost predicate IsKey(w: World, e: Entry, q: Sought) { q.KeyOf? && exists m: nat :: TextKey(w, e.key, q.t, m) }

  ghost predicate ReadsIn(w: World, node: Node, q: Sought, n: nat)
    requires n > 0
    decreases n, 0
  {
    match node
    case Pairs(entries) => exists e :: e in entries && (IsKey(w, e, q) || Reads(w, e.value, q, n - 1))
    case Iterable(items) => exists v :: v in items && Reads(w, v, q, n - 1)
    case Unviewable => false
    case _ => Reads(w, node.inner, q, n - 1)
  }

  /** The same, entering no object twice and none of those seen. */
  ghost predicate ReadsApart(w: World, v: Value, q: Sought, n: nat, seen: set<nat>)
    decreases n, 1
  {
    match v
    case Atom(view) => q.Leaf? && view == Str(q.t)
    case Ref(id) =>
      && n > 0
      && if w.node(id).Secret? then ReadsApart(w, w.node(id).inner, q, n - 1, seen)
         else id !in seen && ReadsInApart(w, w.node(id), q, n, seen + {id})
  }

  ghost predicate ReadsInApart(w: World, node: Node, q: Sought, n: nat, seen: set<nat>)
    requires n > 0
    decreases n, 0
  {
    match node
    case Pairs(entries) => exists e :: e in entries && (IsKey(w, e, q) || ReadsApart(w, e.value, q, n - 1, seen))
    case Iterable(items) => exists v :: v in items && ReadsApart(w, v, q, n - 1, seen)
    case Unviewable => false
    case _ => ReadsApart(w, node.inner, q, n - 1, seen)
  }

  lemma {:induction false} ReadsMore(w: World, v: Value, q: Sought, n: nat)
    requires Reads(w, v, q, n)
    ensures Reads(w, v, q, n + 1)
    decreases n, 1
  {
    if v.Ref? { ReadsInMore(w, w.node(v.id), q, n); }
  }

  lemma {:induction false} ReadsInMore(w: World, node: Node, q: Sought, n: nat)
    requires n > 0 && ReadsIn(w, node, q, n)
    ensures ReadsIn(w, node, q, n + 1)
    decreases n, 0
  {
    match node
    case Pairs(entries) =>
      var e :| e in entries && (IsKey(w, e, q) || Reads(w, e.value, q, n - 1));
      if !IsKey(w, e, q) { ReadsMore(w, e.value, q, n - 1); }
    case Iterable(items) =>
      var v :| v in items && Reads(w, v, q, n - 1);
      ReadsMore(w, v, q, n - 1);
    case Secret(inner) => ReadsMore(w, inner, q, n - 1);
    case Wrapped(inner) => ReadsMore(w, inner, q, n - 1);
    case Unviewable =>
  }

  /** n is the fewest references to follow from v. */
  ghost predicate Nearest(w: World, v: Value, q: Sought, n: nat) {
    Reads(w, v, q, n) && (n > 0 ==> !Reads(w, v, q, n - 1))
  }

  lemma {:induction false} NearestOf(w: World, v: Value, q: Sought, n: nat) returns (m: nat)
    requires Reads(w, v, q, n)
    ensures Nearest(w, v, q, m)
    decreases n
  {
    m := n;
    if n > 0 && Reads(w, v, q, n - 1) { m := NearestOf(w, v, q, n - 1); }
  }

  /** From none of some objects is it within n references. */
  ghost predicate Farther(w: World, seen: set<nat>, q: Sought, n: nat) {
    forall s :: s in seen ==> !Reads(w, Ref(s), q, n)
  }

  lemma FartherStill(w: World, seen: set<nat>, id: nat, q: Sought, n: nat)
    requires n > 0 && Farther(w, seen, q, n) && Nearest(w, Ref(id), q, n)
    ensures Farther(w, seen + {id}, q, n - 1) && Farther(w, seen, q, n - 1) && id !in seen
  {
    forall s | s in seen + {id} ensures !Reads(w, Ref(s), q, n - 1) {
      if s in seen && Reads(w, Ref(s), q, n - 1) { ReadsMore(w, Ref(s), q, n - 1); }
    }
  }

  lemma NearestNext(w: World, id: nat, v: Value, q: Sought, n: nat)
    requires n > 0 && Nearest(w, Ref(id), q, n) && Reads(w, v, q, n - 1)
    requires n > 1 && Reads(w, v, q, n - 2) ==> ReadsIn(w, w.node(id), q, n - 1)
    ensures Nearest(w, v, q, n - 1)
  {
  }

  /** A shortest way enters no object twice: each is nearer than the last. */
  lemma {:induction false} ShortestApart(w: World, v: Value, q: Sought, n: nat, seen: set<nat>)
    requires Nearest(w, v, q, n) && Farther(w, seen, q, n)
    ensures ReadsApart(w, v, q, n, seen)
    decreases n
  {
    if v.Ref? {
      var node := w.node(v.id);
      assert v == Ref(v.id) && ReadsIn(w, node, q, n);
      FartherStill(w, seen, v.id, q, n);
      match node
      case Pairs(entries) =>
        var e :| e in entries && (IsKey(w, e, q) || Reads(w, e.value, q, n - 1));
        if !IsKey(w, e, q) {
          NearestNext(w, v.id, e.value, q, n);
          ShortestApart(w, e.value, q, n - 1, seen + {v.id});
        }
      case Iterable(items) =>
        var u :| u in items && Reads(w, u, q, n - 1);
        NearestNext(w, v.id, u, q, n);
        ShortestApart(w, u, q, n - 1, seen + {v.id});
      case Secret(inner) =>
        assert Reads(w, node.inner, q, n - 1);
        NearestNext(w, v.id, inner, q, n);
        ShortestApart(w, inner, q, n - 1, seen);
      case Wrapped(inner) =>
        assert Reads(w, node.inner, q, n - 1);
        NearestNext(w, v.id, inner, q, n);
        ShortestApart(w, inner, q, n - 1, seen + {v.id});
    }
  }

  // ----- the view of each part -----

  lemma {:induction false} ItemsCounted(w: World, items: seq<Value>, depth: nat, seen: set<nat>, left: nat)
    requires depth <= MAX_KWARG_DEPTH && ViewItems(w, items, depth, seen, left).Done?
    ensures |ViewItems(w, items, depth, seen, left).result| == |items|
    decreases |items|
  {
    if items != [] {
      ItemsCounted(w, items[1..], depth, seen, View(w, items[0], depth + 1, seen, left - 1).left);
    }
  }

  lemma {:induction false} EntriesCounted(w: World, entries: seq<Entry>, depth: nat, seen: set<nat>, left: nat)
    requires depth <= MAX_KWARG_DEPTH && ViewEntries(w, entries, depth, seen, left).Done?
    ensures |ViewEntries(w, entries, depth, seen, left).result| == |entries|
    decreases |entries|
  {
    if entries != [] {
      EntriesCounted(w, entries[1..], depth, seen, ViewEntry(w, entries[0], depth, seen, left - 1).left);
    }
  }

  /** Each item's view, made with some of the budget. */
  lemma {:induction false} ItemAt(w: World, items: seq<Value>, depth: nat, seen: set<nat>, left: nat, i: nat)
    returns (l: nat)
    requires depth <= MAX_KWARG_DEPTH && ViewItems(w, items, depth, seen, left).Done? && i < |items|
    ensures var vs := ViewItems(w, items, depth, seen, left).result;
            && |vs| == |items| && View(w, items[i], depth + 1, seen, l).Done?
            && View(w, items[i], depth + 1, seen, l).result == vs[i]
    decreases |items|
  {
    ItemsCounted(w, items, depth, seen, left);
    var s := View(w, items[0], depth + 1, seen, left - 1);
    if i == 0 {
      l := left - 1;
    } else {
      l := ItemAt(w, items[1..], depth, seen, s.left, i - 1);
    }
  }

  lemma {:induction false} EntryAt(w: World, entries: seq<Entry>, depth: nat, seen: set<nat>, left: nat, i: nat)
    returns (l: nat)
    requires depth <= MAX_KWARG_DEPTH && ViewEntries(w, entries, depth, seen, left).Done? && i < |entries|
    ensures var vs := ViewEntries(w, entries, depth, seen, left).result;
            && |vs| == |entries| && ViewEntry(w, entries[i], depth, seen, l).Done?
            && ViewEntry(w, entries[i], depth, seen, l).result == vs[i]
    decreases |entries|
  {
    EntriesCounted(w, entries, depth, seen, left);
    var s := ViewEntry(w, entries[0], depth, seen, left - 1);
    if i == 0 {
      l := left - 1;
    } else {
      l := EntryAt(w, entries[1..], depth, seen, s.left, i - 1);
    }
  }

  lemma {:induction false} ToldInItems(vs: seq<Json>, q: Sought)
    ensures ToldItems(ItemsOf(vs), q) <==> exists i :: 0 <= i < |vs| && Told(vs[i], q)
    decreases |vs|
  {
    if vs != [] {
      ToldInItems(vs[1..], q);
      assert forall i :: 0 <= i < |vs| - 1 ==> vs[1..][i] == vs[i + 1];
      if exists i :: 0 <= i < |vs| && Told(vs[i], q) {
        var i :| 0 <= i < |vs| && Told(vs[i], q);
        if i > 0 { assert Told(vs[1..][i - 1], q); }
      }
    }
  }

  predicate ToldBy(e: Named, q: Sought) { (q.KeyOf? && StartsWith(e.key, q.t)) || Told(e.view, q) }

  lemma {:induction false} ToldInFields(out: seq<Named>, q: Sought)
    ensures ToldFields(FieldsOf(out), q) <==> exists i :: 0 <= i < |out| && ToldBy(out[i], q)
    decreases |out|
  {
    if out != [] {
      ToldInFields(out[1..], q);
      assert forall i :: 0 <= i < |out| - 1 ==> out[1..][i] == out[i + 1];
      if exists i :: 0 <= i < |out| && ToldBy(out[i], q) {
        var i :| 0 <= i < |out| && ToldBy(out[i], q);
        if i > 0 { assert ToldBy(out[1..][i - 1], q); }
      }
    }
  }

  // ----- keys behind secrets and wrappers -----

  lemma {:induction false} TextKeyOnce(w: World, k: Value, t: Text, a: nat, b: nat)
    requires TextKey(w, k, t, a) && TextKey(w, k, t, b)
    ensures a == b
    decreases a
  {
    if k.Ref? { TextKeyOnce(w, w.node(k.id).inner, t, a - 1, b - 1); }
  }

  /** None of these objects is such a key within m steps. */
  ghost predicate NoKeySeen(w: World, seen: set<nat>, t: Text, m: nat) {
    forall s, n: nat :: s in seen && n <= m ==> !TextKey(w, Ref(s), t, n)
  }

  /** The view of such a key is its atom's: no object on the way was seen before. */
  lemma {:induction false} KeyViewed(w: World, k: Value, t: Text, m: nat, depth: nat, seen: set<nat>, left: nat)
    requires TextKey(w, k, t, m) && NoKeySeen(w, seen, t, m) && View(w, k, depth, seen, left).Done?
    ensures var v := View(w, k, depth, seen, left).result;
            !v.Arr? && !v.Obj? && AtomKeyText(w, v) == t
    decreases m
  {
    if k.Ref? {
      var node := w.node(k.id);
      assert k == Ref(k.id);
      match node
      case Secret(inner) => KeyViewed(w, inner, t, m - 1, depth + 1, seen, left);
      case Wrapped(inner) =>
        forall n: nat | n <= m - 1 ensures !TextKey(w, Ref(k.id), t, n) {
          if TextKey(w, Ref(k.id), t, n) { TextKeyOnce(w, k, t, m, n); }
        }
        KeyViewed(w, inner, t, m - 1, depth + 1, seen + {k.id}, left);
    }
  }

  /** No object that leads to a mapping or an iterable is such a key. */
  ghost predicate NoKeyAmong(w: World, seen: set<nat>, q: Sought) {
    q.KeyOf? ==> forall m: nat :: NoKeySeen(w, seen, q.t, m)
  }

  lemma {:induction false} LeadsNotToKey(w: World, v: Value, q: Sought, n: nat, seen: set<nat>, m: nat)
    requires q.KeyOf? && ReadsApart(w, v, q, n, seen)
    ensures !TextKey(w, v, q.t, m)
    decreases n
  {
    if v.Ref? && m > 0 {
      match w.node(v.id)
      case Secret(inner) => LeadsNotToKey(w, inner, q, n - 1, seen, m - 1);
      case Wrapped(inner) => LeadsNotToKey(w, inner, q, n - 1, seen + {v.id}, m - 1);
      case _ =>
    }
  }

  lemma NoKeyAmongMore(w: World, id: nat, q: Sought, n: nat, seen: set<nat>)
    requires NoKeyAmong(w, seen, q) && ReadsApart(w, Ref(id), q, n, seen)
    ensures NoKeyAmong(w, seen + {id}, q)
  {
    if q.KeyOf? {
      forall m: nat ensures NoKeySeen(w, seen + {id}, q.t, m) {
        forall s, k: nat | s in seen + {id} && k <= m ensures !TextKey(w, Ref(s), q.t, k) {
          assert NoKeySeen(w, seen, q.t, m);
          if s == id { LeadsNotToKey(w, Ref(id), q, n, seen, k); }
        }
      }
    }
  }

  // ----- nothing hidden -----

  lemma {:induction false} ApartTold(w: World, v: Value, q: Sought, n: nat, depth: nat, seen: set<nat>, left: nat)
    requires ReadsApart(w, v, q, n, seen) && View(w, v, depth, seen, left).Done? && NoKeyAmong(w, seen, q)
    ensures Told(View(w, v, depth, seen, left).result, q)
    decreases n, 1
  {
    if v.Ref? {
      var node := w.node(v.id);
      assert v == Ref(v.id);
      NoKeyAmongMore(w, v.id, q, n, seen);
      match node
      case Secret(inner) => ApartTold(w, inner, q, n - 1, depth + 1, seen, left);
      case Wrapped(inner) => ApartTold(w, inner, q, n - 1, depth + 1, seen + {v.id}, left);
      case Pairs(entries) => PairsApartTold(w, entries, q, n, depth, seen + {v.id}, left);
      case Iterable(items) => ItemsApartTold(w, items, q, n, depth, seen + {v.id}, left);
    }
  }

  lemma {:induction false} ItemsApartTold(w: World, items: seq<Value>, q: Sought, n: nat, depth: nat,
                                          seen: set<nat>, left: nat)
    requires depth <= MAX_KWARG_DEPTH && n > 0 && ReadsInApart(w, Iterable(items), q, n, seen)
    requires ViewItems(w, items, depth, seen, left).Done? && NoKeyAmong(w, seen, q)
    ensures ToldItems(ItemsOf(ViewItems(w, items, depth, seen, left).result), q)
    decreases n, 0
  {
    var i :| 0 <= i < |items| && ReadsApart(w, items[i], q, n - 1, seen);
    var l := ItemAt(w, items, depth, seen, left, i);
    ApartTold(w, items[i], q, n - 1, depth + 1, seen, l);
    ToldInItems(ViewItems(w, items, depth, seen, left).result, q);
  }

  lemma {:induction false} PairsApartTold(w: World, entries: seq<Entry>, q: Sought, n: nat, depth: nat,
                                          seen: set<nat>, left: nat)
    requires depth <= MAX_KWARG_DEPTH && n > 0 && ReadsInApart(w, Pairs(entries), q, n, seen)
    requires ViewPairs(w, entries, depth, seen, left).Done? && NoKeyAmong(w, seen, q)
    ensures Told(ViewPairs(w, entries, depth, seen, left).result, q)
    decreases n, 0
  {
    var i :| 0 <= i < |entries| && (IsKey(w, entries[i], q) || ReadsApart(w, entries[i].value, q, n - 1, seen));
    var l := EntryAt(w, entries, depth, seen, left, i);
    if !IsKey(w, entries[i], q) {
      ApartTold(w, entries[i].value, q, n - 1, depth + 1, seen, KeyText(w, entries[i].key, depth, seen, l).left);
    }
    PairTold(w, entries, q, depth, seen, left, i);
  }

  lemma KeyTextTold(w: World, k: Value, t: Text, depth: nat, seen: set<nat>, left: nat)
    requires depth <= MAX_KWARG_DEPTH && KeyText(w, k, depth, seen, left).Done?
    requires NoKeyAmong(w, seen, KeyOf(t)) && exists m: nat :: TextKey(w, k, t, m)
    ensures KeyText(w, k, depth, seen, left).result == t
  {
    var m: nat :| TextKey(w, k, t, m);
    assert NoKeySeen(w, seen, KeyOf(t).t, m);
    if !(k.Atom? && k.view.Str?) { KeyViewed(w, k, t, m, depth + 1, seen, left); }
  }

  /** The entry of a pair tells the text of its key, and what its value's view tells. */
  lemma PairTold(w: World, entries: seq<Entry>, q: Sought, depth: nat, seen: set<nat>, left: nat, i: nat)
    requires depth <= MAX_KWARG_DEPTH && ViewEntries(w, entries, depth, seen, left).Done? && i < |entries|
    requires NoKeyAmong(w, seen, q)
    requires var vs := ViewEntries(w, entries, depth, seen, left).result;
             IsKey(w, entries[i], q) || (i < |vs| && Told(vs[i].view, q))
    ensures Told(ViewPairs(w, entries, depth, seen, left).result, q)
  {
    var vs := ViewEntries(w, entries, depth, seen, left).result;
    var l := EntryAt(w, entries, depth, seen, left, i);
    NoEntryLost(vs);
    KeyKeptExactlyWhen(vs, i);
    if IsKey(w, entries[i], q) { KeyTextTold(w, entries[i].key, q.t, depth, seen, l); }
    assert ToldBy(Filled(vs).out[i], q);
    ToldInFields(Filled(vs).out, q);
  }

  /** The tool can read it from its arguments, in some number of steps. */
  ghost predicate Readable(w: World, kwargs: seq<Entry>, q: Sought) {
    exists n: nat :: n > 0 && ReadsIn(w, Pairs(kwargs), q, n)
  }

  /** Whatever text the tool can read, by any way through the arguments however
      they share and cycle, the scanners are told. */
  lemma NoTextHidden(w: World, kwargs: seq<Entry>, q: Sought)
    requires JsonableArguments(w, kwargs).Done? && Readable(w, kwargs, q)
    ensures Told(JsonableArguments(w, kwargs).result, q)
  {
    var n: nat :| n > 0 && ReadsIn(w, Pairs(kwargs), q, n);
    var e :| e in kwargs && (IsKey(w, e, q) || Reads(w, e.value, q, n - 1));
    var i :| 0 <= i < |kwargs| && kwargs[i] == e;
    var l := EntryAt(w, kwargs, 0, {}, MAX_SCAN_ENTRIES, i);
    if !IsKey(w, e, q) {
      var m := NearestOf(w, e.value, q, n - 1);
      ShortestApart(w, e.value, q, m, {});
      ApartTold(w, e.value, q, m, 1, {}, KeyText(w, e.key, 0, {}, l).left);
    }
    PairTold(w, kwargs, q, 0, {}, MAX_SCAN_ENTRIES, i);
  }

  // ----- nothing invented -----

  lemma {:induction false} LeafRead(w: World, v: Value, t: Text, depth: nat, seen: set<nat>, left: nat) returns (n: nat)
    requires View(w, v, depth, seen, left).Done?
    requires Told(View(w, v, depth, seen, left).result, Leaf(t)) && t != CYCLE
    ensures Reads(w, v, Leaf(t), n)
    decreases Level(depth), 1
  {
    n := 0;
    if v.Ref? {
      var node := w.node(v.id);
      match node
      case Secret(inner) =>
        n := LeafRead(w, inner, t, depth + 1, seen, left);
        n := n + 1;
      case Wrapped(inner) =>
        n := LeafRead(w, inner, t, depth + 1, seen + {v.id}, left);
        n := n + 1;
      case Pairs(entries) =>
        n := PairLeafRead(w, entries, t, depth, seen + {v.id}, left);
      case Iterable(items) =>
        var vs := ViewItems(w, items, depth, seen + {v.id}, left).result;
        ToldInItems(vs, Leaf(t));
        var i :| 0 <= i < |vs| && Told(vs[i], Leaf(t));
        ItemsCounted(w, items, depth, seen + {v.id}, left);
        var l := ItemAt(w, items, depth, seen + {v.id}, left, i);
        n := LeafRead(w, items[i], t, depth + 1, seen + {v.id}, l);
        n := n + 1;
        assert items[i] in items && v == Ref(v.id) && ReadsIn(w, node, Leaf(t), n);
    }
  }

  lemma {:induction false} PairLeafRead(w: World, entries: seq<Entry>, t: Text, depth: nat, seen: set<nat>, left: nat)
    returns (n: nat)
    requires depth <= MAX_KWARG_DEPTH && ViewPairs(w, entries, depth, seen, left).Done?
    requires Told(ViewPairs(w, entries, depth, seen, left).result, Leaf(t)) && t != CYCLE
    ensures n > 0 && ReadsIn(w, Pairs(entries), Leaf(t), n)
    decreases Level(depth), 0
  {
    var vs := ViewEntries(w, entries, depth, seen, left).result;
    NoEntryLost(vs);
    ToldInFields(Filled(vs).out, Leaf(t));
    var i :| 0 <= i < |Filled(vs).out| && ToldBy(Filled(vs).out[i], Leaf(t));
    EntriesCounted(w, entries, depth, seen, left);
    var l := EntryAt(w, entries, depth, seen, left, i);
    n := LeafRead(w, entries[i].value, t, depth + 1, seen, KeyText(w, entries[i].key, depth, seen, l).left);
    n := n + 1;
  }

  /** The texts among the view's values are exactly those the tool can read,
      besides the mark that stands for an object already being read. */
  lemma LeavesExactly(w: World, kwargs: seq<Entry>, t: Text)
    requires JsonableArguments(w, kwargs).Done? && t != CYCLE
    ensures Told(JsonableArguments(w, kwargs).result, Leaf(t)) <==> Readable(w, kwargs, Leaf(t))
  {
    if Told(JsonableArguments(w, kwargs).result, Leaf(t)) {
      var n := PairLeafRead(w, kwargs, t, 0, {}, MAX_SCAN_ENTRIES);
    }
    if Readable(w, kwargs, Leaf(t)) {
      NoTextHidden(w, kwargs, Leaf(t));
    }
  }
}
