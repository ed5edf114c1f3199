/** What a printed JSON text does not tell: whether a surrogate pair was one code
    point or two. Merging joins every split pair, and two values print alike
    exactly when they merge to the same value. */
module JsonMerge {
  import opened Text
  import opened JsonText

  /** The text with every high surrogate directly before a low one joined to it. */
  function Merge(s: Text): Text
    decreases |s|
  {
    if s == [] then []
    else if |s| > 1 && IsHigh(s[0]) && IsLow(s[1]) then
      [0x1_0000 + (s[0] - 0xD800) * 1024 + (s[1] - 0xDC00)] + Merge(s[2..])
    else [s[0]] + Merge(s[1..])
  }

  lemma {:induction false} MergeKeepsUnits(s: Text)
    ensures Units(Merge(s)) == Units(s)
    decreases |s|
  {
    if |s| > 1 && IsHigh(s[0]) && IsLow(s[1]) {
      MergeKeepsUnits(s[2..]);
      assert s[1..][1..] == s[2..];
      assert Merge(s)[1..] == Merge(s[2..]);
    } else if s != [] {
      MergeKeepsUnits(s[1..]);
      assert Merge(s)[1..] == Merge(s[1..]);
    }
  }

  lemma {:induction false} MergeJoinsAll(s: Text)
    ensures NoSplitPair(Merge(s))
    ensures s != [] ==> Merge(s) != [] && (IsLow(Merge(s)[0]) ==> IsLow(s[0]))
    decreases |s|
  {
    if |s| > 1 && IsHigh(s[0]) && IsLow(s[1]) {
      MergeJoinsAll(s[2..]);
      JoinFront(Merge(s)[0], Merge(s[2..]));
    } else if s != [] {
      MergeJoinsAll(s[1..]);
      JoinFront(s[0], Merge(s[1..]));
    }
  }

  lemma JoinFront(c: CodePoint, rest: Text)
    requires NoSplitPair(rest) && (rest != [] ==> !(IsHigh(c) && IsLow(rest[0])))
    ensures NoSplitPair([c] + rest)
  {
    var t := [c] + rest;
    forall i {:trigger t[i]} | 0 < i < |t| ensures !(IsHigh(t[i - 1]) && IsLow(t[i])) {
      if i > 1 { assert t[i] == rest[i - 1] && t[i - 1] == rest[i - 2]; }
    }
  }

  /** Without a split pair there is nothing to join. */
  lemma MergeFixed(s: Text)
    requires NoSplitPair(s)
    ensures Merge(s) == s
  {
    MergeKeepsUnits(s);
    MergeJoinsAll(s);
    UnitsInjective(Merge(s), s);
  }

  lemma SameUnitsExactlyWhen(a: Text, b: Text)
    ensures Units(a) == Units(b) <==> Merge(a) == Merge(b)
  {
    MergeKeepsUnits(a);
    MergeKeepsUnits(b);
    MergeJoinsAll(a);
    MergeJoinsAll(b);
    if Units(a) == Units(b) { UnitsInjective(Merge(a), Merge(b)); }
  }

  // ----- values -----

  function MergeJson(v: Json): Json
    decreases v
  {
    match v
    case Str(s) => Str(Merge(s))
    case Arr(items) => Arr(MergeItems(items))
    case Obj(fields) => Obj(MergeFields(fields))
    case _ => v
  }

  function MergeItems(xs: Items): Items
    decreases xs
  {
    if xs.NoItems? then NoItems else Item(MergeJson(xs.head), MergeItems(xs.tail))
  }

  function MergeFields(fs: Fields): Fields
    decreases fs
  {
    if fs.NoFields? then NoFields else Field(Merge(fs.key), MergeJson(fs.value), MergeFields(fs.rest))
  }

  lemma MergeOneItem(v: Json, xs: Items)
    ensures MergeItems(Item(v, xs)) == Item(MergeJson(v), MergeItems(xs))
    ensures PrintableItems(Item(v, xs)) <==> Printable(v) && PrintableItems(xs)
  {
  }

  lemma MergeOneField(key: Text, v: Json, fs: Fields)
    ensures MergeFields(Field(key, v, fs)) == Field(Merge(key), MergeJson(v), MergeFields(fs))
  {
  }

  lemma MergeNoItems()
    ensures MergeItems(NoItems) == NoItems && PrintableItems(NoItems)
  {
  }

  /** Every float has a float's literal; nothing is asked of texts. */
  predicate Printable(v: Json)
    decreases v
  {
    match v
    case Float(lit) => IsFloatText(lit)
    case Arr(items) => PrintableItems(items)
    case Obj(fields) => PrintableFields(fields)
    case _ => true
  }

  predicate PrintableItems(xs: Items)
    decreases xs
  {
    xs.Item? ==> Printable(xs.head) && PrintableItems(xs.tail)
  }

  predicate PrintableFields(fs: Fields)
    decreases fs
  {
    fs.Field? ==> Printable(fs.value) && PrintableFields(fs.rest)
  }

  /** A merged value prints as before, and is one a reader can tell from any other. */
  lemma {:induction false} MergePrintsAlike(v: Json)
    ensures Dumps(MergeJson(v)) == Dumps(v)
    ensures Printable(v) ==> Decoded(MergeJson(v))
    decreases v, 0
  {
    match v
    case Str(s) =>
      MergeKeepsUnits(s);
      MergeJoinsAll(s);
    case Arr(items) => ItemsPrintAlike(items);
    case Obj(fields) => FieldsPrintAlike(fields);
    case _ =>
  }

  lemma {:induction false} ItemsPrintAlike(xs: Items)
    ensures DumpsItems(MergeItems(xs)) == DumpsItems(xs)
    ensures PrintableItems(xs) ==> DecodedItems(MergeItems(xs))
    decreases xs, 1
  {
    if xs.Item? {
      MergePrintsAlike(xs.head);
      ItemsPrintAlike(xs.tail);
    }
  }

  lemma {:induction false} FieldsPrintAlike(fs: Fields)
    ensures DumpsFields(MergeFields(fs)) == DumpsFields(fs)
    ensures PrintableFields(fs) ==> DecodedFields(MergeFields(fs))
    decreases fs, 1
  {
    if fs.Field? {
      MergeKeepsUnits(fs.key);
      MergeJoinsAll(fs.key);
      MergePrintsAlike(fs.value);
      FieldsPrintAlike(fs.rest);
    }
  }

  /** Reading any value off the front of a text is unambiguous up to merging. */
  lemma ReadingUpToMerge(v: Json, x: Text, w: Json, y: Text)
    requires Printable(v) && Printable(w) && Ends(x) && Ends(y)
    ensures Dumps(v) + x == Dumps(w) + y <==> MergeJson(v) == MergeJson(w) && x == y
  {
    MergePrintsAlike(v);
    MergePrintsAlike(w);
    if Dumps(v) + x == Dumps(w) + y { DumpsReading(MergeJson(v), x, MergeJson(w), y); }
  }

  /** Two values print alike exactly when they merge to the same. */
  lemma PrintAlikeExactlyWhen(v: Json, w: Json)
    requires Printable(v) && Printable(w)
    ensures Dumps(v) == Dumps(w) <==> MergeJson(v) == MergeJson(w)
  {
    assert Dumps(v) + [] == Dumps(v) && Dumps(w) + [] == Dumps(w);
    ReadingUpToMerge(v, [], w, []);
  }
}
