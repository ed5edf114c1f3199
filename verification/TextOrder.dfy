/** Python's order on text, and sorting by it. */
module TextOrder {
  import opened Text
  import opened Dict

  lemma {:induction false} Trichotomy(s: Text, t: Text)
    ensures Before(s, t) || Before(t, s) || s == t
    ensures !(Before(s, t) && Before(t, s))
    ensures s == t ==> !Before(s, t)
    decreases |s|
  {
    if s != [] && t != [] {
      Trichotomy(s[1..], t[1..]);
      assert s == [s[0]] + s[1..] && t == [t[0]] + t[1..];
    }
  }

  lemma {:induction false} Transitive(s: Text, t: Text, u: Text)
    requires !Before(t, s) && !Before(u, t)
    ensures !Before(u, s)
    decreases |s|
  {
    if s != [] && t != [] && u != [] && s[0] == t[0] == u[0] {
      Transitive(s[1..], t[1..], u[1..]);
    }
  }

  /** A text is before another exactly when it is the start of it, or has the smaller
      code point where they first differ. */
  lemma {:induction false} BeforeExactlyWhen(s: Text, t: Text)
    ensures Before(s, t) <==>
            exists i :: 0 <= i <= |s| && i < |t| && s[..i] == t[..i] && (i == |s| || s[i] < t[i])
    decreases |s|
  {
    if s == [] {
      assert t != [] ==> s[..0] == t[..0];
    } else if t != [] && s[0] == t[0] {
      BeforeExactlyWhen(s[1..], t[1..]);
      if i :| 0 <= i <= |s[1..]| && i < |t[1..]| && s[1..][..i] == t[1..][..i]
              && (i == |s[1..]| || s[1..][i] < t[1..][i]) {
        assert s[..i + 1] == [s[0]] + s[1..][..i] && t[..i + 1] == [t[0]] + t[1..][..i];
      }
      if i :| 0 <= i <= |s| && i < |t| && s[..i] == t[..i] && (i == |s| || s[i] < t[i]) {
        assert s[1..][..i - 1] == s[..i][1..] && t[1..][..i - 1] == t[..i][1..];
      }
    } else if t != [] {
      assert forall i :: 0 < i <= |s| && i < |t| ==> s[..i][0] == s[0] && t[..i][0] == t[0];
      assert s[..0] == t[..0];
    }
  }

  lemma BeforeTransitive(s: Text, t: Text, u: Text)
    requires Before(s, t) && Before(t, u)
    ensures Before(s, u)
  {
    Trichotomy(s, t);
    Trichotomy(t, u);
    Transitive(s, t, u);
    Trichotomy(s, u);
  }

  predicate Sorted(xs: seq<Text>) {
    |xs| > 1 ==> !Before(xs[1], xs[0]) && Sorted(xs[1..])
  }

  function Insert(x: Text, xs: seq<Text>): seq<Text> {
    if xs == [] || !Before(xs[0], x) then [x] + xs else [xs[0]] + Insert(x, xs[1..])
  }

  /** sorted(). */
  function Sort(xs: seq<Text>): seq<Text> {
    if xs == [] then [] else Insert(xs[0], Sort(xs[1..]))
  }

  lemma {:induction false} InsertElements(x: Text, xs: seq<Text>)
    ensures multiset(Insert(x, xs)) == multiset{x} + multiset(xs)
    decreases |xs|
  {
    if xs != [] {
      assert xs == [xs[0]] + xs[1..];
      if Before(xs[0], x) { InsertElements(x, xs[1..]); }
    }
  }

  lemma {:induction false} InsertSorted(x: Text, xs: seq<Text>)
    requires Sorted(xs)
    ensures Sorted(Insert(x, xs))
    ensures Insert(x, xs) != [] && (Insert(x, xs)[0] == x || (xs != [] && Insert(x, xs)[0] == xs[0]))
    decreases |xs|
  {
    if xs == [] || !Before(xs[0], x) {
      assert ([x] + xs)[1..] == xs;
    } else {
      InsertSorted(x, xs[1..]);
      Trichotomy(xs[0], x);
      var r := [xs[0]] + Insert(x, xs[1..]);
      assert r[1..] == Insert(x, xs[1..]);
      assert |xs| > 1 ==> xs[1] == xs[1..][0];
    }
  }

  lemma {:induction false} SortSorts(xs: seq<Text>)
    ensures Sorted(Sort(xs)) && multiset(Sort(xs)) == multiset(xs)
    decreases |xs|
  {
    if xs != [] {
      SortSorts(xs[1..]);
      InsertSorted(xs[0], Sort(xs[1..]));
      InsertElements(xs[0], Sort(xs[1..]));
      assert xs == [xs[0]] + xs[1..];
    }
  }

  lemma {:induction false} FirstIsLeast(xs: seq<Text>, x: Text)
    requires Sorted(xs) && x in xs
    ensures !Before(x, xs[0])
    decreases |xs|
  {
    assert xs == [xs[0]] + xs[1..];
    if x == xs[0] {
      Trichotomy(x, x);
    } else {
      FirstIsLeast(xs[1..], x);
      Transitive(xs[0], xs[1], x);
    }
  }

  /** Sorted text is fixed by its elements. */
  lemma {:induction false} SortedUnique(xs: seq<Text>, ys: seq<Text>)
    requires Sorted(xs) && Sorted(ys) && multiset(xs) == multiset(ys)
    ensures xs == ys
    decreases |xs|
  {
    assert |xs| == |multiset(xs)| && |ys| == |multiset(ys)|;
    if xs != [] {
      SameFirst(xs, ys);
      SplitFirst(xs);
      SplitFirst(ys);
      SortedUnique(xs[1..], ys[1..]);
    }
  }

  lemma SplitFirst(xs: seq<Text>)
    requires xs != []
    ensures xs == [xs[0]] + xs[1..] && multiset(xs[1..]) == multiset(xs) - multiset{xs[0]}
    ensures Sorted(xs) ==> Sorted(xs[1..])
  {
    assert xs == [xs[0]] + xs[1..];
  }

  lemma SameFirst(xs: seq<Text>, ys: seq<Text>)
    requires Sorted(xs) && Sorted(ys) && xs != [] && ys != [] && multiset(xs) == multiset(ys)
    ensures xs[0] == ys[0]
  {
    assert xs[0] in multiset(ys) && ys[0] in multiset(xs);
    FirstIsLeast(ys, xs[0]);
    FirstIsLeast(xs, ys[0]);
    Trichotomy(xs[0], ys[0]);
  }
}
