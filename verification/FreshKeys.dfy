/** How a scan view names its entries: keys with equal texts are renamed until
    they are free, so that assigning them to a dict never overwrites. */
module FreshKeys {
  import opened Text
  import opened JsonText

  /** A dict entry of the view, and the entry before its key is chosen: the
      key's text, the name of the key's type, the value's view. */
  datatype Named = Named(key: Text, view: Json)

  datatype Viewed = Viewed(base: Text, kind: Text, view: Json)

  /** A dict being filled, in insertion order, and the renaming counters. */
  datatype Filling = Filling(out: seq<Named>, collisions: map<Text, nat>)

  const EMPTY: Filling := Filling([], map[])

  function Keys(out: seq<Named>): set<Text> { set i | 0 <= i < |out| :: out[i].key }

  /** out[key] = view: replaces the value of a key already there. */
  function Assign(out: seq<Named>, key: Text, view: Json): seq<Named> {
    if out == [] then [Named(key, view)]
    else if out[0].key == key then [Named(key, view)] + out[1..]
    else [out[0]] + Assign(out[1..], key, view)
  }

  function Renaming(base: Text, kind: Text, n: nat): Text { base + [0] + kind + [0] + NatText(n) }

  lemma RenamingInjective(base: Text, kind: Text, m: nat, n: nat)
    requires Renaming(base, kind, m) == Renaming(base, kind, n)
    ensures m == n
  {
    var k := |base| + |kind| + 2;
    assert Renaming(base, kind, m)[k..] == NatText(m) && Renaming(base, kind, n)[k..] == NatText(n);
    NatTextInjective(m, n);
  }

  lemma RenamingStarts(base: Text, kind: Text, n: nat)
    ensures StartsWith(Renaming(base, kind, n), base) && Renaming(base, kind, n) != base
  {
    assert |Renaming(base, kind, n)| > |base|;
  }

  /** The first free renaming from n on: every renaming already taken uses up
      one of the keys, so there is one. */
  function FirstFree(keys: set<Text>, base: Text, kind: Text, n: nat): (m: nat)
    ensures n <= m <= n + |keys|
    ensures Renaming(base, kind, m) !in keys
    ensures forall i :: n <= i < m ==> Renaming(base, kind, i) in keys
    decreases |keys|
  {
    if Renaming(base, kind, n) !in keys then n
    else
      var rest := keys - {Renaming(base, kind, n)};
      var m := FirstFree(rest, base, kind, n + 1);
      assert Renaming(base, kind, m) !in keys by { Apart(base, kind, n, m); }
      m
  }

  lemma Apart(base: Text, kind: Text, m: nat, n: nat)
    requires m != n
    ensures Renaming(base, kind, m) != Renaming(base, kind, n)
  {
    if Renaming(base, kind, m) == Renaming(base, kind, n) { RenamingInjective(base, kind, m, n); }
  }

  function CountOf(collisions: map<Text, nat>, base: Text): nat {
    if base in collisions then collisions[base] else 0
  }

  /** The renaming number of a key; 0 keeps the text itself. */
  function NumberFor(f: Filling, base: Text, kind: Text): nat {
    if base !in Keys(f.out) then 0 else FirstFree(Keys(f.out), base, kind, CountOf(f.collisions, base) + 1)
  }

  function KeyFor(base: Text, kind: Text, n: nat): Text { if n == 0 then base else Renaming(base, kind, n) }

  function Place(f: Filling, v: Viewed): Filling {
    var n := NumberFor(f, v.base, v.kind);
    Filling(Assign(f.out, KeyFor(v.base, v.kind, n), v.view),
            if n == 0 then f.collisions else f.collisions[v.base := n])
  }

  /** The dict made of some entries, in their order. */
  function Filled(vs: seq<Viewed>): Filling {
    if vs == [] then EMPTY else Place(Filled(vs[..|vs| - 1]), vs[|vs| - 1])
  }

  lemma KeyForFree(f: Filling, base: Text, kind: Text)
    ensures KeyFor(base, kind, NumberFor(f, base, kind)) !in Keys(f.out)
  {
  }

  lemma {:induction false} AssignNew(out: seq<Named>, key: Text, view: Json)
    requires key !in Keys(out)
    ensures Assign(out, key, view) == out + [Named(key, view)]
    decreases |out|
  {
    if out != [] {
      assert out[0].key in Keys(out);
      forall k | k in Keys(out[1..]) ensures k in Keys(out) {
        var i :| 0 <= i < |out[1..]| && out[1..][i].key == k;
        assert out[i + 1].key == k;
      }
      AssignNew(out[1..], key, view);
      assert out == [out[0]] + out[1..];
    }
  }

  /** Placing an entry adds it at the end, under a key that was free, and leaves
      every earlier entry alone. */
  lemma PlaceAppends(f: Filling, v: Viewed)
    ensures var key := KeyFor(v.base, v.kind, NumberFor(f, v.base, v.kind));
            key !in Keys(f.out) && Place(f, v).out == f.out + [Named(key, v.view)]
  {
    KeyForFree(f, v.base, v.kind);
    AssignNew(f.out, KeyFor(v.base, v.kind, NumberFor(f, v.base, v.kind)), v.view);
  }

  /** The key an entry gets after those before it. */
  function KeyAfter(vs: seq<Viewed>, v: Viewed): Text {
    KeyFor(v.base, v.kind, NumberFor(Filled(vs), v.base, v.kind))
  }

  lemma FilledMore(vs: seq<Viewed>, v: Viewed)
    ensures KeyAfter(vs, v) !in Keys(Filled(vs).out)
    ensures Filled(vs + [v]).out == Filled(vs).out + [Named(KeyAfter(vs, v), v.view)]
  {
    assert (vs + [v])[..|vs|] == vs;
    PlaceAppends(Filled(vs), v);
  }

  lemma FilledStep(vs: seq<Viewed>, k: nat)
    requires k < |vs|
    ensures KeyAfter(vs[..k], vs[k]) !in Keys(Filled(vs[..k]).out)
    ensures Filled(vs[..k + 1]).out == Filled(vs[..k]).out + [Named(KeyAfter(vs[..k], vs[k]), vs[k].view)]
  {
    assert vs[..k + 1] == vs[..k] + [vs[k]];
    FilledMore(vs[..k], vs[k]);
  }

  predicate Grows(a: seq<Named>, b: seq<Named>) { |b| == |a| + 1 && b[..|a|] == a }

  lemma FilledGrows(vs: seq<Viewed>, k: nat)
    requires k < |vs|
    ensures Grows(Filled(vs[..k]).out, Filled(vs[..k + 1]).out)
  {
    FilledStep(vs, k);
  }

  /** In a growing series each member starts with all earlier ones. */
  lemma {:induction false} GrowsThroughout(outs: seq<seq<Named>>, i: nat, n: nat)
    requires i <= n < |outs| && outs[0] == []
    requires forall k :: 0 <= k < n ==> Grows(outs[k], outs[k + 1])
    ensures |outs[n]| == n && |outs[i]| == i && outs[i] == outs[n][..i]
    decreases n
  {
    if n > 0 {
      GrowsThroughout(outs, 0, n - 1);
      if i < n {
        GrowsThroughout(outs, i, n - 1);
        assert Grows(outs[n - 1], outs[n]);
        assert outs[n][..i] == outs[n][..n - 1][..i];
      }
    }
  }

  /** Later entries leave the earlier ones as they are. */
  lemma FilledPrefix(vs: seq<Viewed>, i: nat, n: nat)
    requires i <= n <= |vs|
    ensures |Filled(vs[..n]).out| == n && |Filled(vs[..i]).out| == i
    ensures Filled(vs[..i]).out == Filled(vs[..n]).out[..i]
  {
    var outs := seq(|vs| + 1, k requires 0 <= k <= |vs| => Filled(vs[..k]).out);
    forall k | 0 <= k < n ensures Grows(outs[k], outs[k + 1]) {
      FilledGrows(vs, k);
    }
    assert outs[0] == [];
    GrowsThroughout(outs, i, n);
  }

  /** The entry at i is the one placed after the first i. */
  lemma FilledAt(vs: seq<Viewed>, i: nat)
    requires i < |vs|
    ensures |Filled(vs).out| == |vs| && |Filled(vs[..i]).out| == i
    ensures Filled(vs).out[i] == Named(KeyAfter(vs[..i], vs[i]), vs[i].view)
    ensures Filled(vs).out[..i] == Filled(vs[..i]).out
    ensures KeyAfter(vs[..i], vs[i]) !in Keys(Filled(vs[..i]).out)
  {
    assert vs[..|vs|] == vs;
    FilledPrefix(vs, i, |vs|);
    FilledPrefix(vs, i + 1, |vs|);
    FilledStep(vs, i);
    assert Filled(vs).out[i] == Filled(vs).out[..i + 1][i];
  }

  /** No entry is lost and none is overwritten: there is one entry for each one
      given, in their order, each with its own view, and no two share a key. */
  lemma NoEntryLost(vs: seq<Viewed>)
    ensures |Filled(vs).out| == |vs|
    ensures forall i :: 0 <= i < |vs| ==> Filled(vs).out[i].view == vs[i].view
    ensures forall i, j :: 0 <= i < j < |vs| ==> Filled(vs).out[i].key != Filled(vs).out[j].key
    ensures |Keys(Filled(vs).out)| == |vs|
  {
    FilledPrefix(vs, 0, |vs|);
    assert vs[..|vs|] == vs;
    forall i | 0 <= i < |vs| ensures Filled(vs).out[i].view == vs[i].view {
      FilledAt(vs, i);
    }
    forall i, j | 0 <= i < j < |vs| ensures Filled(vs).out[i].key != Filled(vs).out[j].key {
      FilledAt(vs, j);
      assert Filled(vs).out[..j][i] == Filled(vs).out[i];
    }
    DistinctKeys(Filled(vs).out);
  }

  lemma {:induction false} DistinctKeys(out: seq<Named>)
    requires forall i, j :: 0 <= i < j < |out| ==> out[i].key != out[j].key
    ensures |Keys(out)| == |out|
    decreases |out|
  {
    if out == [] {
      assert Keys(out) == {};
    } else {
      var init := out[..|out| - 1];
      DistinctKeys(init);
      assert Keys(out) == Keys(init) + {out[|out| - 1].key};
    }
  }

  /** A key keeps its text unless an earlier entry has that very key; otherwise
      its text is followed by a NUL, the key type, a NUL and a number no larger
      than the counter's next value plus the entries before it. */
  lemma KeyKeptExactlyWhen(vs: seq<Viewed>, i: nat)
    requires i < |vs|
    ensures |Filled(vs).out| == |vs|
    ensures Filled(vs).out[i].key == vs[i].base <==> forall j :: 0 <= j < i ==> Filled(vs).out[j].key != vs[i].base
    ensures Filled(vs).out[i].key != vs[i].base ==>
              exists n :: 1 <= n <= CountOf(Filled(vs[..i]).collisions, vs[i].base) + 1 + i
                          && Filled(vs).out[i].key == Renaming(vs[i].base, vs[i].kind, n)
    ensures StartsWith(Filled(vs).out[i].key, vs[i].base)
  {
    FilledAt(vs, i);
    NoEntryLost(vs[..i]);
    var before := Filled(vs[..i]);
    NumberBounds(before, vs[i].base, vs[i].kind);
    assert forall j :: 0 <= j < i ==> before.out[j] == Filled(vs).out[j];
  }

  /** Number 0 is for a text that is free; others start after the counter and
      need at most one try for each key taken. */
  lemma NumberBounds(f: Filling, base: Text, kind: Text)
    ensures var n := NumberFor(f, base, kind);
            && (KeyFor(base, kind, n) == base <==> forall j :: 0 <= j < |f.out| ==> f.out[j].key != base)
            && (KeyFor(base, kind, n) != base ==>
                  1 <= n <= CountOf(f.collisions, base) + 1 + |Keys(f.out)|
                  && KeyFor(base, kind, n) == Renaming(base, kind, n))
            && StartsWith(KeyFor(base, kind, n), base)
  {
    RenamingStarts(base, kind, NumberFor(f, base, kind));
    assert base in Keys(f.out) <==> exists j :: 0 <= j < |f.out| && f.out[j].key == base;
  }

  // ----- which number -----

  /** The entry at j has this text, and got this number. */
  predicate Numbered(vs: seq<Viewed>, j: nat, base: Text, m: nat)
    requires j < |vs| == |Filled(vs).out|
  {
    m > 0 && vs[j].base == base && Filled(vs).out[j].key == base + [0] + vs[j].kind + [0] + NatText(m)
  }

  /** c is the last number an entry of this text got; 0 if none did. */
  ghost predicate LastNumber(vs: seq<Viewed>, base: Text, c: nat)
    requires |Filled(vs).out| == |vs|
  {
    && (c == 0 || exists j: nat :: j < |vs| && Numbered(vs, j, base, c))
    && forall j: nat, m: nat :: j < |vs| && Numbered(vs, j, base, m) ==> m <= c
  }

  /** The number the entry at j got, 0 if its text was free. */
  function NumberAt(vs: seq<Viewed>, j: nat): nat
    requires j < |vs|
  {
    NumberFor(Filled(vs[..j]), vs[j].base, vs[j].kind)
  }

  lemma NumberedIs(vs: seq<Viewed>, j: nat, base: Text, m: nat)
    requires j < |vs|
    ensures |Filled(vs).out| == |vs|
    ensures Numbered(vs, j, base, m) <==> vs[j].base == base && m > 0 && m == NumberAt(vs, j)
  {
    FilledAt(vs, j);
    RenamingStarts(vs[j].base, vs[j].kind, m);
    if NumberAt(vs, j) != m { Apart(vs[j].base, vs[j].kind, NumberAt(vs, j), m); }
  }

  /** The numbers that the entries of a text got. */
  function NumbersOf(vs: seq<Viewed>, base: Text): set<nat> {
    if vs == [] then {}
    else
      NumbersOf(vs[..|vs| - 1], base) +
      if vs[|vs| - 1].base == base && NumberAt(vs, |vs| - 1) > 0 then {NumberAt(vs, |vs| - 1)} else {}
  }

  ghost predicate Largest(ns: set<nat>, c: nat) { (c in ns || (c == 0 && ns == {})) && forall n :: n in ns ==> n <= c }

  /** The counter of a text is the largest of them. */
  lemma {:induction false} CounterCounts(vs: seq<Viewed>, base: Text)
    ensures Largest(NumbersOf(vs, base), CountOf(Filled(vs).collisions, base))
    decreases |vs|
  {
    if vs != [] {
      CounterCounts(vs[..|vs| - 1], base);
      CounterStep(vs, base);
    }
  }

  lemma CounterStep(vs: seq<Viewed>, base: Text)
    requires vs != []
    ensures var n, c := NumberAt(vs, |vs| - 1), CountOf(Filled(vs[..|vs| - 1]).collisions, base);
            && (vs[|vs| - 1].base == base && n > 0 ==> n > c)
            && CountOf(Filled(vs).collisions, base) == if vs[|vs| - 1].base == base && n > 0 then n else c
  {
  }

  lemma {:induction false} NumberFrom(vs: seq<Viewed>, base: Text, m: nat) returns (j: nat)
    requires m in NumbersOf(vs, base)
    ensures j < |vs| && vs[j].base == base && NumberAt(vs, j) == m > 0
    decreases |vs|
  {
    var front := vs[..|vs| - 1];
    if m in NumbersOf(front, base) {
      j := NumberFrom(front, base, m);
      assert front[..j] == vs[..j];
    } else {
      j := |vs| - 1;
    }
  }

  lemma {:induction false} NumberAmong(vs: seq<Viewed>, base: Text, j: nat)
    requires j < |vs| && vs[j].base == base && NumberAt(vs, j) > 0
    ensures NumberAt(vs, j) in NumbersOf(vs, base)
    decreases |vs|
  {
    if j < |vs| - 1 {
      assert vs[..|vs| - 1][..j] == vs[..j];
      NumberAmong(vs[..|vs| - 1], base, j);
    }
  }

  lemma CounterIs(vs: seq<Viewed>, base: Text)
    ensures |Filled(vs).out| == |vs|
    ensures LastNumber(vs, base, CountOf(Filled(vs).collisions, base))
  {
    NoEntryLost(vs);
    CounterCounts(vs, base);
    var c := CountOf(Filled(vs).collisions, base);
    if c > 0 {
      var j := NumberFrom(vs, base, c);
      NumberedIs(vs, j, base, c);
    }
    forall j: nat, m: nat | j < |vs| && Numbered(vs, j, base, m) ensures m <= c {
      NumberedIs(vs, j, base, m);
      NumberAmong(vs, base, j);
    }
  }

  /** A key that is not free as it is gets the least number above the last one that
      its text got whose renaming is free. */
  lemma RenamedExactly(vs: seq<Viewed>, i: nat) returns (c: nat, n: nat)
    requires i < |vs|
    ensures |Filled(vs).out| == |vs| && |Filled(vs[..i]).out| == i && LastNumber(vs[..i], vs[i].base, c)
    ensures if forall j :: 0 <= j < i ==> Filled(vs).out[j].key != vs[i].base then Filled(vs).out[i].key == vs[i].base
            else
              && c < n && Filled(vs).out[i].key == vs[i].base + [0] + vs[i].kind + [0] + NatText(n)
              && forall m: nat :: c < m < n ==>
                   exists j :: 0 <= j < i
                               && Filled(vs).out[j].key == vs[i].base + [0] + vs[i].kind + [0] + NatText(m)
  {
    var base, kind, before := vs[i].base, vs[i].kind, Filled(vs[..i]);
    FilledAt(vs, i);
    CounterIs(vs[..i], base);
    KeyKeptExactlyWhen(vs, i);
    c, n := CountOf(before.collisions, base), NumberFor(before, base, kind);
    assert forall j :: 0 <= j < i ==> before.out[j] == Filled(vs).out[j];
    forall m: nat | c < m < n
      ensures exists j :: 0 <= j < i && Filled(vs).out[j].key == base + [0] + kind + [0] + NatText(m)
    {
      assert Renaming(base, kind, m) in Keys(before.out);
      var j :| 0 <= j < i && before.out[j].key == Renaming(base, kind, m);
    }
  }

  predicate DistinctBases(vs: seq<Viewed>) {
    forall i, j :: 0 <= i < j < |vs| ==> vs[i].base != vs[j].base
  }

  /** All keys keep their texts exactly when no two texts are equal. */
  lemma {:induction false} AllKeptExactlyWhen(vs: seq<Viewed>)
    ensures |Filled(vs).out| == |vs|
    ensures (forall i :: 0 <= i < |vs| ==> Filled(vs).out[i].key == vs[i].base) <==> DistinctBases(vs)
  {
    NoEntryLost(vs);
    if DistinctBases(vs) {
      forall i | 0 <= i < |vs| ensures Filled(vs).out[i].key == vs[i].base {
        KeptUpTo(vs, i);
      }
    }
  }

  lemma {:induction false} KeptUpTo(vs: seq<Viewed>, i: nat)
    requires DistinctBases(vs) && i < |vs|
    ensures |Filled(vs).out| == |vs| && Filled(vs).out[i].key == vs[i].base
    decreases i
  {
    KeyKeptExactlyWhen(vs, i);
    forall j | 0 <= j < i ensures Filled(vs).out[j].key != vs[i].base {
      KeptUpTo(vs, j);
    }
  }
}
