/** The typosquat distance of the integrity engine: a two-row dynamic program,
    the recursive Levenshtein distance it computes, and the metric laws. */
module EditDistance {

  function Least(x: nat, y: nat, z: nat): nat {
    if x <= y && x <= z then x else if y <= z then y else z
  }

  function Cost(x: char, y: char): nat { if x == y then 0 else 1 }

  /** The recursive distance between the first i characters of a and the first
      j of b: drop a last character on either side, or match the two. */
  function LevPrefix(a: string, i: nat, b: string, j: nat): nat
    requires i <= |a| && j <= |b|
    decreases i + j
  {
    if i == 0 then j
    else if j == 0 then i
    else
      Least(LevPrefix(a, i, b, j - 1) + 1, LevPrefix(a, i - 1, b, j) + 1,
            LevPrefix(a, i - 1, b, j - 1) + Cost(a[i - 1], b[j - 1]))
  }

  function Lev(a: string, b: string): nat {
    LevPrefix(a, |a|, b, |b|)
  }

  // ----- metric laws -----

  /** Which of its three ways a distance was reached: 0 by dropping from a,
      1 by dropping from b, 2 by pairing the last characters. */
  ghost function Which(a: string, i: nat, b: string, j: nat): (w: nat)
    requires 0 < i <= |a| && 0 < j <= |b|
    ensures w == 0 ==> LevPrefix(a, i, b, j) == LevPrefix(a, i - 1, b, j) + 1
    ensures w == 1 ==> LevPrefix(a, i, b, j) == LevPrefix(a, i, b, j - 1) + 1
    ensures w == 2 ==> LevPrefix(a, i, b, j) == LevPrefix(a, i - 1, b, j - 1) + Cost(a[i - 1], b[j - 1])
    ensures w <= 2
  {
    if LevPrefix(a, i, b, j) == LevPrefix(a, i - 1, b, j) + 1 then 0
    else if LevPrefix(a, i, b, j) == LevPrefix(a, i, b, j - 1) + 1 then 1 else 2
  }

  lemma AtMost(a: string, i: nat, c: string, k: nat)
    requires 0 < i <= |a| && 0 < k <= |c|
    ensures LevPrefix(a, i, c, k) <= LevPrefix(a, i - 1, c, k) + 1
    ensures LevPrefix(a, i, c, k) <= LevPrefix(a, i, c, k - 1) + 1
    ensures LevPrefix(a, i, c, k) <= LevPrefix(a, i - 1, c, k - 1) + Cost(a[i - 1], c[k - 1])
  {
  }

  lemma {:induction false} PrefixSwap(a: string, i: nat, b: string, j: nat)
    requires i <= |a| && j <= |b|
    ensures LevPrefix(b, j, a, i) <= LevPrefix(a, i, b, j)
    decreases i + j
  {
    if i > 0 && j > 0 {
      AtMost(b, j, a, i);
      var w := Which(a, i, b, j);
      PrefixSwap(a, if w == 1 then i else i - 1, b, if w == 0 then j else j - 1);
    }
  }

  lemma Symmetric(a: string, b: string)
    ensures Lev(a, b) == Lev(b, a)
  {
    PrefixSwap(a, |a|, b, |b|);
    PrefixSwap(b, |b|, a, |a|);
  }

  lemma {:induction false} PrefixBounds(a: string, i: nat, b: string, j: nat)
    requires i <= |a| && j <= |b|
    ensures i - j <= LevPrefix(a, i, b, j)
    ensures j - i <= LevPrefix(a, i, b, j)
    ensures LevPrefix(a, i, b, j) <= if i <= j then j else i
    decreases i + j
  {
    if i > 0 && j > 0 {
      PrefixBounds(a, i, b, j - 1);
      PrefixBounds(a, i - 1, b, j);
      PrefixBounds(a, i - 1, b, j - 1);
    }
  }

  /** The distance lies between the length difference and the longer length. */
  lemma Bounds(a: string, b: string)
    ensures |a| - |b| <= Lev(a, b) && |b| - |a| <= Lev(a, b)
    ensures Lev(a, b) <= if |a| <= |b| then |b| else |a|
  {
    PrefixBounds(a, |a|, b, |b|);
  }

  lemma {:induction false} PrefixZero(a: string, i: nat, b: string, j: nat)
    requires i <= |a| && j <= |b|
    ensures LevPrefix(a, i, b, j) == 0 <==> i == j && forall k :: 0 <= k < i ==> a[k] == b[k]
    decreases i + j
  {
    if i > 0 && j > 0 {
      PrefixZero(a, i - 1, b, j - 1);
    }
  }

  lemma ZeroExactlyOnEqual(a: string, b: string)
    ensures Lev(a, b) == 0 <==> a == b
  {
    PrefixZero(a, |a|, b, |b|);
  }

  lemma TriangleAtEdge(a: string, i: nat, b: string, j: nat, c: string, k: nat)
    requires i <= |a| && j <= |b| && k <= |c| && (i == 0 || j == 0 || k == 0)
    ensures LevPrefix(a, i, c, k) <= LevPrefix(a, i, b, j) + LevPrefix(b, j, c, k)
  {
    PrefixBounds(a, i, b, j);
    PrefixBounds(b, j, c, k);
    PrefixBounds(a, i, c, k);
  }

  lemma CostTriangle(x: char, y: char, z: char)
    ensures Cost(x, z) <= Cost(x, y) + Cost(y, z) && Cost(x, y) <= 1 && Cost(y, z) <= 1
  {
  }

  /** The step when the last character of b is paired or dropped on both sides. */
  lemma TriangleThrough(a: string, i: nat, b: string, j: nat, c: string, k: nat, v: nat, w: nat)
    requires 0 < i <= |a| && 0 < j <= |b| && 0 < k <= |c|
    requires v == Which(a, i, b, j) > 0 && w == Which(b, j, c, k) != 1
    requires var i', k' := if v == 2 then i - 1 else i, if w == 2 then k - 1 else k;
             LevPrefix(a, i', c, k') <= LevPrefix(a, i', b, j - 1) + LevPrefix(b, j - 1, c, k')
    ensures LevPrefix(a, i, c, k) <= LevPrefix(a, i, b, j) + LevPrefix(b, j, c, k)
  {
    AtMost(a, i, c, k);
    CostTriangle(a[i - 1], b[j - 1], c[k - 1]);
  }

  lemma {:induction false} PrefixTriangle(a: string, i: nat, b: string, j: nat, c: string, k: nat)
    requires i <= |a| && j <= |b| && k <= |c|
    ensures LevPrefix(a, i, c, k) <= LevPrefix(a, i, b, j) + LevPrefix(b, j, c, k)
    decreases i + j + k
  {
    if i == 0 || j == 0 || k == 0 {
      TriangleAtEdge(a, i, b, j, c, k);
    } else {
      AtMost(a, i, c, k);
      var v, w := Which(a, i, b, j), Which(b, j, c, k);
      if v == 0 {
        PrefixTriangle(a, i - 1, b, j, c, k);
      } else if w == 1 {
        PrefixTriangle(a, i, b, j, c, k - 1);
      } else {
        var i', k' := if v == 2 then i - 1 else i, if w == 2 then k - 1 else k;
        PrefixTriangle(a, i', b, j - 1, c, k');
        TriangleThrough(a, i, b, j, c, k, v, w);
      }
    }
  }

  lemma Triangle(a: string, b: string, c: string)
    ensures Lev(a, c) <= Lev(a, b) + Lev(b, c)
  {
    PrefixTriangle(a, |a|, b, |b|, c, |c|);
  }

  // ----- an independent reference: the fewest single-character edits -----

  datatype Edit = Insert(at: nat, x: char) | Delete(at: nat) | Substitute(at: nat, x: char)

  predicate Applies(e: Edit, s: string) {
    if e.Insert? then e.at <= |s| else e.at < |s|
  }

  function Apply(e: Edit, s: string): string
    requires Applies(e, s)
  {
    match e
    case Insert(at, x) => s[..at] + [x] + s[at..]
    case Delete(at) => s[..at] + s[at + 1..]
    case Substitute(at, x) => s[at := x]
  }

  /** Some script of n single-character edits turns a into b. */
  ghost predicate Reaches(a: string, b: string, n: nat)
    decreases n
  {
    if n == 0 then a == b
    else exists e: Edit :: Applies(e, a) && Reaches(Apply(e, a), b, n - 1)
  }

  /** Prefixes that agree character by character after a single difference
      stay within the distance d they had just past the difference. */
  lemma {:induction false} SameTail(a: string, i: nat, b: string, j: nat, n: nat, d: nat)
    requires i + n <= |a| && j + n <= |b|
    requires LevPrefix(a, i, b, j) <= d
    requires a[i..i + n] == b[j..j + n]
    ensures LevPrefix(a, i + n, b, j + n) <= d
    decreases n
  {
    if n > 0 {
      assert a[i..i + n][..n - 1] == a[i..i + (n - 1)] && b[j..j + n][..n - 1] == b[j..j + (n - 1)];
      assert a[i..i + n][n - 1] == b[j..j + n][n - 1];
      SameTail(a, i, b, j, n - 1, d);
    }
  }

  lemma OneEdit(e: Edit, s: string)
    requires Applies(e, s)
    ensures Lev(s, Apply(e, s)) <= 1
  {
    match e
    case Insert(at, x) => OneInsert(s, at, x);
    case Delete(at) => OneDelete(s, at);
    case Substitute(at, x) => OneSubstitute(s, at, x);
  }

  lemma OneInsert(s: string, at: nat, x: char)
    requires at <= |s|
    ensures Lev(s, s[..at] + [x] + s[at..]) <= 1
  {
    var t := s[..at] + [x] + s[at..];
    PrefixZero(s, at, t, at);
    assert LevPrefix(s, at, t, at + 1) <= 1;
    assert s[at..|s|] == t[at + 1..|t|];
    SameTail(s, at, t, at + 1, |s| - at, 1);
  }

  lemma OneDelete(s: string, at: nat)
    requires at < |s|
    ensures Lev(s, s[..at] + s[at + 1..]) <= 1
  {
    var t := s[..at] + s[at + 1..];
    PrefixZero(s, at, t, at);
    assert LevPrefix(s, at + 1, t, at) <= 1;
    assert s[at + 1..|s|] == t[at..|t|];
    SameTail(s, at + 1, t, at, |t| - at, 1);
  }

  lemma OneSubstitute(s: string, at: nat, x: char)
    requires at < |s|
    ensures Lev(s, s[at := x]) <= 1
  {
    var t := s[at := x];
    PrefixZero(s, at, t, at);
    assert LevPrefix(s, at + 1, t, at + 1) <= 1;
    assert s[at + 1..|s|] == t[at + 1..|t|];
    SameTail(s, at + 1, t, at + 1, |s| - at - 1, 1);
  }

  /** No script is shorter than the distance. */
  lemma {:induction false} NoShorterScript(a: string, b: string, n: nat)
    requires Reaches(a, b, n)
    ensures Lev(a, b) <= n
    decreases n
  {
    if n == 0 {
      ZeroExactlyOnEqual(a, b);
    } else {
      var e: Edit :| Applies(e, a) && Reaches(Apply(e, a), b, n - 1);
      NoShorterScript(Apply(e, a), b, n - 1);
      OneEdit(e, a);
      Triangle(a, Apply(e, a), b);
    }
  }

  lemma {:induction false} ReachesUnderSuffix(a: string, b: string, x: char, n: nat)
    requires Reaches(a, b, n)
    ensures Reaches(a + [x], b + [x], n)
    decreases n
  {
    if n > 0 {
      var e: Edit :| Applies(e, a) && Reaches(Apply(e, a), b, n - 1);
      ReachesUnderSuffix(Apply(e, a), b, x, n - 1);
      ApplyUnderSuffix(e, a, x);
      FirstEdit(e, a + [x], Apply(e, a) + [x], b + [x], n - 1);
    }
  }

  lemma ApplyUnderSuffix(e: Edit, s: string, x: char)
    requires Applies(e, s)
    ensures Applies(e, s + [x]) && Apply(e, s + [x]) == Apply(e, s) + [x]
  {
  }

  lemma FirstEdit(e: Edit, a: string, mid: string, b: string, n: nat)
    requires Applies(e, a) && Apply(e, a) == mid && Reaches(mid, b, n)
    ensures Reaches(a, b, n + 1)
  {
  }

  lemma Split(s: string, i: nat)
    requires 0 < i <= |s|
    ensures s[..i] == s[..i - 1] + [s[i - 1]]
  {
  }

  lemma DropLastFirst(a: string, i: nat, b: string, n: nat, m: nat)
    requires 0 < i <= |a| && Reaches(a[..i - 1], b, n) && m == n + 1
    ensures Reaches(a[..i], b, m)
  {
    FirstEdit(Delete(i - 1), a[..i], a[..i - 1], b, n);
  }

  lemma GrowLastFirst(a: string, b: string, j: nat, n: nat, m: nat)
    requires 0 < j <= |b| && Reaches(a, b[..j - 1], n) && m == n + 1
    ensures Reaches(a, b[..j], m)
  {
    ReachesUnderSuffix(a, b[..j - 1], b[j - 1], n);
    Split(b, j);
    FirstEdit(Insert(|a|, b[j - 1]), a, a + [b[j - 1]], b[..j], n);
  }

  lemma SubstituteLast(p: string, y: char, x: char, b: string, n: nat)
    requires Reaches(p + [x], b, n)
    ensures Reaches(p + [y], b, n + 1)
  {
    assert (p + [y])[|p| := x] == p + [x];
    FirstEdit(Substitute(|p|, x), p + [y], p + [x], b, n);
  }

  lemma MatchLast(a: string, i: nat, b: string, j: nat, n: nat, m: nat)
    requires 0 < i <= |a| && 0 < j <= |b| && Reaches(a[..i - 1], b[..j - 1], n)
    requires m == n + Cost(a[i - 1], b[j - 1])
    ensures Reaches(a[..i], b[..j], m)
  {
    var p, q, x := a[..i - 1], b[..j - 1], b[j - 1];
    ReachesUnderSuffix(p, q, x, n);
    Split(a, i);
    Split(b, j);
    if a[i - 1] != x {
      SubstituteLast(p, a[i - 1], x, b[..j], n);
    }
  }

  /** A script as short as the distance exists. */
  lemma {:induction false} SomeScript(a: string, i: nat, b: string, j: nat, d: nat)
    requires i <= |a| && j <= |b| && d == LevPrefix(a, i, b, j)
    ensures Reaches(a[..i], b[..j], d)
    decreases i + j
  {
    if i == 0 && j == 0 {
      assert a[..i] == b[..j];
      return;
    }
    var w := if j == 0 then 0 else if i == 0 then 1 else Which(a, i, b, j);
    if w == 0 {
      SomeScript(a, i - 1, b, j, d - 1);
      DropLastFirst(a, i, b[..j], d - 1, d);
    } else if w == 1 {
      SomeScript(a, i, b, j - 1, d - 1);
      GrowLastFirst(a[..i], b, j, d - 1, d);
    } else {
      var n := LevPrefix(a, i - 1, b, j - 1);
      SomeScript(a, i - 1, b, j - 1, n);
      MatchLast(a, i, b, j, n, d);
    }
  }

  /** The distance is the least number of single-character edits. */
  lemma LevIsFewestEdits(a: string, b: string)
    ensures Reaches(a, b, Lev(a, b))
    ensures forall n: nat :: Reaches(a, b, n) ==> Lev(a, b) <= n
  {
    SomeScript(a, |a|, b, |b|, Lev(a, b));
    assert a[..|a|] == a && b[..|b|] == b;
    forall n: nat | Reaches(a, b, n) ensures Lev(a, b) <= n {
      NoShorterScript(a, b, n);
    }
  }

  /** The row of the table for the first i characters of a, up to column n. */
  ghost predicate Row(row: seq<nat>, a: string, i: nat, b: string, n: nat)
    requires i <= |a| && n <= |b|
  {
    |row| == n + 1 && forall j {:trigger row[j]} :: 0 <= j <= n ==> row[j] == LevPrefix(a, i, b, j)
  }

  /** The engine's two-row loop, with its argument swap. */
  method Levenshtein(a: string, b: string) returns (d: nat)
    ensures d == Lev(a, b)
    decreases |a| < |b|
  {
    if |a| < |b| {
      d := Levenshtein(b, a);
      Symmetric(a, b);
      return;
    }
    if |b| == 0 {
      return |a|;
    }
    var prev: seq<nat> := seq(|b| + 1, j requires j >= 0 => j);
    for i := 0 to |a|
      invariant Row(prev, a, i, b, |b|)
    {
      var curr: seq<nat> := [i + 1];
      for j := 0 to |b|
        invariant Row(curr, a, i + 1, b, j)
      {
        curr := curr + [Least(prev[j + 1] + 1, curr[j] + 1, prev[j] + Cost(a[i], b[j]))];
      }
      prev := curr;
    }
    d := prev[|b|];
  }
}
