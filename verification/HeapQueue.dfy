/** The list-backed binary heap of Python's heapq, as the replay cache uses it:
    push moves the new item towards the root, pop moves the last item from the
    root along the smaller children to a leaf and back up. */
module HeapQueue {

  ghost predicate TotalOrder<T(!new)>(le: (T, T) -> bool) {
    && (forall x, y :: le(x, y) || le(y, x))
    && (forall x, y, z :: le(x, y) && le(y, z) ==> le(x, z))
  }

  function Parent(i: nat): nat { if i == 0 then 0 else (i - 1) / 2 }

  /** Item i is no smaller than its parent. */
  predicate Edge<T>(h: seq<T>, le: (T, T) -> bool, i: nat)
    requires i < |h|
  {
    i == 0 || le(h[Parent(i)], h[i])
  }

  ghost predicate Heap<T>(h: seq<T>, le: (T, T) -> bool) {
    forall i: nat {:trigger Edge(h, le, i)} :: i < |h| ==> Edge(h, le, i)
  }

  /** A heap but for the edges at a hole, over which the order still passes. */
  ghost predicate HeapAround<T>(h: seq<T>, le: (T, T) -> bool, hole: nat, below: bool)
    requires hole < |h|
  {
    && (forall i: nat {:trigger Edge(h, le, i)} ::
          i < |h| && i != hole && (below || i == 0 || Parent(i) != hole) ==> Edge(h, le, i))
    && (hole > 0 ==>
          forall i: nat {:trigger h[i]} ::
            0 < i < |h| && Parent(i) == hole ==> le(h[Parent(hole)], h[i]))
  }

  function Swap<T>(h: seq<T>, i: nat, j: nat): (r: seq<T>)
    requires i < |h| && j < |h|
    ensures |r| == |h|
  {
    h[i := h[j]][j := h[i]]
  }

  lemma SwapPermutes<T>(h: seq<T>, i: nat, j: nat)
    requires i < |h| && j < |h|
    ensures multiset(Swap(h, i, j)) == multiset(h)
  {
  }

  /** heapq's move towards the root. */
  function SiftDown<T>(h: seq<T>, le: (T, T) -> bool, pos: nat): (r: seq<T>)
    requires pos < |h|
    ensures |r| == |h|
    decreases pos
  {
    if pos > 0 && !le(h[Parent(pos)], h[pos]) then SiftDown(Swap(h, pos, Parent(pos)), le, Parent(pos))
    else h
  }

  lemma SwapUp<T(!new)>(h: seq<T>, le: (T, T) -> bool, pos: nat)
    requires TotalOrder(le) && 0 < pos < |h|
    requires HeapAround(h, le, pos, true) && !le(h[Parent(pos)], h[pos])
    ensures HeapAround(Swap(h, pos, Parent(pos)), le, Parent(pos), true)
  {
    var p, x := Parent(pos), h[pos];
    var g := Swap(h, pos, p);
    assert le(x, h[p]);
    forall i: nat | i < |h| && i != p ensures Edge(g, le, i) {
      assert i != pos ==> Edge(h, le, i);
    }
    if p > 0 {
      assert Edge(h, le, p);
      forall i: nat | 0 < i < |h| && Parent(i) == p ensures le(g[Parent(p)], g[i]) {
        assert i != pos ==> Edge(h, le, i);
      }
    }
  }

  lemma {:induction false} SiftDownHeap<T(!new)>(h: seq<T>, le: (T, T) -> bool, pos: nat)
    requires TotalOrder(le) && pos < |h| && HeapAround(h, le, pos, true)
    ensures Heap(SiftDown(h, le, pos), le)
    ensures multiset(SiftDown(h, le, pos)) == multiset(h)
    decreases pos
  {
    if pos > 0 && !le(h[Parent(pos)], h[pos]) {
      SwapUp(h, le, pos);
      SwapPermutes(h, pos, Parent(pos));
      SiftDownHeap(Swap(h, pos, Parent(pos)), le, Parent(pos));
    } else {
      assert Edge(h, le, pos);
    }
  }

  /** The child heapq moves up: the right one unless the left is smaller. */
  function SmallerChild<T>(h: seq<T>, le: (T, T) -> bool, pos: nat): (c: nat)
    requires 2 * pos + 1 < |h|
    ensures c < |h| && Parent(c) == pos && c > pos
  {
    if 2 * pos + 2 < |h| && le(h[2 * pos + 2], h[2 * pos + 1]) then 2 * pos + 2 else 2 * pos + 1
  }

  /** heapq's move to a leaf, always along the smaller child, and back up. */
  function SiftUp<T>(h: seq<T>, le: (T, T) -> bool, pos: nat): (r: seq<T>)
    requires pos < |h|
    ensures |r| == |h|
    decreases |h| - pos
  {
    if 2 * pos + 1 < |h| then
      var c := SmallerChild(h, le, pos);
      SiftUp(Swap(h, pos, c), le, c)
    else SiftDown(h, le, pos)
  }

  lemma SwapDown<T(!new)>(h: seq<T>, le: (T, T) -> bool, pos: nat)
    requires TotalOrder(le) && 2 * pos + 1 < |h| && HeapAround(h, le, pos, false)
    ensures HeapAround(Swap(h, pos, SmallerChild(h, le, pos)), le, SmallerChild(h, le, pos), false)
  {
    var c := SmallerChild(h, le, pos);
    var g := Swap(h, pos, c);
    forall i: nat | i < |h| && i != c && (i == 0 || Parent(i) != c) ensures Edge(g, le, i) {
      if i != pos && Parent(i) != pos {
        assert Edge(h, le, i);
      }
    }
    forall i: nat | 0 < i < |h| && Parent(i) == c ensures le(g[pos], g[i]) {
      assert Edge(h, le, i);
    }
  }

  lemma {:induction false} SiftUpHeap<T(!new)>(h: seq<T>, le: (T, T) -> bool, pos: nat)
    requires TotalOrder(le) && pos < |h| && HeapAround(h, le, pos, false)
    ensures Heap(SiftUp(h, le, pos), le)
    ensures multiset(SiftUp(h, le, pos)) == multiset(h)
    decreases |h| - pos
  {
    if 2 * pos + 1 < |h| {
      var c := SmallerChild(h, le, pos);
      SwapDown(h, le, pos);
      SwapPermutes(h, pos, c);
      SiftUpHeap(Swap(h, pos, c), le, c);
    } else {
      SiftDownHeap(h, le, pos);
    }
  }

  function Push<T>(h: seq<T>, le: (T, T) -> bool, x: T): seq<T> {
    SiftDown(h + [x], le, |h|)
  }

  /** The list left by a pop; the popped item is h[0]. */
  function Pop<T>(h: seq<T>, le: (T, T) -> bool): seq<T>
    requires |h| > 0
  {
    var rest := h[..|h| - 1];
    if rest == [] then [] else SiftUp(rest[0 := h[|h| - 1]], le, 0)
  }

  lemma PushHeap<T(!new)>(h: seq<T>, le: (T, T) -> bool, x: T)
    requires TotalOrder(le) && Heap(h, le)
    ensures Heap(Push(h, le, x), le)
    ensures multiset(Push(h, le, x)) == multiset(h) + multiset{x}
  {
    var g := h + [x];
    forall i: nat | i < |h| ensures Edge(g, le, i) {
      assert Edge(h, le, i);
    }
    SiftDownHeap(g, le, |h|);
  }

  lemma PopHeap<T(!new)>(h: seq<T>, le: (T, T) -> bool)
    requires TotalOrder(le) && Heap(h, le) && |h| > 0
    ensures Heap(Pop(h, le), le)
    ensures multiset(h) == multiset(Pop(h, le)) + multiset{h[0]}
  {
    var rest, last := h[..|h| - 1], h[|h| - 1];
    assert h == rest + [last];
    if rest != [] {
      var g := rest[0 := last];
      assert rest == [h[0]] + rest[1..] && g == [last] + rest[1..];
      forall i: nat | i < |g| && i != 0 && Parent(i) != 0 ensures Edge(g, le, i) {
        assert Edge(h, le, i);
      }
      SiftUpHeap(g, le, 0);
    }
  }

  /** The root is a least item. */
  lemma {:induction false} RootLeast<T(!new)>(h: seq<T>, le: (T, T) -> bool, i: nat)
    requires TotalOrder(le) && Heap(h, le) && i < |h|
    ensures le(h[0], h[i])
    decreases i
  {
    if i > 0 {
      RootLeast(h, le, Parent(i));
      assert Edge(h, le, i);
    }
  }
}
