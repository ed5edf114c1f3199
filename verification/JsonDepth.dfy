/** The resource engine's argument depth: an explicit-stack walk against the
    recursive depth, and its relation to container nesting. */
module JsonDepth {
  import opened JsonText
  import opened BracketDepth

  /** Scalars and empty containers are at depth 0. */
  function ValueDepth(v: Json): nat
    decreases v
  {
    match v
    case Arr(items) => if items.NoItems? then 0 else 1 + ItemsDepth(items)
    case Obj(fields) => if fields.NoFields? then 0 else 1 + FieldsDepth(fields)
    case _ => 0
  }

  function ItemsDepth(xs: Items): nat
    decreases xs
  {
    if xs.NoItems? then 0 else Max(ValueDepth(xs.head), ItemsDepth(xs.tail))
  }

  function FieldsDepth(fs: Fields): nat
    decreases fs
  {
    if fs.NoFields? then 0 else Max(ValueDepth(fs.value), FieldsDepth(fs.rest))
  }

  function Size(v: Json): nat
    decreases v
  {
    match v
    case Arr(items) => 1 + ItemsSize(items)
    case Obj(fields) => 1 + FieldsSize(fields)
    case _ => 1
  }

  function ItemsSize(xs: Items): nat
    decreases xs
  {
    if xs.NoItems? then 0 else Size(xs.head) + ItemsSize(xs.tail)
  }

  function FieldsSize(fs: Fields): nat
    decreases fs
  {
    if fs.NoFields? then 0 else Size(fs.value) + FieldsSize(fs.rest)
  }

  /** A node still to visit and its depth. */
  datatype Visit = Visit(node: Json, depth: nat)

  function PushItems(stack: seq<Visit>, xs: Items, depth: nat): seq<Visit>
    decreases xs
  {
    if xs.NoItems? then stack else PushItems(stack + [Visit(xs.head, depth)], xs.tail, depth)
  }

  function PushFields(stack: seq<Visit>, fs: Fields, depth: nat): seq<Visit>
    decreases fs
  {
    if fs.NoFields? then stack else PushFields(stack + [Visit(fs.value, depth)], fs.rest, depth)
  }

  /** The deepest point among best and everything on the stack. */
  function Peak(stack: seq<Visit>, best: nat): nat {
    if stack == [] then best
    else
      var top := stack[|stack| - 1];
      Max(top.depth + ValueDepth(top.node), Peak(stack[..|stack| - 1], best))
  }

  function Weight(stack: seq<Visit>): nat {
    if stack == [] then 0 else Size(stack[|stack| - 1].node) + Weight(stack[..|stack| - 1])
  }

  lemma PushOne(stack: seq<Visit>, v: Visit, best: nat)
    ensures Peak(stack + [v], best) == Max(v.depth + ValueDepth(v.node), Peak(stack, best))
    ensures Weight(stack + [v]) == Size(v.node) + Weight(stack)
  {
    assert (stack + [v])[..|stack|] == stack;
  }

  lemma {:induction false} PushedItems(stack: seq<Visit>, xs: Items, depth: nat, best: nat)
    ensures Peak(PushItems(stack, xs, depth), best) ==
            if xs.NoItems? then Peak(stack, best) else Max(depth + ItemsDepth(xs), Peak(stack, best))
    ensures Weight(PushItems(stack, xs, depth)) == ItemsSize(xs) + Weight(stack)
    decreases xs
  {
    if xs.Item? {
      PushOne(stack, Visit(xs.head, depth), best);
      PushedItems(stack + [Visit(xs.head, depth)], xs.tail, depth, best);
      ItemsUnfold(xs);
    }
  }

  lemma ItemsUnfold(xs: Items)
    requires xs.Item?
    ensures ItemsDepth(xs) == if xs.tail.NoItems? then ValueDepth(xs.head)
                              else Max(ValueDepth(xs.head), ItemsDepth(xs.tail))
    ensures ItemsSize(xs) == Size(xs.head) + ItemsSize(xs.tail)
  {
  }

  lemma {:induction false} PushedFields(stack: seq<Visit>, fs: Fields, depth: nat, best: nat)
    ensures Peak(PushFields(stack, fs, depth), best) ==
            if fs.NoFields? then Peak(stack, best) else Max(depth + FieldsDepth(fs), Peak(stack, best))
    ensures Weight(PushFields(stack, fs, depth)) == FieldsSize(fs) + Weight(stack)
    decreases fs
  {
    if fs.Field? {
      PushOne(stack, Visit(fs.value, depth), best);
      PushedFields(stack + [Visit(fs.value, depth)], fs.rest, depth, best);
    }
  }

  predicate IsLeaf(v: Json) { !(v.Arr? && v.items.Item?) && !(v.Obj? && v.fields.Field?) }

  function PushChildren(stack: seq<Visit>, v: Json, depth: nat): seq<Visit> {
    match v
    case Arr(items) => PushItems(stack, items, depth)
    case Obj(fields) => PushFields(stack, fields, depth)
    case _ => stack
  }

  /** Replacing a container by its children keeps the peak and takes weight off. */
  lemma ChildrenForNode(rest: seq<Visit>, top: Visit, best: nat)
    requires !IsLeaf(top.node)
    ensures Peak(PushChildren(rest, top.node, top.depth + 1), best)
            == Max(top.depth + ValueDepth(top.node), Peak(rest, best))
    ensures Weight(PushChildren(rest, top.node, top.depth + 1)) < Size(top.node) + Weight(rest)
  {
    if top.node.Arr? {
      PushedItems(rest, top.node.items, top.depth + 1, best);
    } else {
      PushedFields(rest, top.node.fields, top.depth + 1, best);
    }
  }

  lemma {:induction false} PeakOfMax(stack: seq<Visit>, best: nat, depth: nat)
    ensures Peak(stack, Max(best, depth)) == Max(depth, Peak(stack, best))
    decreases |stack|
  {
    if stack != [] { PeakOfMax(stack[..|stack| - 1], best, depth); }
  }

  lemma SizePositive(v: Json)
    ensures Size(v) > 0
  {
  }

  /** Every part of every value is visited, whatever its depth. */
  method DepthByStack(obj: Json) returns (best: nat)
    ensures best == ValueDepth(obj)
  {
    best := 0;
    var stack := [Visit(obj, 0)];
    PushOne([], Visit(obj, 0), 0);
    assert [] + [Visit(obj, 0)] == stack;
    while stack != []
      invariant Peak(stack, best) == ValueDepth(obj)
      decreases Weight(stack)
    {
      var top := stack[|stack| - 1];
      stack := stack[..|stack| - 1];
      if IsLeaf(top.node) {
        PeakOfMax(stack, best, top.depth);
        SizePositive(top.node);
        best := Max(best, top.depth);
      } else {
        ChildrenForNode(stack, top, best);
        stack := PushChildren(stack, top.node, top.depth + 1);
      }
    }
  }

  /** The walk counts one level less than brackets nest when the deepest
      container is empty, and the same number otherwise. */
  lemma {:induction false} DepthAndNesting(v: Json)
    ensures ValueDepth(v) <= JsonNesting(v) <= ValueDepth(v) + 1
    decreases v, 0
  {
    match v
    case Arr(items) => ItemsDepthAndNesting(items);
    case Obj(fields) => FieldsDepthAndNesting(fields);
    case _ =>
  }

  lemma {:induction false} ItemsDepthAndNesting(xs: Items)
    ensures ItemsDepth(xs) <= ItemsNesting(xs) <= ItemsDepth(xs) + 1
    ensures xs.NoItems? ==> ItemsNesting(xs) == 0
    decreases xs, 0
  {
    if xs.Item? {
      DepthAndNesting(xs.head);
      ItemsDepthAndNesting(xs.tail);
    }
  }

  lemma {:induction false} FieldsDepthAndNesting(fs: Fields)
    ensures FieldsDepth(fs) <= FieldsNesting(fs) <= FieldsDepth(fs) + 1
    ensures fs.NoFields? ==> FieldsNesting(fs) == 0
    decreases fs, 0
  {
    if fs.Field? {
      DepthAndNesting(fs.value);
      FieldsDepthAndNesting(fs.rest);
    }
  }

  // ----- what that depth is -----

  predicate HasItem(xs: Items, v: Json) { xs.Item? && (xs.head == v || HasItem(xs.tail, v)) }

  /** w is an item or a value of v. */
  predicate Holds(v: Json, w: Json) { (v.Arr? && HasItem(v.items, w)) || (v.Obj? && HasField(v.fields, w)) }

  /** Each node holds the next. */
  predicate Chain(nodes: seq<Json>) { forall i :: 0 < i < |nodes| ==> Holds(nodes[i - 1], nodes[i]) }

  lemma {:induction false} ItemsDeepest(xs: Items, v: Json)
    requires HasItem(xs, v)
    ensures ValueDepth(v) <= ItemsDepth(xs)
    decreases xs
  {
    if xs.head != v { ItemsDeepest(xs.tail, v); }
  }

  lemma {:induction false} FieldsDeepest(fs: Fields, v: Json)
    requires HasField(fs, v)
    ensures ValueDepth(v) <= FieldsDepth(fs)
    decreases fs
  {
    if fs.value != v { FieldsDeepest(fs.rest, v); }
  }

  lemma {:induction false} DeepestItem(xs: Items) returns (v: Json)
    requires xs.Item?
    ensures HasItem(xs, v) && ValueDepth(v) == ItemsDepth(xs)
    decreases xs
  {
    v := xs.head;
    if xs.tail.Item? && ItemsDepth(xs.tail) > ValueDepth(v) { v := DeepestItem(xs.tail); }
  }

  lemma {:induction false} DeepestField(fs: Fields) returns (v: Json)
    requires fs.Field?
    ensures HasField(fs, v) && ValueDepth(v) == FieldsDepth(fs)
    decreases fs
  {
    v := fs.value;
    if fs.rest.Field? && FieldsDepth(fs.rest) > ValueDepth(v) { v := DeepestField(fs.rest); }
  }

  /** No chain down from a value is longer than its depth. */
  lemma {:induction false} ChainsAreShort(nodes: seq<Json>)
    requires nodes != [] && Chain(nodes)
    ensures |nodes| - 1 <= ValueDepth(nodes[0])
    decreases |nodes|
  {
    if |nodes| > 1 {
      assert Holds(nodes[0], nodes[1]);
      assert forall i :: 0 < i < |nodes| - 1 ==> nodes[1..][i] == nodes[i + 1] && nodes[1..][i - 1] == nodes[i];
      ChainsAreShort(nodes[1..]);
      if nodes[0].Arr? { ItemsDeepest(nodes[0].items, nodes[1]); } else { FieldsDeepest(nodes[0].fields, nodes[1]); }
    }
  }

  /** And one is as long. */
  lemma {:induction false} LongestChain(v: Json) returns (nodes: seq<Json>)
    ensures nodes != [] && nodes[0] == v && Chain(nodes) && |nodes| - 1 == ValueDepth(v)
    decreases ValueDepth(v)
  {
    nodes := [v];
    if ValueDepth(v) > 0 {
      var w;
      if v.Arr? { w := DeepestItem(v.items); } else { w := DeepestField(v.fields); }
      var rest := LongestChain(w);
      nodes := [v] + rest;
      assert forall i :: 0 < i < |nodes| ==> nodes[i] == rest[i - 1];
      assert Holds(v, w);
    }
  }

  /** The depth exceeds a bound exactly when some chain down from the value does. */
  lemma DeeperExactlyWhen(v: Json, bound: int)
    ensures ValueDepth(v) > bound <==>
            exists nodes :: Chain(nodes) && |nodes| - 1 > bound && nodes != [] && nodes[0] == v
  {
    if ValueDepth(v) > bound { var nodes := LongestChain(v); }
    if nodes :| Chain(nodes) && |nodes| - 1 > bound && nodes != [] && nodes[0] == v { ChainsAreShort(nodes); }
  }
}
