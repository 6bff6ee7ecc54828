/** What "self-adjusting" buys: the recursive calls of skew_heap_merge, which swaps the children
    of every node it passes, are logarithmic on average over any sequence of operations. */
module SkewCost {
  import opened SkewHeap

  /** The base-2 logarithm, rounded down. */
  function Lg(n: nat): nat {
    if n <= 1 then 0 else 1 + Lg(n / 2)
  }

  function Size(t: Tree): nat {
    if t.Leaf? then 0 else Size(t.left) + 1 + Size(t.right)
  }

  /** 1 for a node whose right subtree is the larger one. */
  function Heavy(l: Tree, r: Tree): nat {
    if Size(l) < Size(r) then 1 else 0
  }

  /** The credit a heap holds: its right-heavy nodes. */
  function Potential(t: Tree): nat {
    if t.Leaf? then 0 else Potential(t.left) + Potential(t.right) + Heavy(t.left, t.right)
  }

  /** The right-heavy nodes down the left spine, and the others down the right spine. */
  function LeftHeavies(t: Tree): nat {
    if t.Leaf? then 0 else Heavy(t.left, t.right) + LeftHeavies(t.left)
  }

  function RightLights(t: Tree): nat {
    if t.Leaf? then 0 else 1 - Heavy(t.left, t.right) + RightLights(t.right)
  }

  lemma {:induction false} SizeIsNodes(t: Tree)
    requires NoDup(t)
    ensures Size(t) == |Nodes(t)|
  {
    if t.Node? {
      SizeIsNodes(t.left);
      SizeIsNodes(t.right);
    }
  }

  lemma {:induction false} SizeMerge(comp: Compare, s: Tree, t: Tree)
    ensures Size(Merge(comp, s, t)) == Size(s) + Size(t)
  {
    if s.Node? && t.Node? {
      if comp(s.at, t.at) == -1 {
        SizeMerge(comp, s.right, t);
      } else {
        SizeMerge(comp, s, t.right);
      }
    }
  }

  lemma {:induction false} LgMonotone(a: nat, b: nat)
    requires a <= b
    ensures Lg(a) <= Lg(b)
  {
    if a > 1 {
      LgMonotone(a / 2, b / 2);
    }
  }

  lemma LgOne()
    ensures Lg(1) == 0
  {
  }

  lemma LgHalf(a: nat, b: nat)
    requires 1 <= a && 2 * a <= b
    ensures Lg(a) + 1 <= Lg(b)
  {
    LgMonotone(a, b / 2);
  }

  /** Both spines hold few of these nodes, since each of them halves the size. */
  lemma {:induction false} SpinesAreShort(t: Tree)
    ensures LeftHeavies(t) <= Lg(Size(t) + 1) && RightLights(t) <= Lg(Size(t) + 1)
  {
    hide Lg;
    LgOne();
    if t.Node? {
      SpinesAreShort(t.left);
      SpinesAreShort(t.right);
      LgMonotone(Size(t.left) + 1, Size(t) + 1);
      LgMonotone(Size(t.right) + 1, Size(t) + 1);
      if Size(t.left) < Size(t.right) {
        LgHalf(Size(t.left) + 1, Size(t) + 1);
      } else {
        LgHalf(Size(t.right) + 1, Size(t) + 1);
      }
    }
  }

  lemma {:induction false} MergeSpines(comp: Compare, s: Tree, t: Tree)
    ensures Calls(comp, s, t) + Potential(Merge(comp, s, t)) <=
            Potential(s) + Potential(t) + LeftHeavies(Merge(comp, s, t)) + RightLights(s) + RightLights(t) + 1
  {
    if s.Node? && t.Node? {
      if comp(s.at, t.at) == -1 {
        MergeSpines(comp, s.right, t);
      } else {
        MergeSpines(comp, s, t.right);
      }
    }
  }

  /** A merge pays for its calls out of the credit of the two heaps and 3 log n + 1 more. */
  lemma MergeCost(comp: Compare, s: Tree, t: Tree)
    ensures Calls(comp, s, t) + Potential(Merge(comp, s, t)) <=
            Potential(s) + Potential(t) + 3 * Lg(Size(s) + Size(t) + 1) + 1
  {
    hide Lg, Calls, Potential, Merge, LeftHeavies, RightLights, Size;
    MergeSpines(comp, s, t);
    SizeMerge(comp, s, t);
    SpinesAreShort(Merge(comp, s, t));
    SpinesAreShort(s);
    SpinesAreShort(t);
    LgMonotone(Size(s) + 1, Size(s) + Size(t) + 1);
    LgMonotone(Size(t) + 1, Size(s) + Size(t) + 1);
  }

  lemma LoneNode(a: Ptr)
    ensures var single := Node(Leaf, a, Leaf);
            NoDup(single) && Nodes(single) == {a} && Size(single) == 1 && Potential(single) == 0
  {
  }

  lemma InsertCost(comp: Compare, t: Tree, a: Ptr)
    ensures var single := Node(Leaf, a, Leaf);
            Calls(comp, t, single) + Potential(Merge(comp, t, single)) <= Potential(t) + 3 * Lg(Size(t) + 2) + 1
  {
    hide Lg, Calls, Merge, Size, Potential;
    LoneNode(a);
    MergeCost(comp, t, Node(Leaf, a, Leaf));
  }

  lemma RemoveFirstCost(comp: Compare, t: Tree)
    requires t.Node?
    ensures Calls(comp, t.left, t.right) + Potential(Remove(comp, t, t.at)) <= Potential(t) + 3 * Lg(Size(t)) + 1
  {
    hide Lg, Calls, Merge;
    MergeCost(comp, t.left, t.right);
  }

  /** What an operation on a heap of the nodes s costs on average. */
  function Toll(s: set<Ptr>): nat {
    3 * Lg(|s| + 1) + 1
  }

  /** The same for the nodes of a heap without duplicates. */
  lemma InsertPays(comp: Compare, t: Tree, a: Ptr)
    requires NoDup(t) && a !in Nodes(t)
    ensures var single := Node(Leaf, a, Leaf);
            && NoDup(Merge(comp, t, single))
            && Calls(comp, t, single) + Potential(Merge(comp, t, single))
               <= Potential(t) + Toll(Nodes(Merge(comp, t, single)))
  {
    hide Lg, Calls, Merge, Potential, Size, Nodes, NoDup;
    LoneNode(a);
    InsertCost(comp, t, a);
    MergeNoDup(comp, t, Node(Leaf, a, Leaf));
    SizeMerge(comp, t, Node(Leaf, a, Leaf));
    SizeIsNodes(Merge(comp, t, Node(Leaf, a, Leaf)));
  }

  lemma RemoveFirstPays(comp: Compare, t: Tree)
    requires t.Node? && NoDup(t)
    ensures Calls(comp, t.left, t.right) + Potential(Remove(comp, t, t.at)) <= Potential(t) + Toll(Nodes(t))
  {
    hide Lg, Calls, Remove, Potential, Size, Nodes, NoDup;
    RemoveFirstCost(comp, t);
    SizeIsNodes(t);
    LgMonotone(Size(t), Size(t) + 1);
  }

  // ----- whole sequences of operations -----

  datatype HeapOp = Put(a: Ptr) | TakeFirst

  function Applied(comp: Compare, t: Tree, op: HeapOp): Tree {
    match op
    case Put(a) => Merge(comp, t, Node(Leaf, a, Leaf))
    case TakeFirst => if t.Leaf? then t else Remove(comp, t, t.at)
  }

  function OpCalls(comp: Compare, t: Tree, op: HeapOp): nat {
    match op
    case Put(a) => Calls(comp, t, Node(Leaf, a, Leaf))
    case TakeFirst => if t.Leaf? then 0 else Calls(comp, t.left, t.right)
  }

  function AllCalls(comp: Compare, t: Tree, ops: seq<HeapOp>): nat
    decreases |ops|
  {
    if ops == [] then 0 else OpCalls(comp, t, ops[0]) + AllCalls(comp, Applied(comp, t, ops[0]), ops[1..])
  }

  lemma OpCost(comp: Compare, t: Tree, op: HeapOp)
    ensures OpCalls(comp, t, op) + Potential(Applied(comp, t, op)) <= Potential(t) + 3 * Lg(Size(t) + 2) + 1
    ensures Size(Applied(comp, t, op)) <= Size(t) + 1
  {
    hide Lg, Calls, Merge, Potential;
    match op
    case Put(a) =>
      InsertCost(comp, t, a);
      SizeMerge(comp, t, Node(Leaf, a, Leaf));
    case TakeFirst =>
      if t.Node? {
        RemoveFirstCost(comp, t);
        LgMonotone(Size(t), Size(t) + 2);
        SizeMerge(comp, t.left, t.right);
      }
  }

  lemma MulStep(n: nat, k: nat)
    ensures (n + 1) * k == n * k + k
  {
  }

  /** Any operations on a heap of n nodes: on average each makes at most 3 log(n + m + 1) + 1
      calls, m being their number, after the credit of the heap is used up. */
  lemma {:induction false} AllCost(comp: Compare, t: Tree, ops: seq<HeapOp>, top: nat)
    requires Size(t) + |ops| <= top
    ensures AllCalls(comp, t, ops) <= Potential(t) + |ops| * (3 * Lg(top + 1) + 1)
    decreases |ops|
  {
    hide Lg, OpCalls, Applied, Potential;
    if ops != [] {
      var k := 3 * Lg(top + 1) + 1;
      OpCost(comp, t, ops[0]);
      LgMonotone(Size(t) + 2, top + 1);
      AllCost(comp, Applied(comp, t, ops[0]), ops[1..], top);
      MulStep(|ops| - 1, k);
    }
  }
}
