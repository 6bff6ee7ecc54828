/** The skew heap of libs/skew_heap.h. Nodes are addresses in a memory of entries with
    parent, left and right pointers; the mathematical tree a heap denotes is a ghost. */
module SkewHeap {
  type Ptr = nat

  const NULL: Ptr := 0

  datatype Entry = Entry(parent: Ptr, left: Ptr, right: Ptr)

  type Memory = map<Ptr, Entry>

  /** compare_f: the heap only ever tests for -1, "a goes before b". */
  type Compare = (Ptr, Ptr) -> int

  datatype Tree = Leaf | Node(left: Tree, at: Ptr, right: Tree)

  function Nodes(t: Tree): set<Ptr> {
    match t
    case Leaf => {}
    case Node(l, a, r) => Nodes(l) + {a} + Nodes(r)
  }

  ghost predicate NoDup(t: Tree) {
    match t
    case Leaf => true
    case Node(l, a, r) => NoDup(l) && NoDup(r) && a !in Nodes(l) && a !in Nodes(r) && Nodes(l) !! Nodes(r)
  }

  function Root(t: Tree): Ptr {
    if t.Leaf? then NULL else t.at
  }

  // ----- order -----

  predicate Before(comp: Compare, a: Ptr, b: Ptr) {
    comp(a, b) == -1
  }

  /** On s, "not after" is a total preorder. */
  ghost predicate Preorder(comp: Compare, s: set<Ptr>) {
    && (forall a, b :: a in s && b in s && Before(comp, a, b) ==> !Before(comp, b, a))
    && (forall a, b, c :: a in s && b in s && c in s && !Before(comp, b, a) && !Before(comp, c, b) ==>
          !Before(comp, c, a))
  }

  ghost predicate NotAfter(comp: Compare, a: Ptr, t: Tree) {
    t.Leaf? || !Before(comp, t.at, a)
  }

  ghost predicate HeapOrdered(comp: Compare, t: Tree) {
    match t
    case Leaf => true
    case Node(l, a, r) =>
      HeapOrdered(comp, l) && HeapOrdered(comp, r) && NotAfter(comp, a, l) && NotAfter(comp, a, r)
  }

  /** No node of an ordered heap goes before its root. */
  lemma {:induction false} RootIsFirst(comp: Compare, t: Tree, x: Ptr)
    requires t.Node? && HeapOrdered(comp, t) && x in Nodes(t) && Preorder(comp, Nodes(t))
    ensures !Before(comp, x, t.at)
  {
    if x in Nodes(t.left) {
      RootIsFirst(comp, t.left, x);
    } else if x in Nodes(t.right) {
      RootIsFirst(comp, t.right, x);
    }
  }

  // ----- merging trees -----

  function Merge(comp: Compare, s: Tree, t: Tree): Tree {
    if s.Leaf? then t
    else if t.Leaf? then s
    else if comp(s.at, t.at) == -1 then Node(Merge(comp, s.right, t), s.at, s.left)
    else Node(Merge(comp, s, t.right), t.at, t.left)
  }

  /** The calls of skew_heap_merge that merging s and t makes. */
  function Calls(comp: Compare, s: Tree, t: Tree): nat {
    if s.Leaf? || t.Leaf? then 1
    else if comp(s.at, t.at) == -1 then 1 + Calls(comp, s.right, t)
    else 1 + Calls(comp, s, t.right)
  }

  lemma {:induction false} MergeNodes(comp: Compare, s: Tree, t: Tree)
    ensures Nodes(Merge(comp, s, t)) == Nodes(s) + Nodes(t)
  {
    if s.Node? && t.Node? {
      if comp(s.at, t.at) == -1 {
        MergeNodes(comp, s.right, t);
      } else {
        MergeNodes(comp, s, t.right);
      }
    }
  }

  lemma {:induction false} MergeNoDup(comp: Compare, s: Tree, t: Tree)
    requires NoDup(s) && NoDup(t) && Nodes(s) !! Nodes(t)
    ensures NoDup(Merge(comp, s, t))
  {
    if s.Node? && t.Node? {
      if comp(s.at, t.at) == -1 {
        MergeNoDup(comp, s.right, t);
        MergeNodes(comp, s.right, t);
      } else {
        MergeNoDup(comp, s, t.right);
        MergeNodes(comp, s, t.right);
      }
    }
  }

  lemma MergeRoot(comp: Compare, s: Tree, t: Tree)
    ensures Root(Merge(comp, s, t)) == Root(s) || Root(Merge(comp, s, t)) == Root(t)
  {
  }

  lemma PreorderSubset(comp: Compare, s: set<Ptr>, t: set<Ptr>)
    requires Preorder(comp, t) && s <= t
    ensures Preorder(comp, s)
  {
  }

  /** Merging keeps heap order, and the smaller root stays on top. */
  lemma {:induction false} MergeOrdered(comp: Compare, s: Tree, t: Tree)
    requires HeapOrdered(comp, s) && HeapOrdered(comp, t) && Preorder(comp, Nodes(s) + Nodes(t))
    ensures HeapOrdered(comp, Merge(comp, s, t))
    ensures Root(Merge(comp, s, t)) == Root(s) || Root(Merge(comp, s, t)) == Root(t)
  {
    if s.Node? && t.Node? {
      if comp(s.at, t.at) == -1 {
        PreorderSubset(comp, Nodes(s.right) + Nodes(t), Nodes(s) + Nodes(t));
        MergeOrdered(comp, s.right, t);
      } else {
        PreorderSubset(comp, Nodes(s) + Nodes(t.right), Nodes(s) + Nodes(t));
        MergeOrdered(comp, s, t.right);
      }
    }
  }

  // ----- removing a node -----

  function Remove(comp: Compare, t: Tree, b: Ptr): Tree {
    match t
    case Leaf => Leaf
    case Node(l, a, r) =>
      if a == b then Merge(comp, l, r)
      else if b in Nodes(l) then Node(Remove(comp, l, b), a, r)
      else Node(l, a, Remove(comp, r, b))
  }

  lemma {:induction false} RemoveNodes(comp: Compare, t: Tree, b: Ptr)
    requires NoDup(t)
    ensures Nodes(Remove(comp, t, b)) == Nodes(t) - {b}
    ensures NoDup(Remove(comp, t, b))
  {
    if t.Node? {
      if t.at == b {
        MergeNodes(comp, t.left, t.right);
        MergeNoDup(comp, t.left, t.right);
      } else if b in Nodes(t.left) {
        RemoveNodes(comp, t.left, b);
      } else {
        RemoveNodes(comp, t.right, b);
      }
    }
  }

  lemma RootInNodes(t: Tree)
    ensures t.Node? ==> t.at in Nodes(t)
  {
  }

  /** Removing any node keeps heap order. */
  lemma {:induction false} RemoveOrdered(comp: Compare, t: Tree, b: Ptr)
    requires HeapOrdered(comp, t) && NoDup(t) && Preorder(comp, Nodes(t))
    ensures HeapOrdered(comp, Remove(comp, t, b))
  {
    if t.Node? {
      if t.at == b {
        PreorderSubset(comp, Nodes(t.left) + Nodes(t.right), Nodes(t));
        MergeOrdered(comp, t.left, t.right);
      } else {
        var side := if b in Nodes(t.left) then t.left else t.right;
        PreorderSubset(comp, Nodes(side), Nodes(t));
        RemoveOrdered(comp, side, b);
        RemoveNodes(comp, side, b);
        var r := Remove(comp, side, b);
        RootInNodes(r);
        if r.Node? {
          RootIsFirst(comp, t, r.at);
        }
      }
    }
  }

  // ----- trees in memory -----

  ghost predicate ParentOf(mem: Memory, child: Ptr, a: Ptr) {
    child != NULL ==> child in mem && mem[child].parent == a
  }

  /** The pointers from n on spell out t, and every child points back to its parent. */
  ghost predicate Spells(mem: Memory, n: Ptr, t: Tree)
    decreases t
  {
    match t
    case Leaf => n == NULL
    case Node(l, a, r) =>
      && n == a && a != NULL && a in mem
      && Spells(mem, mem[a].left, l) && Spells(mem, mem[a].right, r)
      && ParentOf(mem, mem[a].left, a) && ParentOf(mem, mem[a].right, a)
  }

  /** A heap in memory: its root has no parent and no node occurs twice. */
  ghost predicate IsHeap(mem: Memory, n: Ptr, t: Tree) {
    Spells(mem, n, t) && NoDup(t) && ParentOf(mem, n, NULL)
  }

  lemma {:induction false} SpellsRoot(mem: Memory, n: Ptr, t: Tree)
    requires Spells(mem, n, t)
    ensures n == Root(t) && (n == NULL <==> t.Leaf?) && (n != NULL ==> n in mem && n in Nodes(t))
    ensures forall x :: x in Nodes(t) ==> x in mem && x != NULL
    decreases t
  {
    if t.Node? {
      SpellsRoot(mem, mem[n].left, t.left);
      SpellsRoot(mem, mem[n].right, t.right);
    }
  }

  /** Writing to other nodes, or to the root's own parent field, leaves a heap as it is. */
  lemma {:induction false} SpellsFrame(mem: Memory, mem': Memory, n: Ptr, t: Tree)
    requires Spells(mem, n, t) && NoDup(t)
    requires forall x :: x in Nodes(t) ==> x in mem && x in mem' && mem'[x].left == mem[x].left && mem'[x].right == mem[x].right
    requires forall x :: x in Nodes(t) && x != Root(t) ==> mem'[x].parent == mem[x].parent
    ensures Spells(mem', n, t)
    decreases t
  {
    if t.Node? {
      SpellsRoot(mem, mem[n].left, t.left);
      SpellsRoot(mem, mem[n].right, t.right);
      SpellsFrame(mem, mem', mem[n].left, t.left);
      SpellsFrame(mem, mem', mem[n].right, t.right);
    }
  }

  /** The tree is determined by the memory. */
  lemma {:induction false} SpellsUnique(mem: Memory, n: Ptr, s: Tree, t: Tree)
    requires Spells(mem, n, s) && Spells(mem, n, t)
    ensures s == t
    decreases s
  {
    if s.Node? {
      SpellsUnique(mem, mem[n].left, s.left, t.left);
      SpellsUnique(mem, mem[n].right, s.right, t.right);
    }
  }

  function SetLeft(mem: Memory, a: Ptr, v: Ptr): Memory
    requires a in mem
  {
    mem[a := mem[a].(left := v)]
  }

  function SetRight(mem: Memory, a: Ptr, v: Ptr): Memory
    requires a in mem
  {
    mem[a := mem[a].(right := v)]
  }

  function SetParent(mem: Memory, a: Ptr, v: Ptr): Memory
    requires a in mem
  {
    mem[a := mem[a].(parent := v)]
  }

  // ----- the subtree that skew_heap_remove replaces -----

  function Sub(t: Tree, b: Ptr): (r: Tree)
    requires b in Nodes(t)
    ensures r.Node? && r.at == b && Nodes(r) <= Nodes(t)
    decreases t
  {
    if t.at == b then t else if b in Nodes(t.left) then Sub(t.left, b) else Sub(t.right, b)
  }

  lemma {:induction false} SubSpells(mem: Memory, n: Ptr, t: Tree, b: Ptr)
    requires Spells(mem, n, t) && NoDup(t) && b in Nodes(t)
    ensures Spells(mem, b, Sub(t, b)) && NoDup(Sub(t, b)) && b in mem
    ensures n != b ==> mem[b].parent in Nodes(t) && mem[b].parent in mem && mem[b].parent !in Nodes(Sub(t, b))
                       && n !in Nodes(Sub(t, b))
    decreases t
  {
    SpellsRoot(mem, n, t);
    if n != b {
      var m := if b in Nodes(t.left) then mem[n].left else mem[n].right;
      var side := if b in Nodes(t.left) then t.left else t.right;
      SpellsRoot(mem, m, side);
      SubSpells(mem, m, side, b);
    }
  }

  /** What skew_heap_remove writes besides the merge: the parent's child pointer. */
  ghost predicate Relinked(mem: Memory, mem': Memory, t: Tree, b: Ptr, rep: Ptr)
    requires b in Nodes(t) && b in mem && mem[b].parent in mem
  {
    var p := mem[b].parent;
    && ParentOf(mem', rep, p)
    && (forall x :: x in Nodes(t) && x !in Nodes(Sub(t, b)) && x != p ==> x in mem && x in mem' && mem'[x] == mem[x])
    && p in mem'
    && mem'[p] == if mem[p].left == b then mem[p].(left := rep) else mem[p].(right := rep)
  }

  lemma {:induction false} Splice(mem: Memory, mem': Memory, n: Ptr, t: Tree, comp: Compare, b: Ptr, rep: Ptr)
    requires Spells(mem, n, t) && NoDup(t) && b in Nodes(t) && n != b
    requires b in mem && mem[b].parent in mem && Relinked(mem, mem', t, b, rep)
    requires Spells(mem', rep, Merge(comp, Sub(t, b).left, Sub(t, b).right))
    ensures Spells(mem', n, Remove(comp, t, b))
    ensures n in mem' && mem'[n].parent == mem[n].parent
    decreases t
  {
    SpellsRoot(mem, n, t);
    SubSpells(mem, n, t, b);
    SpellsRoot(mem, mem[n].left, t.left);
    SpellsRoot(mem, mem[n].right, t.right);
    if b in Nodes(t.left) {
      if mem[n].left != b {
        SubSpells(mem, mem[n].left, t.left, b);
        Splice(mem, mem', mem[n].left, t.left, comp, b, rep);
      }
      SpellsFrame(mem, mem', mem[n].right, t.right);
    } else {
      if mem[n].right != b {
        SubSpells(mem, mem[n].right, t.right, b);
        Splice(mem, mem', mem[n].right, t.right, comp, b, rep);
      }
      SpellsFrame(mem, mem', mem[n].left, t.left);
    }
  }

  /** The pool of heap entries, changed in place. */
  class Pool {
    var mem: Memory
    ghost var calls: nat  // of skew_heap_merge so far

    constructor (m: Memory)
      ensures mem == m && calls == 0
    {
      mem, calls := m, 0;
    }

    /** skew_heap_merge: the pointers end up spelling Merge of the two trees; nothing else
        and no root's parent field is touched. */
    method MergeHeaps(a: Ptr, b: Ptr, comp: Compare, ghost s: Tree, ghost t: Tree) returns (r: Ptr)
      requires Spells(mem, a, s) && Spells(mem, b, t)
      requires NoDup(s) && NoDup(t) && Nodes(s) !! Nodes(t)
      modifies this
      ensures Spells(mem, r, Merge(comp, s, t))
      ensures mem.Keys == old(mem).Keys
      ensures forall x :: x in mem && x !in Nodes(s) + Nodes(t) ==> mem[x] == old(mem)[x]
      ensures r != NULL ==> r in mem && mem[r].parent == old(mem)[r].parent
      ensures r == if a == NULL then b else if b == NULL || comp(a, b) == -1 then a else b
      ensures calls == old(calls) + Calls(comp, s, t)
      decreases s, t
    {
      calls := calls + 1;
      SpellsRoot(mem, a, s);
      SpellsRoot(mem, b, t);
      if a == NULL {
        return b;
      } else if b == NULL {
        return a;
      }
      ghost var m0 := mem;
      if comp(a, b) == -1 {
        var rest := mem[a].left;
        SpellsRoot(m0, rest, s.left);
        var l := MergeHeaps(mem[a].right, b, comp, s.right, t);
        MergeNodes(comp, s.right, t);
        MergeNoDup(comp, s.right, t);
        SpellsFrame(m0, mem, rest, s.left);
        Rehang(a, l, rest, Merge(comp, s.right, t), s.left);
        return a;
      } else {
        var rest := mem[b].left;
        SpellsRoot(m0, rest, t.left);
        var l := MergeHeaps(a, mem[b].right, comp, s, t.right);
        MergeNodes(comp, s, t.right);
        MergeNoDup(comp, s, t.right);
        SpellsFrame(m0, mem, rest, t.left);
        Rehang(b, l, rest, Merge(comp, s, t.right), t.left);
        return b;
      }
    }

    /** The end of a merge step: l becomes the left child of a and the old left child the right one. */
    method Rehang(a: Ptr, l: Ptr, rest: Ptr, ghost tl: Tree, ghost tr: Tree)
      requires a in mem && a != NULL && Spells(mem, l, tl) && Spells(mem, rest, tr)
      requires NoDup(tl) && NoDup(tr) && a !in Nodes(tl) && a !in Nodes(tr) && Nodes(tl) !! Nodes(tr)
      requires ParentOf(mem, rest, a)
      modifies this
      ensures Spells(mem, a, Node(tl, a, tr)) && mem.Keys == old(mem).Keys
      ensures forall x :: x in mem && x != a && x !in Nodes(tl) ==> mem[x] == old(mem)[x]
      ensures a in mem && mem[a].parent == old(mem)[a].parent && calls == old(calls)
    {
      SpellsRoot(mem, l, tl);
      SpellsRoot(mem, rest, tr);
      mem := SetLeft(mem, a, l);
      mem := SetRight(mem, a, rest);
      if l != NULL {
        mem := SetParent(mem, l, a);
      }
      SpellsFrame(old(mem), mem, l, tl);
      SpellsFrame(old(mem), mem, rest, tr);
    }

    /** skew_heap_insert of a node that is in no heap. */
    method Insert(a: Ptr, b: Ptr, comp: Compare, ghost t: Tree) returns (r: Ptr)
      requires IsHeap(mem, a, t) && b != NULL && b !in Nodes(t)
      modifies this
      ensures IsHeap(mem, r, Merge(comp, t, Node(Leaf, b, Leaf)))
      ensures mem.Keys == old(mem).Keys + {b}
      ensures forall x :: x in mem && x !in Nodes(t) && x != b ==> x in old(mem) && mem[x] == old(mem)[x]
      ensures calls == old(calls) + Calls(comp, t, Node(Leaf, b, Leaf))
    {
      mem := mem[b := Entry(NULL, NULL, NULL)];
      SpellsRoot(old(mem), a, t);
      SpellsFrame(old(mem), mem, a, t);
      MergeNoDup(comp, t, Node(Leaf, b, Leaf));
      SpellsRoot(mem, a, t);
      r := MergeHeaps(a, b, comp, t, Node(Leaf, b, Leaf));
      SpellsRoot(mem, r, Merge(comp, t, Node(Leaf, b, Leaf)));
      MergeRoot(comp, t, Node(Leaf, b, Leaf));
    }

    /** skew_heap_remove of any node of the heap. */
    method RemoveNode(a: Ptr, b: Ptr, comp: Compare, ghost t: Tree) returns (r: Ptr)
      requires IsHeap(mem, a, t) && b in Nodes(t)
      modifies this
      ensures IsHeap(mem, r, Remove(comp, t, b))
      ensures mem.Keys == old(mem).Keys
      ensures forall x :: x in mem && x !in Nodes(t) ==> mem[x] == old(mem)[x]
      ensures b == Root(t) ==> t.Node? && calls == old(calls) + Calls(comp, t.left, t.right)
    {
      ghost var m0 := mem;
      SpellsRoot(mem, a, t);
      SubSpells(mem, a, t, b);
      ghost var sub := Sub(t, b);
      RemoveNodes(comp, t, b);
      var p := mem[b].parent;
      var rep := MergeHeaps(mem[b].left, mem[b].right, comp, sub.left, sub.right);
      MergeNodes(comp, sub.left, sub.right);
      MergeNoDup(comp, sub.left, sub.right);
      SpellsRoot(mem, rep, Merge(comp, sub.left, sub.right));
      ghost var m1 := mem;
      Relink(b, p, rep);
      if p == NULL {
        RelinkRoot(m0, m1, a, t, comp, b, rep);
      } else {
        RelinkInner(m0, m1, a, t, comp, b, rep);
      }
      return if p != NULL then a else rep;
    }

    /** The assignments skew_heap_remove makes after the merge. */
    method Relink(b: Ptr, p: Ptr, rep: Ptr)
      requires (rep != NULL ==> rep in mem) && (p != NULL ==> p in mem)
      modifies this
      ensures calls == old(calls) && mem == Relinking(old(mem), b, p, rep)
    {
      if rep != NULL {
        mem := SetParent(mem, rep, p);
      }
      if p != NULL {
        if mem[p].left == b {
          mem := SetLeft(mem, p, rep);
        } else {
          mem := SetRight(mem, p, rep);
        }
      }
    }
  }

  function Relinking(mem: Memory, b: Ptr, p: Ptr, rep: Ptr): (r: Memory)
    requires (rep != NULL ==> rep in mem) && (p != NULL ==> p in mem)
  {
    var m := if rep != NULL then SetParent(mem, rep, p) else mem;
    if p == NULL then m else if m[p].left == b then SetLeft(m, p, rep) else SetRight(m, p, rep)
  }

  /** Removing the root: the merged subtrees are the new heap. */
  lemma RelinkRoot(m0: Memory, m1: Memory, a: Ptr, t: Tree, comp: Compare, b: Ptr, rep: Ptr)
    requires IsHeap(m0, a, t) && b in Nodes(t) && b in m0
    requires m1.Keys == m0.Keys
    requires forall x :: x in m1 && x !in Nodes(Sub(t, b).left) + Nodes(Sub(t, b).right) ==> m1[x] == m0[x]
    requires Spells(m1, rep, Merge(comp, Sub(t, b).left, Sub(t, b).right))
    requires rep != NULL ==> rep in m1 && rep in Nodes(Sub(t, b).left) + Nodes(Sub(t, b).right)
    requires m0[b].parent == NULL
    ensures var m2 := Relinking(m1, b, NULL, rep);
            && m2.Keys == m0.Keys && IsHeap(m2, rep, Remove(comp, t, b))
            && forall x :: x in m2 && x !in Nodes(t) ==> m2[x] == m0[x]
  {
    SpellsRoot(m0, a, t);
    SubSpells(m0, a, t, b);
    assert b == a && Sub(t, b) == t;
    RemoveNodes(comp, t, b);
    var merged := Merge(comp, t.left, t.right);
    SpellsRoot(m1, rep, merged);
    MergeNoDup(comp, t.left, t.right);
    SpellsFrame(m1, Relinking(m1, b, NULL, rep), rep, merged);
  }

  /** The two pointer writes of the relinking, seen from outside the subtree below b. */
  lemma RelinkedBy(m0: Memory, m1: Memory, t: Tree, b: Ptr, rep: Ptr, inner: set<Ptr>)
    requires b in Nodes(t) && b in m0 && m1.Keys == m0.Keys && inner <= Nodes(Sub(t, b))
    requires forall x :: x in m1 && x !in inner ==> m1[x] == m0[x]
    requires rep != NULL ==> rep in m1 && rep in inner
    requires m0[b].parent != NULL && m0[b].parent in m1 && m0[b].parent !in Nodes(Sub(t, b))
    requires forall x :: x in Nodes(t) ==> x in m0
    ensures var m2 := Relinking(m1, b, m0[b].parent, rep);
            && m2.Keys == m0.Keys && Relinked(m0, m2, t, b, rep)
            && forall x :: x in m2 && x !in inner && x != m0[b].parent ==> m2[x] == m0[x]
  {
    hide Nodes, Sub;
  }

  /** Removing an inner node: the merged subtrees take its place under its parent. */
  lemma RelinkInner(m0: Memory, m1: Memory, a: Ptr, t: Tree, comp: Compare, b: Ptr, rep: Ptr)
    requires IsHeap(m0, a, t) && b in Nodes(t) && b in m0
    requires m1.Keys == m0.Keys
    requires forall x :: x in m1 && x !in Nodes(Sub(t, b).left) + Nodes(Sub(t, b).right) ==> m1[x] == m0[x]
    requires Spells(m1, rep, Merge(comp, Sub(t, b).left, Sub(t, b).right))
    requires rep != NULL ==> rep in m1 && rep in Nodes(Sub(t, b).left) + Nodes(Sub(t, b).right)
    requires m0[b].parent != NULL && m0[b].parent in m1
    ensures var m2 := Relinking(m1, b, m0[b].parent, rep);
            && m2.Keys == m0.Keys && IsHeap(m2, a, Remove(comp, t, b))
            && forall x :: x in m2 && x !in Nodes(t) ==> m2[x] == m0[x]
  {
    hide Merge, Remove, Spells, Relinking, Relinked;
    var p := m0[b].parent;
    var sub := Sub(t, b);
    var m2 := Relinking(m1, b, p, rep);
    SpellsRoot(m0, a, t);
    SubSpells(m0, a, t, b);
    RelinkedBy(m0, m1, t, b, rep, Nodes(sub.left) + Nodes(sub.right));
    RemoveNodes(comp, t, b);
    MergeNodes(comp, sub.left, sub.right);
    MergeNoDup(comp, sub.left, sub.right);
    RelinkMerged(m1, sub, comp, b, p, rep);
    Splice(m0, m2, a, t, comp, b, rep);
  }

  lemma RelinkMerged(m1: Memory, sub: Tree, comp: Compare, b: Ptr, p: Ptr, rep: Ptr)
    requires sub.Node? && NoDup(Merge(comp, sub.left, sub.right))
    requires Spells(m1, rep, Merge(comp, sub.left, sub.right)) && (rep != NULL ==> rep in m1)
    requires p in m1 && p !in Nodes(Merge(comp, sub.left, sub.right))
    ensures Spells(Relinking(m1, b, p, rep), rep, Merge(comp, sub.left, sub.right))
  {
    var merged := Merge(comp, sub.left, sub.right);
    SpellsRoot(m1, rep, merged);
    SpellsFrame(m1, Relinking(m1, b, p, rep), rep, merged);
  }
}
