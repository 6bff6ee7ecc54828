/** The run queue of the stride, HPF and SJF classes: kern/schedule/default_sched_stride.c,
    default_sched_hpf.c and default_sched_sjf.c over the pointer heap of SkewHeap. */
module RunQueue {
  import opened SkewHeap
  import opened SkewCost
  import opened SchedOrder

  const MAX_TIME_SLICE := 5

  /** Heap order only reads the fields of queued processes that the policy compares. */
  ghost predicate SameKeys(procs: map<Ptr, Sched>, procs': map<Ptr, Sched>, s: set<Ptr>) {
    && s <= procs.Keys && s <= procs'.Keys
    && forall a :: a in s ==>
         && procs'[a].stride == procs[a].stride && procs'[a].priority == procs[a].priority
         && procs'[a].pid == procs[a].pid
  }

  lemma {:induction false} OrderedFrame(policy: Policy, procs: map<Ptr, Sched>, procs': map<Ptr, Sched>, t: Tree)
    requires SameKeys(procs, procs', Nodes(t)) && HeapOrdered(Order(policy, procs), t)
    ensures HeapOrdered(Order(policy, procs'), t)
  {
    if t.Node? {
      OrderedFrame(policy, procs, procs', t.left);
      OrderedFrame(policy, procs, procs', t.right);
      RootInNodes(t.left);
      RootInNodes(t.right);
    }
  }

  lemma PreorderFrame(policy: Policy, procs: map<Ptr, Sched>, procs': map<Ptr, Sched>, s: set<Ptr>)
    requires SameKeys(procs, procs', s) && Preorder(Order(policy, procs), s)
    ensures Preorder(Order(policy, procs'), s)
  {
    var f, g := Order(policy, procs), Order(policy, procs');
    forall a, b | a in s && b in s ensures Before(g, a, b) == Before(f, a, b) {
    }
  }

  /** Heap order below the root: what pick_next leaves until the picked root is dequeued. */
  ghost predicate OrderedBelowRoot(comp: Compare, t: Tree) {
    t.Node? ==> HeapOrdered(comp, t.left) && HeapOrdered(comp, t.right)
  }

  function NewSlice(slice: int): (r: int)
    ensures slice != 0 && slice <= 5 ==> r == slice
    ensures slice == 0 || slice > 5 ==> r == 5
  {
    if slice == 0 || slice > MAX_TIME_SLICE then MAX_TIME_SLICE else slice
  }

  lemma SingleNode(comp: Compare, p: Ptr)
    ensures Nodes(Node(Leaf, p, Leaf)) == {p} && HeapOrdered(comp, Node(Leaf, p, Leaf))
  {
  }

  lemma OrderedAfterPick(policy: Policy, procs: map<Ptr, Sched>, t: Tree, q: Sched)
    requires t.Node? && NoDup(t) && Nodes(t) <= procs.Keys && HeapOrdered(Order(policy, procs), t)
    ensures OrderedBelowRoot(Order(policy, procs[t.at := q]), t)
  {
    OrderedFrame(policy, procs, procs[t.at := q], t.left);
    OrderedFrame(policy, procs, procs[t.at := q], t.right);
  }

  lemma HeapRoot(mem: Memory, n: Ptr, t: Tree)
    requires IsHeap(mem, n, t)
    ensures n == Root(t) && (n == NULL <==> Nodes(t) == {}) && (n != NULL ==> t.Node? && n in Nodes(t))
  {
    SpellsRoot(mem, n, t);
  }

  lemma HeapNoDup(mem: Memory, n: Ptr, t: Tree)
    requires IsHeap(mem, n, t)
    ensures NoDup(t)
  {
  }

  lemma OrderedParts(comp: Compare, t: Tree)
    requires HeapOrdered(comp, t)
    ensures OrderedBelowRoot(comp, t)
  {
  }

  /** The in-queue marks agree with the queue, and every field fits its word. */
  ghost predicate Marked(procs: map<Ptr, Sched>, s: set<Ptr>) {
    && (forall a :: a in procs ==> WordSized(procs[a]) && (a in s <==> procs[a].inQueue))
    && s <= procs.Keys && NULL !in procs
  }

  /** Changing one process keeps the marks when its new mark says whether it is in s. */
  lemma MarkedSet(procs: map<Ptr, Sched>, s: set<Ptr>, s': set<Ptr>, p: Ptr, q: Sched)
    requires Marked(procs, s) && p in procs && WordSized(q)
    requires s' == (if q.inQueue then s + {p} else s - {p})
    ensures Marked(procs[p := q], s')
  {
  }

  lemma MarkedAt(procs: map<Ptr, Sched>, s: set<Ptr>, p: Ptr)
    requires Marked(procs, s)
    ensures s <= procs.Keys && (p in procs ==> WordSized(procs[p]) && p != NULL && (p in s <==> procs[p].inQueue))
  {
  }

  lemma MarkedPositive(procs: map<Ptr, Sched>, s: set<Ptr>)
    requires Marked(procs, s)
    ensures s <= procs.Keys && NULL !in procs && forall a :: a in procs ==> procs[a].priority > 0
  {
  }

  class RunQueue {
    const policy: Policy
    const heap: Pool
    var pool: Ptr
    var procNum: int
    var procs: map<Ptr, Sched>
    ghost var tree: Tree

    ghost predicate Structure()
      reads this, heap
    {
      && IsHeap(heap.mem, pool, tree) && procNum == |Nodes(tree)|
      && Marked(procs, Nodes(tree))
    }

    /** Holds at every schedule boundary. */
    ghost predicate Valid()
      reads this, heap
    {
      Structure() && HeapOrdered(Order(policy, procs), tree)
    }

    ghost function Queued(): set<Ptr>
      reads this
    {
      Nodes(tree)
    }

    /** Calls of skew_heap_merge made so far plus the credit left in the heap: the amortised
        cost, which grows by no more than its toll with each operation. */
    ghost function Cost(): nat
      reads this`tree, heap`calls
    {
      heap.calls + Potential(tree)
    }

    constructor (p: Policy)
      ensures Valid() && Queued() == {} && policy == p && procs == map[] && fresh(heap) && Cost() == 0
    {
      policy := p;
      heap := new Pool(map[]);
      pool, procNum, procs, tree := NULL, 0, map[], Leaf;
    }

    /** The writes of enqueue to the process itself. */
    method Admit(p: Ptr)
      requires p in procs
      modifies this`procs
      ensures procs == old(procs)[p := old(procs)[p].(timeSlice := NewSlice(old(procs)[p].timeSlice), inQueue := true)]
    {
      if procs[p].timeSlice == 0 || procs[p].timeSlice > MAX_TIME_SLICE {
        procs := procs[p := procs[p].(timeSlice := MAX_TIME_SLICE)];
      }
      procs := procs[p := procs[p].(inQueue := true)];
    }

    /** skew_heap_insert of p into the pool. */
    method InsertNode(p: Ptr)
      requires IsHeap(heap.mem, pool, tree) && HeapOrdered(Order(policy, procs), tree) && p != NULL && p !in Nodes(tree)
      requires Preorder(Order(policy, procs), Nodes(tree) + {p})
      modifies this`pool, this`tree, heap
      ensures IsHeap(heap.mem, pool, tree) && HeapOrdered(Order(policy, procs), tree)
      ensures Nodes(tree) == old(Nodes(tree)) + {p}
      ensures Cost() <= old(Cost()) + Toll(Nodes(tree))
    {
      hide Preorder, HeapOrdered, IsHeap, Order, Merge, Nodes, Potential, Toll, Calls, NoDup;
      var comp := Order(policy, procs);
      ghost var single := Node(Leaf, p, Leaf);
      ghost var t := Merge(comp, tree, single);
      HeapNoDup(heap.mem, pool, tree);
      SingleNode(comp, p);
      MergeNodes(comp, tree, single);
      MergeOrdered(comp, tree, single);
      pool := heap.Insert(pool, p, comp, tree);
      InsertPays(comp, tree, p);
      tree := t;
    }

    /** enqueue of a process that is not queued. */
    method Enqueue(p: Ptr)
      requires Valid() && p in procs && p !in Queued()
      requires Preorder(Order(policy, procs), Queued() + {p})
      modifies this`pool, this`procNum, this`procs, this`tree, heap
      ensures Valid() && Queued() == old(Queued()) + {p}
      ensures procs == old(procs)[p := old(procs)[p].(timeSlice := NewSlice(old(procs)[p].timeSlice), inQueue := true)]
      ensures Cost() <= old(Cost()) + Toll(Queued())
    {
      hide Preorder, HeapOrdered, IsHeap, Order, Nodes, Marked, Cost, Toll;
      MarkedAt(procs, Nodes(tree), p);
      InsertNode(p);
      ghost var was := procs;
      Admit(p);
      procNum := procNum + 1;
      MarkedSet(was, old(Nodes(tree)), Nodes(tree), p, procs[p]);
      MarkedAt(was, old(Nodes(tree)), p);
      OrderedFrame(policy, was, procs, tree);
    }

    /** pick_next: the first process in the policy's order, or null iff the queue is empty.
        Under the stride policy the pick's stride advances, so that only the order below it
        is left intact; the following dequeue removes it. */
    method PickNext() returns (r: Ptr)
      requires Valid() && Preorder(Order(policy, procs), Queued())
      modifies this`procs
      ensures Structure() && OrderedBelowRoot(Order(policy, procs), tree) && Cost() == old(Cost())
      ensures r == NULL <==> Queued() == {}
      ensures r == NULL ==> procs == old(procs)
      ensures r != NULL ==>
                && r in Queued() && r == Root(tree)
                && (forall q :: q in Queued() ==> !Before(Order(policy, old(procs)), q, r))
                && procs == old(procs)[r := old(procs)[r].(stride :=
                     if policy.Stride? then (old(procs)[r].stride + Pass(old(procs)[r].priority)) % TWO32
                     else old(procs)[r].stride)]
    {
      hide Preorder, HeapOrdered, OrderedBelowRoot, IsHeap, Order, Before, Nodes, Marked;
      MarkedAt(procs, Nodes(tree), pool);
      HeapRoot(heap.mem, pool, tree);
      OrderedParts(Order(policy, procs), tree);
      if pool == NULL {
        return NULL;
      }
      r := pool;
      forall q | q in Nodes(tree) ensures !Before(Order(policy, procs), q, r) {
        RootIsFirst(Order(policy, procs), tree, q);
      }
      if policy.Stride? {
        procs := procs[r := procs[r].(stride := (procs[r].stride + Pass(procs[r].priority)) % TWO32)];
        MarkedSet(old(procs), Nodes(tree), Nodes(tree), r, procs[r]);
        HeapNoDup(heap.mem, pool, tree);
        OrderedAfterPick(policy, old(procs), tree, procs[r]);
      }
    }

    /** dequeue of any queued process, in particular of the root pick_next has disturbed. */
    method Dequeue(p: Ptr)
      requires Structure() && p in Queued()
      requires if p == Root(tree) then OrderedBelowRoot(Order(policy, procs), tree)
               else HeapOrdered(Order(policy, procs), tree)
      requires Preorder(Order(policy, procs), Queued() - (if p == Root(tree) then {p} else {}))
      modifies this`pool, this`procNum, this`procs, this`tree, heap
      ensures Valid() && Queued() == old(Queued()) - {p}
      ensures procs == old(procs)[p := old(procs)[p].(inQueue := false)]
      ensures p == old(Root(tree)) ==> Cost() <= old(Cost()) + Toll(old(Queued()))
    {
      hide Preorder, HeapOrdered, IsHeap, Order, Remove, Nodes, OrderedBelowRoot, Marked, Potential, Toll, Calls, NoDup, Size;
      MarkedAt(procs, Nodes(tree), p);
      HeapNoDup(heap.mem, pool, tree);
      if p == Root(tree) && tree.Node? {
        RemoveFirstPays(Order(policy, procs), tree);
      }
      assert procs[p].inQueue && procNum > 0;
      ghost var t := Remove(Order(policy, procs), tree, p);
      RemoveNodes(Order(policy, procs), tree, p);
      DequeueOrdered(Order(policy, procs), tree, p);
      ghost var was := procs;
      pool := heap.RemoveNode(pool, p, Order(policy, procs), tree);
      tree := t;
      procs := procs[p := procs[p].(inQueue := false)];
      procNum := procNum - 1;
      MarkedSet(was, old(Nodes(tree)), Nodes(t), p, procs[p]);
      MarkedAt(was, old(Nodes(tree)), p);
      OrderedFrame(policy, was, procs, tree);
    }

    /** The two calls schedule() makes one after the other: pick_next and dequeue. */
    method PickAndDequeue() returns (next: Ptr)
      requires Valid() && Preorder(Order(policy, procs), Queued())
      modifies this`pool, this`procNum, this`procs, this`tree, heap
      ensures Valid() && (next == NULL <==> old(Queued()) == {})
      ensures next == NULL ==> Queued() == {} && procs == old(procs)
      ensures next != NULL ==>
                && next in old(Queued()) && next in old(procs) && old(procs)[next].priority > 0
                && Queued() == old(Queued()) - {next}
                && (forall q :: q in old(Queued()) ==> !Before(Order(policy, old(procs)), q, next))
                && var p := Picked(policy, old(procs), next); procs == p[next := p[next].(inQueue := false)]
      ensures Cost() <= old(Cost()) + Toll(old(Queued()))
    {
      hide IsHeap, HeapOrdered, OrderedBelowRoot, Preorder, Order, Before, Nodes, Marked, Cost, Toll;
      ghost var s := Queued();
      next := PickNext();
      MarkedAt(old(procs), s, next);
      if next != NULL {
        PreorderSubset(Order(policy, old(procs)), s - {next}, s);
        PreorderFrame(policy, old(procs), procs, s - {next});
        Dequeue(next);
      }
    }

    /** schedule() seen from the run queue: a runnable current goes back first, then the
        first of all candidates in the policy's order comes out. Only the pick's stride moves. */
    method Schedule(cur: Ptr, runnable: bool) returns (next: Ptr)
      requires Valid() && cur in procs && cur !in Queued()
      requires Preorder(Order(policy, procs), Candidates(Queued(), cur, runnable))
      modifies this`pool, this`procNum, this`procs, this`tree, heap
      ensures Valid()
      ensures var s := Candidates(old(Queued()), cur, runnable);
              && (next == NULL <==> s == {})
              && (next != NULL ==>
                    && next in s && Queued() == s - {next}
                    && (forall q :: q in s ==> !Before(Order(policy, old(procs)), q, next)))
              && (next == NULL ==> Queued() == {})
      ensures Advanced(policy, old(procs), procs, next)
      ensures Cost() <= old(Cost()) + 2 * Toll(Candidates(old(Queued()), cur, runnable))
    {
      hide IsHeap, HeapOrdered, OrderedBelowRoot, Preorder, Order, Before, Nodes, Advanced, Marked, Cost, Toll;
      ghost var q := Queued();
      MarkedAt(procs, q, cur);
      if runnable {
        Enqueue(cur);
        PreorderFrame(policy, old(procs), procs, Queued());
      }
      ghost var mid, s := procs, Queued();
      assert s == Candidates(old(Queued()), cur, runnable);
      SameBefore(policy, old(procs), mid, s);
      next := PickAndDequeue();
      MarkedAt(old(procs), q, next);
      AdvancedByPick(policy, old(procs), cur, runnable, NewSlice(old(procs)[cur].timeSlice), next);
    }

    /** lab6_set_priority: the current process is not queued, so no key in the heap moves. */
    method SetPriority(cur: Ptr, priority: nat)
      requires Valid() && cur in procs && cur !in Queued() && priority < TWO32
      modifies this`procs
      ensures Valid() && Queued() == old(Queued())
      ensures procs == old(procs)[cur := old(procs)[cur].(priority := if priority == 0 then 1 else priority)]
    {
      hide IsHeap, HeapOrdered, Order, Nodes;
      procs := procs[cur := procs[cur].(priority := if priority == 0 then 1 else priority)];
      OrderedFrame(policy, old(procs), procs, tree);
    }

    /** proc_tick: one tick of the current process. */
    method ProcTick(cur: Ptr)
      requires Valid() && cur in procs
      modifies this`procs
      ensures Valid() && Queued() == old(Queued())
      ensures var q := old(procs)[cur];
              var slice := if q.timeSlice > 0 then q.timeSlice - 1 else q.timeSlice;
              procs == old(procs)[cur := q.(timeSlice := slice, needResched := q.needResched || slice == 0)]
    {
      hide IsHeap, HeapOrdered, Order, Nodes;
      if procs[cur].timeSlice > 0 {
        procs := procs[cur := procs[cur].(timeSlice := procs[cur].timeSlice - 1)];
      }
      if procs[cur].timeSlice == 0 {
        procs := procs[cur := procs[cur].(needResched := true)];
      }
      OrderedFrame(policy, old(procs), procs, tree);
    }
  }

  function Candidates(queued: set<Ptr>, cur: Ptr, runnable: bool): set<Ptr> {
    if runnable then queued + {cur} else queued
  }

  /** All keys stay, except that the stride policy advances the pick's stride by its pass. */
  ghost predicate Advanced(policy: Policy, procs: map<Ptr, Sched>, procs': map<Ptr, Sched>, next: Ptr) {
    && procs'.Keys == procs.Keys
    && (forall a :: a in procs ==>
          && procs'[a].priority == procs[a].priority && procs'[a].pid == procs[a].pid
          && procs'[a].stride == if policy.Stride? && a == next && procs[a].priority > 0
                                 then (procs[a].stride + Pass(procs[a].priority)) % TWO32
                                 else procs[a].stride)
  }

  function Admitted(procs: map<Ptr, Sched>, cur: Ptr, runnable: bool, slice: int): map<Ptr, Sched>
    requires cur in procs
  {
    if runnable then procs[cur := procs[cur].(timeSlice := slice, inQueue := true)] else procs
  }

  function Picked(policy: Policy, procs: map<Ptr, Sched>, next: Ptr): map<Ptr, Sched>
    requires next in procs && procs[next].priority > 0
  {
    procs[next := procs[next].(stride :=
      if policy.Stride? then (procs[next].stride + Pass(procs[next].priority)) % TWO32 else procs[next].stride)]
  }

  lemma AdvancedByPick(policy: Policy, procs: map<Ptr, Sched>, cur: Ptr, runnable: bool, slice: int, next: Ptr)
    requires cur in procs && (next in procs ==> procs[next].priority > 0)
    ensures next !in procs ==> Advanced(policy, procs, Admitted(procs, cur, runnable, slice), next)
    ensures next in procs ==>
              var p := Picked(policy, Admitted(procs, cur, runnable, slice), next);
              Advanced(policy, procs, p[next := p[next].(inQueue := false)], next)
  {
  }

  lemma SameBefore(policy: Policy, procs: map<Ptr, Sched>, procs': map<Ptr, Sched>, s: set<Ptr>)
    requires SameKeys(procs, procs', s)
    ensures forall a, b :: a in s && b in s ==>
              (Before(Order(policy, procs'), a, b) <==> Before(Order(policy, procs), a, b))
  {
  }

  /** The stride policy: while true strides stay less than 2^31 apart, schedule() picks a
      process of truly minimal stride, and the true strides stay that close. */
  lemma ScheduleIsTrueMinimum(truth: map<Ptr, int>, procs: map<Ptr, Sched>, procs': map<Ptr, Sched>, s: set<Ptr>,
                              next: Ptr)
    requires Tracks(truth, procs, s) && InWindow(truth, s)
    requires next in s && procs[next].priority > 0
    requires forall q :: q in s ==> !Before(Order(Stride, procs), q, next)
    requires Advanced(Stride, procs, procs', next)
    ensures forall q :: q in s ==> truth[next] <= truth[q]
    ensures var truth' := truth[next := truth[next] + Pass(procs[next].priority)];
            Tracks(truth', procs', s) && InWindow(truth', s)
  {
    StrideIsTrueOrder(truth, procs, s);
    PickKeepsWindow(truth, s, next, Pass(procs[next].priority));
    AddMod(truth[next], Pass(procs[next].priority));
  }

  lemma AddMod(x: int, y: nat)
    ensures (x % TWO32 + y) % TWO32 == (x + y) % TWO32
  {
    var k := x / TWO32;
    assert x + y == (x % TWO32 + y) + k * TWO32;
    ModShift(x % TWO32 + y, k);
  }

  lemma DequeueOrdered(comp: Compare, t: Tree, p: Ptr)
    requires NoDup(t) && p in Nodes(t)
    requires if p == Root(t) then OrderedBelowRoot(comp, t) else HeapOrdered(comp, t)
    requires Preorder(comp, Nodes(t) - (if p == Root(t) then {p} else {}))
    ensures HeapOrdered(comp, Remove(comp, t, p))
  {
    if p == Root(t) {
      assert Nodes(t.left) + Nodes(t.right) == Nodes(t) - {p};
      MergeOrdered(comp, t.left, t.right);
    } else {
      assert Nodes(t) - {} == Nodes(t);
      RemoveOrdered(comp, t, p);
    }
  }
}
