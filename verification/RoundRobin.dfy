/** The round-robin class of kern/schedule/default_sched.c: a FIFO queue threaded through
    the run_link entries of the processes. */
module RoundRobin {
  import opened Lists
  import opened ListRing

  const MAX_TIME_SLICE := 5

  /** The list head rq->run_list; processes have other addresses. */
  const RUN_LIST: Addr := 0

  datatype Slot = Slot(timeSlice: int, needResched: bool, inQueue: bool)

  /** Queued processes are marked, the run_link of any other is empty. */
  ghost predicate Threads(links: Memory, procs: map<Addr, Slot>, queue: seq<Addr>) {
    && RUN_LIST !in procs
    && (forall p :: p in queue ==> p in procs)
    && (forall p :: p in procs ==> p in links && (procs[p].inQueue <==> p in queue))
    && (forall p :: p in procs && p !in queue ==> links[p] == Link(p, p))
  }

  lemma ThreadsIn(l0: Memory, l1: Memory, procs: map<Addr, Slot>, queue: seq<Addr>, p: Addr, q: Slot)
    requires Threads(l0, procs, queue) && p in procs && q.inQueue && l1.Keys == l0.Keys
    requires forall a :: a in l0 && a !in [RUN_LIST] + queue + [p] ==> l1[a] == l0[a]
    ensures Threads(l1, procs[p := q], queue + [p])
  {
  }

  lemma ThreadsOut(l0: Memory, l1: Memory, procs: map<Addr, Slot>, queue: seq<Addr>, rest: seq<Addr>, p: Addr, q: Slot)
    requires Threads(l0, procs, queue) && p in procs && !q.inQueue && l1.Keys == l0.Keys
    requires forall a :: a in rest <==> a in queue && a != p
    requires forall a :: a in l0 && a !in [RUN_LIST] + queue ==> l1[a] == l0[a]
    requires p in l1 && l1[p] == Link(p, p)
    ensures Threads(l1, procs[p := q], rest)
  {
  }

  lemma ThreadsAt(links: Memory, procs: map<Addr, Slot>, queue: seq<Addr>, p: Addr)
    requires Threads(links, procs, queue) && p in procs
    ensures p in links && p != RUN_LIST && (procs[p].inQueue <==> p in queue) && (p !in queue ==> links[p] == Link(p, p))
    ensures forall a :: a in queue ==> a in procs
  {
  }

  class RrQueue {
    var links: Memory
    var procs: map<Addr, Slot>
    var procNum: int
    ghost var queue: seq<Addr>

    /** run_list spells the queue; a process outside it has an empty run_link. */
    ghost predicate Valid()
      reads this
    {
      Ring(links, RUN_LIST, queue) && procNum == |queue| && Threads(links, procs, queue)
    }

    constructor (ps: set<Addr>)
      requires RUN_LIST !in ps
      ensures Valid() && queue == [] && procs.Keys == ps
    {
      links := (map p | p in ps :: Link(p, p))[RUN_LIST := Link(RUN_LIST, RUN_LIST)];
      procs := map p | p in ps :: Slot(0, false, false);
      procNum, queue := 0, [];
      new;
      assert LinkedAt(links, [RUN_LIST], 0);
    }

    /** RR_enqueue appends; its assertion that run_link is empty holds iff the process is not queued. */
    method Enqueue(p: Addr)
      requires Valid() && p in procs && p !in queue
      modifies this
      ensures Valid() && queue == old(queue) + [p]
      ensures procs == old(procs)[p := Slot(
                if old(procs)[p].timeSlice == 0 || old(procs)[p].timeSlice > MAX_TIME_SLICE
                then MAX_TIME_SLICE else old(procs)[p].timeSlice, old(procs)[p].needResched, true)]
    {
      hide Ring, Threads;
      ThreadsAt(links, procs, queue, p);
      assert links[p].next == p;
      AddFirstLast(links, RUN_LIST, queue, p);
      AddTouches(links, RUN_LIST, queue, p);
      links := AddBefore(links, RUN_LIST, p);
      if procs[p].timeSlice == 0 || procs[p].timeSlice > MAX_TIME_SLICE {
        procs := procs[p := procs[p].(timeSlice := MAX_TIME_SLICE)];
      }
      procs := procs[p := procs[p].(inQueue := true)];
      procNum := procNum + 1;
      queue := queue + [p];
      assert procs == old(procs)[p := procs[p]];
      ThreadsIn(old(links), links, old(procs), old(queue), p, procs[p]);
    }

    /** RR_pick_next: the head of the queue, or the list head when it is empty. */
    method PickNext() returns (r: Addr)
      requires Valid()
      ensures queue == [] ==> r == RUN_LIST
      ensures queue != [] ==> r == queue[0]
    {
      EmptyIff(links, RUN_LIST, queue);
      r := links[RUN_LIST].next;
    }

    /** RR_dequeue of a queued process; list_del_init empties its run_link again. */
    method Dequeue(p: Addr)
      requires Valid() && p in queue
      modifies this
      ensures Valid() && queue == Without(old(queue), p)
      ensures procs == old(procs)[p := old(procs)[p].(inQueue := false)]
    {
      hide Ring, Threads, Del, Without;
      ghost var i :| 0 <= i < |queue| && queue[i] == p;
      assert p in procs by {
        ThreadsAll(links, procs, queue);
      }
      ThreadsAt(links, procs, queue, p);
      RingDistinct(links, RUN_LIST, queue);
      NotSelf(links, RUN_LIST, queue, i);
      assert links[p].next != p && procs[p].inQueue;
      DelAt(links, RUN_LIST, queue, i);
      DelTouches(links, RUN_LIST, queue, i);
      WithoutAt(queue, i);
      WithoutDistinct(queue, p);
      links := Del(links, p);
      ghost var l1 := links;
      links := Init(links, p);
      queue := Without(queue, p);
      RingFrame(l1, links, RUN_LIST, queue);
      procs := procs[p := procs[p].(inQueue := false)];
      procNum := procNum - 1;
      ThreadsOut(old(links), links, old(procs), old(queue), queue, p, procs[p]);
    }

    /** schedule() over this class: need_resched is cleared, a runnable current goes to the
        tail, and the head of the queue, if any, comes out. This is the step of the runs below. */
    method Schedule(cur: Addr, runnable: bool) returns (next: Addr)
      requires Valid() && cur in procs && cur !in queue
      modifies this
      ensures Valid() && (queue, next) == Next(old(queue), cur, if runnable then Yield else Block)
      ensures procs.Keys == old(procs).Keys && !procs[cur].needResched
      ensures forall p :: p in procs && p != cur ==>
                procs[p].timeSlice == old(procs)[p].timeSlice && procs[p].needResched == old(procs)[p].needResched
    {
      hide Ring, Without;
      procs := procs[cur := procs[cur].(needResched := false)];
      if runnable {
        Enqueue(cur);
      }
      ghost var s := queue;
      assert s == if runnable then old(queue) + [cur] else old(queue);
      ThreadsAll(links, procs, queue);
      WithoutHead(s);
      next := PickNext();
      if next != RUN_LIST {
        Dequeue(next);
      }
    }

    /** wakeup_proc puts the process it wakes at the tail. */
    method Wake(p: Addr, ghost cur: Addr)
      requires Valid() && p in procs && p !in queue
      modifies this
      ensures Valid() && (queue, cur) == Next(old(queue), cur, Event.Wake(p))
    {
      Enqueue(p);
    }
  }

  lemma WithoutHead(s: seq<Addr>)
    ensures s != [] ==> Without(s, s[0]) == s[1..]
  {
  }

  lemma ThreadsAll(links: Memory, procs: map<Addr, Slot>, queue: seq<Addr>)
    requires Threads(links, procs, queue)
    ensures RUN_LIST !in queue && forall p :: p in queue ==> p in procs
  {
  }

  /** The assertion of RR_dequeue: a queued entry does not point to itself. */
  lemma NotSelf(m: Memory, head: Addr, xs: seq<Addr>, i: nat)
    requires Ring(m, head, xs) && i < |xs|
    ensures xs[i] in m && m[xs[i]].next != xs[i]
  {
    Neighbours(m, head, xs, i);
    RingDistinct(m, head, xs);
  }

  lemma AddTouches(m: Memory, head: Addr, xs: seq<Addr>, elm: Addr)
    requires Ring(m, head, xs) && elm !in [head] + xs && elm in m
    requires head in m && m[head].prev in m
    ensures var m' := AddBefore(m, head, elm);
            m'.Keys == m.Keys && forall a :: a in m && a !in [head] + xs + [elm] ==> m'[a] == m[a]
  {
    EmptyIff(m, head, xs);
  }

  lemma DelTouches(m: Memory, head: Addr, xs: seq<Addr>, i: nat)
    requires Ring(m, head, xs) && i < |xs|
    ensures xs[i] in m && m[xs[i]].prev in m && m[xs[i]].next in m
    ensures var m' := Del(m, xs[i]);
            m'.Keys == m.Keys && forall a :: a in m && a !in [head] + xs ==> m'[a] == m[a]
  {
    Neighbours(m, head, xs, i);
  }

  // ----- fairness -----

  datatype Event = Yield | Block | Wake(p: Addr)

  /** schedule() with current put back (Yield) or not (Block), and wakeup_proc. */
  function Next(q: seq<Addr>, cur: Addr, e: Event): (r: (seq<Addr>, Addr)) {
    match e
    case Yield => var s := q + [cur]; (s[1..], s[0])
    case Block => if q == [] then ([], RUN_LIST) else (q[1..], q[0])
    case Wake(p) => (q + [p], cur)
  }

  function Switches(es: seq<Event>): nat {
    if es == [] then 0 else (if es[0].Wake? then 0 else 1) + Switches(es[1..])
  }

  function Outcome(q: seq<Addr>, cur: Addr, es: seq<Event>): (seq<Addr>, Addr)
    decreases es
  {
    if es == [] then (q, cur) else var n := Next(q, cur, es[0]); Outcome(n.0, n.1, es[1..])
  }

  /** A process at position k of the queue runs after exactly k + 1 switches, whatever else
      happens in between. */
  lemma {:induction false} RunsAfterItsTurn(q: seq<Addr>, cur: Addr, es: seq<Event>, k: nat)
    requires k < |q| && Switches(es) == k + 1 && es != [] && !es[|es| - 1].Wake?
    ensures Outcome(q, cur, es).1 == q[k]
    decreases es
  {
    var n := Next(q, cur, es[0]);
    if es[0].Wake? {
      assert es[1..] != [] && es[1..][|es[1..]| - 1] == es[|es| - 1];
      RunsAfterItsTurn(n.0, n.1, es[1..], k);
    } else if k == 0 {
      LastSwitch(es[1..]);
    } else {
      assert es[1..] != [];
      assert es[1..][|es[1..]| - 1] == es[|es| - 1];
      RunsAfterItsTurn(n.0, n.1, es[1..], k - 1);
    }
  }

  lemma {:induction false} LastSwitch(es: seq<Event>)
    requires Switches(es) == 0 && (es != [] ==> !es[|es| - 1].Wake?)
    ensures es == []
  {
    if es != [] {
      assert |es| > 1 ==> es[1..][|es[1..]| - 1] == es[|es| - 1];
      LastSwitch(es[1..]);
    }
  }
}
