/** Whole runs of the stride scheduler: wrap-around refinement, proportional share and
    bounded waiting. A run only sees 32-bit strides through proc_stride_comp_f; the true,
    unbounded strides are what the properties are about. */
module StrideRuns {
  import opened SchedOrder
  import opened SkewHeap
  import RunQueue
  import opened Lists
  import opened Div

  type Pid = Ptr

  /** `active` holds the runnable processes: the queue plus a runnable current process. */
  datatype World = World(truth: map<Pid, int>, prio: map<Pid, nat>, active: set<Pid>)

  datatype Event =
    | Pick(p: Pid)
    | Arrive(p: Pid, stride: int, priority: nat)   // fork or wakeup
    | Leave(p: Pid)                                // exit or sleep
    | Retune(p: Pid, priority: nat)                // lab6_set_priority

  predicate Sane(w: World) {
    && w.active <= w.truth.Keys && w.active <= w.prio.Keys
    && forall p :: p in w.active ==> w.prio[p] > 0
  }

  /** What the heap's root satisfies: no candidate's 32-bit stride compares before p's. */
  predicate FirstByWords(w: World, p: Pid)
    requires Sane(w)
  {
    && p in w.active
    && forall q :: q in w.active ==> StrideComp(w.truth[q] % TWO32, w.truth[p] % TWO32) != -1
  }

  ghost predicate Window(w: World)
    requires Sane(w)
  {
    forall a, b :: a in w.active && b in w.active ==> w.truth[a] - w.truth[b] < TWO31
  }

  ghost predicate Step(w: World, e: Event, w': World) {
    Sane(w) && Sane(w') &&
    match e
    case Pick(p) =>
      FirstByWords(w, p) && w' == w.(truth := w.truth[p := w.truth[p] + Pass(w.prio[p])])
    case Arrive(p, stride, priority) =>
      && p !in w.active && priority > 0
      && w' == World(w.truth[p := stride], w.prio[p := priority], w.active + {p})
    case Leave(p) => w' == w.(active := w.active - {p})
    case Retune(p, priority) => priority > 0 && p in w.active && w' == w.(prio := w.prio[p := priority])
  }

  /** run[i] --es[i]--> run[i + 1]; every arrival keeps the true strides within the window. */
  ghost predicate Run(run: seq<World>, es: seq<Event>) {
    && |run| == |es| + 1 && Sane(run[0]) && Window(run[0])
    && (forall i :: 0 <= i < |es| ==> StepAt(run, es, i))
  }

  ghost predicate StepAt(run: seq<World>, es: seq<Event>, i: nat)
    requires |run| == |es| + 1 && i < |es|
  {
    Step(run[i], es[i], run[i + 1]) && (es[i].Arrive? ==> Window(run[i + 1]))
  }

  // ----- wrap-around refinement -----

  lemma PickIsMinimal(w: World, p: Pid)
    requires Sane(w) && Window(w) && FirstByWords(w, p)
    ensures forall q :: q in w.active ==> w.truth[p] <= w.truth[q]
  {
    forall q | q in w.active ensures w.truth[p] <= w.truth[q] {
      assert w.truth[q] - w.truth[p] < TWO31 && w.truth[p] - w.truth[q] < TWO31;
      WrapAgrees(w.truth[q], w.truth[p]);
    }
  }

  /** In every run, true strides stay in the window, so every pick is of truly minimal stride. */
  lemma {:induction false} RunKeepsWindow(run: seq<World>, es: seq<Event>, i: nat)
    requires Run(run, es) && i <= |es|
    ensures Sane(run[i]) && Window(run[i])
    ensures i < |es| && es[i].Pick? ==>
              es[i].p in run[i].active
              && forall q :: q in run[i].active ==> run[i].truth[es[i].p] <= run[i].truth[q]
  {
    if i > 0 {
      RunKeepsWindow(run, es, i - 1);
      assert StepAt(run, es, i - 1);
      if es[i - 1].Pick? {
        PickIsMinimal(run[i - 1], es[i - 1].p);
      }
    }
    if i < |es| {
      assert StepAt(run, es, i);
      if es[i].Pick? {
        PickIsMinimal(run[i], es[i].p);
      }
    }
  }

  // ----- proportional share -----

  function Picks(es: seq<Event>, n: nat, p: Pid): nat
    requires n <= |es|
  {
    if n == 0 then 0 else Picks(es, n - 1, p) + (if es[n - 1] == Pick(p) then 1 else 0)
  }

  /** p is runnable throughout, with an unchanged priority. */
  ghost predicate Steady(run: seq<World>, p: Pid, priority: nat) {
    forall i :: 0 <= i < |run| ==>
      && p in run[i].active && p in run[i].prio && p in run[i].truth && run[i].prio[p] == priority
  }

  lemma MulSucc(n: nat, k: nat)
    ensures (n + 1) * k == n * k + k
  {
  }

  /** Two processes that stay runnable from equal strides: after every prefix of the run,
      picks weighted by pass differ by at most one pass of the process that is ahead. */
  lemma {:induction false} ProportionalShare(run: seq<World>, es: seq<Event>, i: Pid, j: Pid, pi: nat, pj: nat, n: nat)
    requires Run(run, es) && n <= |es| && i != j && pi > 0 && pj > 0
    requires Steady(run, i, pi) && Steady(run, j, pj) && run[0].truth[i] == run[0].truth[j]
    ensures -(Pass(pj) as int) <= Picks(es, n, i) * Pass(pi) - Picks(es, n, j) * Pass(pj) <= Pass(pi)
    ensures run[n].truth[i] == run[0].truth[i] + Picks(es, n, i) * Pass(pi)
    ensures run[n].truth[j] == run[0].truth[j] + Picks(es, n, j) * Pass(pj)
  {
    if n > 0 {
      ProportionalShare(run, es, i, j, pi, pj, n - 1);
      RunKeepsWindow(run, es, n - 1);
      assert StepAt(run, es, n - 1);
      MulSucc(Picks(es, n - 1, i), Pass(pi));
      MulSucc(Picks(es, n - 1, j), Pass(pj));
    }
  }

  /** The upper half of the share, for passes k and l that leave remainders r and s of b. */
  lemma ShareUpper(n: nat, m: nat, p: nat, q: nat, k: nat, l: nat, b: nat, r: nat, s: nat)
    requires b == k * p + r && b == l * q + s && n * k - m * l <= k
    ensures b * (n * q - m * p) <= (b + n * r) * q
  {
    var d, z := n * k - m * l, p * q;
    Expand(n, p, q, k, r);
    Expand(m, q, p, l, s);
    MulMono(0, m * s, p);
    MulMono(d, k, z);
    Spread(n * k, m * l, z);
    Spread(n * q, m * p, b);
    OnePick(k, p, q, r);
    Swap(p, q);
    assert (b + n * r) * q == b * q + (n * r) * q;
  }

  lemma Spread(x: int, y: int, z: int)
    ensures (x - y) * z == x * z - y * z && z * (x - y) == z * x - z * y
  {
  }

  lemma Swap(p: nat, q: nat)
    ensures p * q == q * p
  {
  }

  lemma OnePick(k: nat, p: nat, q: nat, r: nat)
    ensures k * (p * q) <= (k * p + r) * q
  {
    assert k * (p * q) == (k * p) * q;
    MulMono(k * p, k * p + r, q);
  }

  lemma Expand(n: nat, p: nat, q: nat, k: nat, r: nat)
    ensures (k * p + r) * (n * q) == (n * k) * (p * q) + (n * r) * q
  {
    var w := n * q;
    assert (k * p + r) * w == (k * p) * w + r * w;
    assert r * w == (n * r) * q;
    assert (k * p) * w == (n * k) * (p * q);
  }

  lemma MulMono(x: int, y: int, k: nat)
    requires x <= y
    ensures x * k <= y * k
  {
  }

  /** The same in priorities: picks are in proportion to them, up to one pick and the rounding
      of the passes, which is nothing for a priority that divides BIG_STRIDE. */
  lemma ShareByPriority(run: seq<World>, es: seq<Event>, i: Pid, j: Pid, pi: nat, pj: nat, n: nat)
    requires Run(run, es) && n <= |es| && i != j && 0 < pi <= BIG_STRIDE && 0 < pj <= BIG_STRIDE
    requires Steady(run, i, pi) && Steady(run, j, pj) && run[0].truth[i] == run[0].truth[j]
    ensures BIG_STRIDE * (Picks(es, n, i) * pj - Picks(es, n, j) * pi)
            <= (BIG_STRIDE + Picks(es, n, i) * (BIG_STRIDE % pi)) * pj
    ensures BIG_STRIDE * (Picks(es, n, j) * pi - Picks(es, n, i) * pj)
            <= (BIG_STRIDE + Picks(es, n, j) * (BIG_STRIDE % pj)) * pi
    ensures pi <= pj ==> Picks(es, n, i) <= Picks(es, n, j) + 1
  {
    ProportionalShare(run, es, i, j, pi, pj, n);
    var ni, nj, ki, kj := Picks(es, n, i), Picks(es, n, j), Pass(pi), Pass(pj);
    PassRemainder(pi);
    PassRemainder(pj);
    hide Pass, Run, Steady, Picks;
    ShareUpper(ni, nj, pi, pj, ki, kj, BIG_STRIDE, BIG_STRIDE % pi, BIG_STRIDE % pj);
    ShareUpper(nj, ni, pj, pi, kj, ki, BIG_STRIDE, BIG_STRIDE % pj, BIG_STRIDE % pi);
    if pi <= pj {
      PassAntitone(pi, pj);
      MulMono(kj, ki, nj);
      FewerPicks(ni, nj, ki);
    }
  }

  lemma PassRemainder(p: nat)
    requires p > 0
    ensures BIG_STRIDE == Pass(p) * p + BIG_STRIDE % p
  {
  }

  /** A higher priority never has the larger pass. */
  lemma PassAntitone(p: nat, q: nat)
    requires 0 < p <= q
    ensures Pass(q) <= Pass(p)
  {
    hide Pass;
    if Pass(q) > Pass(p) {
      MulMono(Pass(p) + 1, Pass(q), p);
      MulMono(p, q, Pass(q));
      assert false;
    }
  }

  lemma FewerPicks(n: nat, m: nat, k: nat)
    requires k > 0 && n * k <= m * k + k
    ensures n <= m + 1
  {
    if n > m + 1 {
      MulMono(m + 2, n, k);
      assert false;
    }
  }

  // ----- bounded waiting and starvation -----

  /** A priority at which the pass is 0, so that being picked does not move p. */
  predicate Frozen(w: World, p: Pid)
    requires Sane(w) && p in w.active
  {
    w.prio[p] > BIG_STRIDE
  }

  /** Another runnable process, not ahead of x, whose stride never moves. */
  predicate Blocks(w: World, p: Pid, x: Pid)
    requires Sane(w) && x in w.active
  {
    p in w.active && p != x && w.truth[p] <= w.truth[x] && Frozen(w, p)
  }

  ghost predicate AllPicks(es: seq<Event>) {
    forall i :: 0 <= i < |es| ==> es[i].Pick?
  }

  /** From w, x is picked within n + 1 picks whatever the ties. */
  ghost predicate PickedWithin(w: World, x: Pid, n: nat) {
    forall run, es :: Run(run, es) && run[0] == w && AllPicks(es) && |es| > n ==>
      exists i :: 0 <= i <= n && i < |es| && es[i] == Pick(x)
  }

  /** How often p can still be picked before x: (stride gap / pass) + 1, or never once ahead. */
  function Turns(w: World, p: Pid, x: Pid): nat
    requires Moves(w, p, x) && p != x
  {
    if w.truth[p] <= w.truth[x] then (w.truth[x] - w.truth[p]) / Pass(w.prio[p]) + 1 else 0
  }

  predicate Moves(w: World, p: Pid, x: Pid) {
    && p in w.truth && x in w.truth && p in w.prio && w.prio[p] > 0
    && (p != x && w.truth[p] <= w.truth[x] ==> w.prio[p] <= BIG_STRIDE)
  }

  /** ps lists the runnable processes, and none of them blocks x. */
  ghost predicate FixedSet(w: World, ps: seq<Pid>, x: Pid) {
    Distinct(ps) && (forall p :: p in ps <==> p in w.active) && forall p :: p in ps ==> Moves(w, p, x)
  }

  function TurnsBefore(w: World, ps: seq<Pid>, x: Pid): nat
    requires forall p :: p in ps ==> Moves(w, p, x)
  {
    if ps == [] then 0
    else (if ps[0] == x then 0 else Turns(w, ps[0], x)) + TurnsBefore(w, ps[1..], x)
  }

  /** A pick of another process uses up exactly one of its turns. */
  lemma PickUsesTurn(w: World, p: Pid, x: Pid, w': World)
    requires Moves(w, p, x) && p != x && w.truth[p] <= w.truth[x]
    requires w' == w.(truth := w.truth[p := w.truth[p] + Pass(w.prio[p])])
    ensures Moves(w', p, x) && Turns(w', p, x) == Turns(w, p, x) - 1
  {
    hide Pass;
    var d, k := w.truth[x] - w.truth[p], Pass(w.prio[p]);
    assert k > 0 && w'.truth[x] - w'.truth[p] == d - k;
    DivStep(d, k);
    if d < k {
      DivSmall(d, k);
    }
  }

  lemma DivSmall(d: nat, k: nat)
    requires d < k
    ensures d / k == 0
  {
  }

  lemma {:induction false} PickUsesOne(w: World, ps: seq<Pid>, p: Pid, x: Pid, w': World)
    requires forall q :: q in ps ==> Moves(w, q, x)
    requires Distinct(ps) && Moves(w, p, x) && p != x && w.truth[p] <= w.truth[x]
    requires w' == w.(truth := w.truth[p := w.truth[p] + Pass(w.prio[p])])
    ensures forall q :: q in ps ==> Moves(w', q, x)
    ensures TurnsBefore(w', ps, x) == TurnsBefore(w, ps, x) - (if p in ps then 1 else 0)
  {
    if ps != [] {
      assert ps == [ps[0]] + ps[1..];
      DistinctTail(ps);
      PickUsesOne(w, ps[1..], p, x, w');
      if ps[0] == p {
        PickUsesTurn(w, p, x, w');
      }
    }
  }

  /** While nothing but picks happens and no process blocks x, x is picked within
      TurnsBefore + 1 picks. */
  lemma {:induction false} BoundedWaiting(run: seq<World>, es: seq<Event>, ps: seq<Pid>, x: Pid)
    requires Run(run, es) && FixedSet(run[0], ps, x) && x in ps
    requires AllPicks(es)
    requires |es| > TurnsBefore(run[0], ps, x)
    ensures exists i :: 0 <= i <= TurnsBefore(run[0], ps, x) && i < |es| && es[i] == Pick(x)
  {
    assert StepAt(run, es, 0);
    RunKeepsWindow(run, es, 0);
    var p := es[0].p;
    if p == x {
      assert es[0] == Pick(x);
    } else {
      PickUsesOne(run[0], ps, p, x, run[1]);
      RunTail(run, es);
      BoundedWaiting(run[1..], es[1..], ps, x);
      var i :| 0 <= i <= TurnsBefore(run[1..][0], ps, x) && i < |es[1..]| && es[1..][i] == Pick(x);
      assert es[i + 1] == Pick(x);
    }
  }

  lemma RunTail(run: seq<World>, es: seq<Event>)
    requires Run(run, es) && |es| > 0
    ensures Run(run[1..], es[1..])
  {
    RunKeepsWindow(run, es, 1);
    forall i | 0 <= i < |es[1..]| ensures StepAt(run[1..], es[1..], i) {
      assert StepAt(run, es, i + 1);
    }
  }

  lemma RunCons(w: World, e: Event, run: seq<World>, es: seq<Event>)
    requires Run(run, es) && Sane(w) && Window(w) && Step(w, e, run[0]) && !e.Arrive?
    ensures Run([w] + run, [e] + es)
  {
    var r, f := [w] + run, [e] + es;
    forall i | 0 <= i < |f| ensures StepAt(r, f, i) {
      if i > 0 {
        assert StepAt(run, es, i - 1);
      }
    }
  }

  /** A process of least stride among all but x. */
  lemma {:induction false} LeastOther(w: World, s: set<Pid>) returns (q: Pid)
    requires s <= w.truth.Keys && s != {}
    ensures q in s && forall p :: p in s ==> w.truth[q] <= w.truth[p]
  {
    q :| q in s;
    if s != {q} {
      var r := LeastOther(w, s - {q});
      if w.truth[r] < w.truth[q] {
        q := r;
      }
    }
  }

  /** A pick of least stride is one the 32-bit comparison allows, and keeps the window. */
  lemma LeastIsPick(w: World, q: Pid) returns (w': World)
    requires Sane(w) && Window(w) && q in w.active && forall p :: p in w.active ==> w.truth[q] <= w.truth[p]
    ensures Step(w, Pick(q), w') && Window(w')
    ensures w' == w.(truth := w.truth[q := w.truth[q] + Pass(w.prio[q])])
  {
    w' := w.(truth := w.truth[q := w.truth[q] + Pass(w.prio[q])]);
    forall p | p in w.active ensures StrideComp(w.truth[p] % TWO32, w.truth[q] % TWO32) != -1 {
      assert w.truth[p] - w.truth[q] < TWO31;
      WrapAgrees(w.truth[p], w.truth[q]);
    }
  }

  /** The starving run: as long as wanted, without a single pick of x. */
  lemma {:induction false} Starve(w: World, p: Pid, x: Pid, n: nat) returns (run: seq<World>, es: seq<Event>)
    requires Sane(w) && Window(w) && x in w.active && Blocks(w, p, x)
    ensures Run(run, es) && run[0] == w && |es| == n && AllPicks(es) && forall i :: 0 <= i < n ==> es[i] != Pick(x)
    decreases n
  {
    if n == 0 {
      run, es := [w], [];
    } else {
      assert p in w.active - {x};
      var q := LeastOther(w, w.active - {x});
      var w' := LeastIsPick(w, q);
      var r, f := Starve(w', p, x, n - 1);
      RunCons(w, Pick(q), r, f);
      run, es := [w] + r, [Pick(q)] + f;
    }
  }

  lemma {:induction false} ListOf(s: set<Pid>) returns (ps: seq<Pid>)
    ensures Distinct(ps) && forall p :: p in ps <==> p in s
  {
    ps := [];
    if s != {} {
      var p :| p in s;
      var r := ListOf(s - {p});
      DistinctCons(p, r);
      ps := [p] + r;
    }
  }

  /** When the waiting of x is bounded: exactly if no other runnable process that is not ahead
      of x has a priority above BIG_STRIDE. Its own priority and those of processes ahead of
      it do not matter. */
  lemma WaitingBoundedIff(w: World, x: Pid)
    requires Sane(w) && Window(w) && x in w.active
    ensures (exists n: nat :: PickedWithin(w, x, n)) <==> !exists p :: Blocks(w, p, x)
  {
    if p :| Blocks(w, p, x) {
      forall n: nat ensures !PickedWithin(w, x, n) {
        var run, es := Starve(w, p, x, n + 1);
      }
    } else {
      var ps := ListOf(w.active);
      forall p | p in ps ensures Moves(w, p, x) {
        assert !Blocks(w, p, x);
      }
      var n := TurnsBefore(w, ps, x);
      forall run, es | Run(run, es) && run[0] == w && AllPicks(es) && |es| > n
        ensures exists i :: 0 <= i <= n && i < |es| && es[i] == Pick(x)
      {
        BoundedWaiting(run, es, ps, x);
      }
      assert PickedWithin(w, x, n);
    }
  }

  /** Behind a process that is strictly below x and frozen, no run of picks picks x at all. */
  lemma {:induction false} NeverPicked(run: seq<World>, es: seq<Event>, p: Pid, x: Pid, n: nat)
    requires Run(run, es) && AllPicks(es) && x in run[0].active && Blocks(run[0], p, x) && n <= |es|
    requires run[0].truth[p] < run[0].truth[x]
    ensures run[n].active == run[0].active && run[n].prio == run[0].prio
    ensures p in run[n].truth && run[n].truth[p] == run[0].truth[p]
    ensures x in run[n].truth && run[n].truth[x] == run[0].truth[x]
    ensures forall i :: 0 <= i < n ==> es[i] != Pick(x)
  {
    if n > 0 {
      NeverPicked(run, es, p, x, n - 1);
      RunKeepsWindow(run, es, n - 1);
      assert StepAt(run, es, n - 1);
    }
  }

  /** lab6_set_priority(0x40000001) once, and a process one stride behind waits for ever. */
  lemma StarvedInput(run: seq<World>, es: seq<Event>)
    requires Run(run, es) && AllPicks(es)
    requires run[0] == World(map[1 := 0, 2 := 1], map[1 := 0x4000_0001, 2 := 1], {1, 2})
    ensures forall i :: 0 <= i < |es| ==> es[i] == Pick(1)
  {
    NeverPicked(run, es, 1, 2, |es|);
    forall i | 0 <= i < |es| ensures es[i] == Pick(1) {
      NeverPicked(run, es, 1, 2, i);
      RunKeepsWindow(run, es, i);
      assert es[i].p in run[0].active;
    }
  }

  // ----- the run queue performs these steps -----

  /** What the run queue's processes look like to a run: s are the candidates of schedule(). */
  function WorldOf(truth: map<Ptr, int>, procs: map<Ptr, Sched>, s: set<Ptr>): World {
    World(truth, map q | q in procs :: procs[q].priority, s)
  }

  /** schedule() of the stride class is a Pick of a run. */
  lemma ScheduleIsPick(truth: map<Ptr, int>, procs: map<Ptr, Sched>, procs': map<Ptr, Sched>, s: set<Ptr>, next: Ptr)
    requires Tracks(truth, procs, s) && InWindow(truth, s)
    requires next in s && forall q :: q in s ==> procs[q].priority > 0
    requires forall q :: q in s ==> !Before(Order(Stride, procs), q, next)
    requires RunQueue.Advanced(Stride, procs, procs', next)
    ensures var truth' := truth[next := truth[next] + Pass(procs[next].priority)];
            && Sane(WorldOf(truth, procs, s)) && Window(WorldOf(truth, procs, s))
            && Step(WorldOf(truth, procs, s), Pick(next), WorldOf(truth', procs', s))
            && Tracks(truth', procs', s) && InWindow(truth', s)
  {
    hide Window;
    var truth' := truth[next := truth[next] + Pass(procs[next].priority)];
    RunQueue.ScheduleIsTrueMinimum(truth, procs, procs', s, next);
    var w, w' := WorldOf(truth, procs, s), WorldOf(truth', procs', s);
    assert Sane(w) && Window(w) by {
      WindowOf(truth, procs, s);
    }
    var w1 := LeastIsPick(w, next);
    assert w'.prio == w.prio;
  }

  lemma WindowOf(truth: map<Ptr, int>, procs: map<Ptr, Sched>, s: set<Ptr>)
    requires Tracks(truth, procs, s) && InWindow(truth, s) && forall q :: q in s ==> procs[q].priority > 0
    ensures Sane(WorldOf(truth, procs, s)) && Window(WorldOf(truth, procs, s))
  {
  }

  lemma TracksAt(truth: map<Ptr, int>, procs: map<Ptr, Sched>, s: set<Ptr>)
    requires Tracks(truth, procs, s)
    ensures s <= truth.Keys
  {
  }

  /** The class does it: from a queue whose strides are the low words of true strides in the
      window, schedule() takes the step Pick. */
  method ScheduleStep(rq: RunQueue.RunQueue, cur: Ptr, runnable: bool, ghost truth: map<Ptr, int>)
    returns (next: Ptr, ghost truth': map<Ptr, int>)
    requires rq.Valid() && rq.policy == Stride && cur in rq.procs && cur !in rq.Queued()
    requires var s := RunQueue.Candidates(rq.Queued(), cur, runnable); Tracks(truth, rq.procs, s) && InWindow(truth, s)
    modifies rq, rq.heap
    ensures rq.Valid()
    ensures var s := RunQueue.Candidates(old(rq.Queued()), cur, runnable);
            if s == {} then next == NULL && truth' == truth
            else
              && next in s && rq.Queued() == s - {next} && Tracks(truth', rq.procs, s) && InWindow(truth', s)
              && Window(WorldOf(truth, old(rq.procs), s))
              && Step(WorldOf(truth, old(rq.procs), s), Pick(next), WorldOf(truth', rq.procs, s))
  {
    hide Tracks, InWindow, Preorder, Before, Order, RunQueue.Advanced, Step, Window;
    ghost var s, procs := RunQueue.Candidates(rq.Queued(), cur, runnable), rq.procs;
    StrideIsTrueOrder(truth, rq.procs, s);
    RunQueue.MarkedPositive(procs, rq.Queued());
    assert s <= procs.Keys;
    TracksAt(truth, procs, s);
    next := rq.Schedule(cur, runnable);
    truth' := truth;
    if next != NULL {
      truth' := truth[next := truth[next] + Pass(procs[next].priority)];
      ScheduleIsPick(truth, procs, rq.procs, s, next);
    }
  }
}
