/** The comparison functions of the three heap-based scheduling classes, and when the
    wrap-around stride comparison agrees with the order of unbounded strides. */
module SchedOrder {
  import opened SkewHeap

  const TWO31: int := 0x8000_0000
  const TWO32: int := 0x1_0000_0000
  const BIG_STRIDE: nat := 0x4000_0000

  datatype Policy = Stride | HighestPriority | ShortestJob

  /** The fields of proc_struct the scheduling classes read and write; `stride` and
      `priority` are uint32_t. `inQueue` stands for proc->rq pointing to the run queue. */
  datatype Sched = Sched(stride: nat, priority: nat, pid: int, timeSlice: int, inQueue: bool, needResched: bool)

  predicate WordSized(q: Sched) {
    q.stride < TWO32 && 0 < q.priority < TWO32
  }

  // ----- proc_stride_comp_f -----

  /** Conversion of a uint32_t difference to int32_t. */
  function ToInt32(d: int): (r: int)
    ensures -TWO31 <= r < TWO31 && (r - d) % TWO32 == 0
  {
    var w := d % TWO32;
    if w < TWO31 then w else w - TWO32
  }

  function Sign(d: int): int {
    if d > 0 then 1 else if d == 0 then 0 else -1
  }

  function StrideComp(p: nat, q: nat): int {
    Sign(ToInt32(p - q))
  }

  lemma ModDiff(x: int, y: int)
    ensures (x % TWO32 - y % TWO32) % TWO32 == (x - y) % TWO32
  {
    var k := x / TWO32 - y / TWO32;
    var d := x % TWO32 - y % TWO32;
    assert x - y == d + k * TWO32;
    ModShift(d, k);
  }

  lemma ModShift(d: int, k: int)
    ensures (d + k * TWO32) % TWO32 == d % TWO32
  {
  }

  /** For strides less than 2^32 apart, the wrap-around comparison of their low words is the
      true order exactly when their difference fits an int32_t. */
  lemma WrapAgrees(p: int, q: int)
    requires -TWO32 < p - q < TWO32
    ensures StrideComp(p % TWO32, q % TWO32) == Sign(p - q) <==> -TWO31 <= p - q < TWO31
  {
    ModDiff(p, q);
    assert ToInt32(p % TWO32 - q % TWO32) == ToInt32(p - q);
  }

  /** The pass added when a process is picked: the larger the priority the smaller, and 0
      exactly above BIG_STRIDE. */
  function Pass(priority: nat): (r: nat)
    requires priority > 0
    ensures r <= BIG_STRIDE && (r == 0 <==> priority > BIG_STRIDE)
    ensures r * priority <= BIG_STRIDE < (r + 1) * priority
  {
    BIG_STRIDE / priority
  }

  // ----- proc_prio_comp_f and proc_sjf_comp_f -----

  function PrioComp(p: Sched, q: Sched): int {
    if p.priority > q.priority then -1
    else if p.priority < q.priority then 1
    else if p.pid < q.pid then -1
    else if p.pid > q.pid then 1
    else 0
  }

  function SjfComp(p: Sched, q: Sched): int {
    if p.priority < q.priority then -1
    else if p.priority > q.priority then 1
    else if p.pid < q.pid then -1
    else if p.pid > q.pid then 1
    else 0
  }

  function Comp(policy: Policy, p: Sched, q: Sched): int {
    match policy
    case Stride => StrideComp(p.stride, q.stride)
    case HighestPriority => PrioComp(p, q)
    case ShortestJob => SjfComp(p, q)
  }

  /** The comparison as the heap sees it, on node addresses. */
  function Order(policy: Policy, procs: map<Ptr, Sched>): Compare {
    (a, b) => if a in procs && b in procs then Comp(policy, procs[a], procs[b]) else 0
  }

  /** HPF and SJF order any set of processes totally, ... */
  lemma StaticPreorder(policy: Policy, procs: map<Ptr, Sched>, s: set<Ptr>)
    requires !policy.Stride? && s <= procs.Keys
    ensures Preorder(Order(policy, procs), s)
  {
  }

  /** ... and with distinct pids no two processes tie, so the pick is the unique extreme. */
  lemma StaticPickUnique(policy: Policy, procs: map<Ptr, Sched>, s: set<Ptr>, a: Ptr)
    requires !policy.Stride? && s <= procs.Keys && a in s
    requires forall x, y :: x in s && y in s && x != y ==> procs[x].pid != procs[y].pid
    requires forall q :: q in s ==> !Before(Order(policy, procs), q, a)
    ensures forall q :: q in s && q != a ==>
              (if procs[q].priority == procs[a].priority then procs[a].pid < procs[q].pid
               else if policy.HighestPriority? then procs[a].priority > procs[q].priority
               else procs[a].priority < procs[q].priority)
  {
    forall q | q in s && q != a
      ensures if procs[q].priority == procs[a].priority then procs[a].pid < procs[q].pid
              else if policy.HighestPriority? then procs[a].priority > procs[q].priority
              else procs[a].priority < procs[q].priority
    {
      assert !Before(Order(policy, procs), q, a);
      assert procs[q].pid != procs[a].pid;
    }
  }

  // ----- true strides -----

  /** Every low word is that of the true stride. */
  ghost predicate Tracks(truth: map<Ptr, int>, procs: map<Ptr, Sched>, s: set<Ptr>) {
    forall a :: a in s ==> a in truth && a in procs && procs[a].stride == truth[a] % TWO32
  }

  /** True strides are less than 2^31 apart. */
  ghost predicate InWindow(truth: map<Ptr, int>, s: set<Ptr>)
    requires s <= truth.Keys
  {
    forall a, b :: a in s && b in s ==> truth[a] - truth[b] < TWO31
  }

  /** Inside the window, proc_stride_comp_f is the order of true strides. */
  lemma StrideIsTrueOrder(truth: map<Ptr, int>, procs: map<Ptr, Sched>, s: set<Ptr>)
    requires Tracks(truth, procs, s) && InWindow(truth, s)
    ensures forall a, b :: a in s && b in s ==> (Before(Order(Stride, procs), a, b) <==> truth[a] < truth[b])
    ensures Preorder(Order(Stride, procs), s)
  {
    forall a, b | a in s && b in s ensures Before(Order(Stride, procs), a, b) <==> truth[a] < truth[b] {
      assert truth[a] - truth[b] < TWO31 && truth[b] - truth[a] < TWO31;
      WrapAgrees(truth[a], truth[b]);
    }
  }

  /** Picking a process of minimal true stride and adding its pass stays inside the window. */
  lemma PickKeepsWindow(truth: map<Ptr, int>, s: set<Ptr>, a: Ptr, pass: nat)
    requires s <= truth.Keys && InWindow(truth, s) && a in s && pass <= BIG_STRIDE
    requires forall q :: q in s ==> truth[a] <= truth[q]
    ensures InWindow(truth[a := truth[a] + pass], s)
  {
  }
}
