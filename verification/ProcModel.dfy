/** The process life cycle of kern/process/proc.c and kern/schedule/sched.c as a state
    machine. The kernel is not preempted, so one system call up to its schedule() is one
    atomic step. The family tree is kept here as one list of children per process, youngest
    first; module ProcKernel shows that the cptr/optr/yptr pointers implement it. */
module ProcModel {
  import opened Lists
  import PidAlloc
  import opened Wrappers

  /** Address of a proc_struct; 0 is the null pointer. */
  type Ptr = nat

  const NULL: Ptr := 0
  const MAX_PROCESS := PidAlloc.MAX_PROCESS
  const MAX_PID := PidAlloc.MAX_PID
  const WT_INTERRUPTED: nat := 0x8000_0000
  const WT_CHILD: nat := 0x8000_0001
  const E_BAD_PROC := 2
  const E_INVAL := 3
  const E_NO_MEM := 4
  const E_NO_FREE_PROC := 5
  const E_KILLED := 9

  datatype RunState = UNINIT | SLEEPING | RUNNABLE | ZOMBIE

  /** The fields of proc_struct the life cycle depends on. `pending` is the position of a
      process blocked inside do_wait: the pid argument of that call. `birth` is a history
      variable, the number of forks before this process was linked. */
  datatype Proc = Proc(
    state: RunState, pid: int, parent: Ptr, waitState: nat, exiting: bool,
    needResched: bool, exitCode: int, pending: Option<int>, birth: nat)

  /** The kernel globals. The run queue is a multiset, so that "queued exactly once" has to
      be proved. `badWakeups` is a history variable: the number of wakeup_proc calls whose
      target was already RUNNABLE (a warning) or ZOMBIE (a failed assertion). */
  datatype State = State(
    procs: map<Ptr, Proc>, kids: map<Ptr, seq<Ptr>>, list: seq<Ptr>, nr: int,
    rq: multiset<Ptr>, cur: Ptr, idle: Ptr, init: Ptr, births: nat, badWakeups: nat)

  predicate WellLinked(s: State) {
    && s.cur in s.procs && s.init in s.procs && s.idle in s.procs
    && s.kids.Keys == s.procs.Keys
  }

  /** Same processes, same tree, same current process. */
  predicate SameFamily(s: State, r: State) {
    && r.procs.Keys == s.procs.Keys && r.kids == s.kids && r.list == s.list && r.nr == s.nr
    && r.cur == s.cur && r.idle == s.idle && r.init == s.init && r.births == s.births
  }

  /** The test `wait_state & WT_INTERRUPTED` on the single top bit of a 32-bit word. */
  predicate Interruptible(w: nat) {
    (w / WT_INTERRUPTED) % 2 == 1
  }

  function Wakeup(s: State, a: Ptr): (r: State)
    requires a in s.procs
    ensures SameFamily(s, r)
  {
    var q := s.procs[a];
    if q.state == RUNNABLE then
      s.(badWakeups := s.badWakeups + 1)
    else
      s.(procs := s.procs[a := q.(state := RUNNABLE, waitState := 0)],
         rq := if a != s.cur && a != s.idle then s.rq + multiset{a} else s.rq,
         badWakeups := if q.state == ZOMBIE then s.badWakeups + 1 else s.badWakeups)
  }

  // ----- schedule() -----

  /** First half of schedule(): clear need_resched and put a runnable current back. */
  function Offer(s: State): State
    requires s.cur in s.procs
  {
    var q := s.procs[s.cur];
    s.(procs := s.procs[s.cur := q.(needResched := false)],
       rq := if q.state == RUNNABLE && s.cur != s.idle then s.rq + multiset{s.cur} else s.rq)
  }

  /** What any scheduling class may pick: some queued process, nothing iff the queue is empty. */
  predicate CanPick(s: State, next: Ptr) {
    if s.rq == multiset{} then next == s.idle else next in s.rq
  }

  function Switch(s: State, next: Ptr): State {
    s.(rq := s.rq - multiset{next}, cur := next)
  }

  predicate Scheduled(s: State, next: Ptr, s': State)
    requires s.cur in s.procs
  {
    CanPick(Offer(s), next) && s' == Switch(Offer(s), next)
  }

  // ----- do_fork -----

  predicate PidFree(s: State, pid: int) {
    0 < pid < MAX_PID && forall a :: a in s.procs ==> s.procs[a].pid != pid
  }

  /** alloc_proc, hash_proc and set_links for a new child of current. */
  function Link(s: State, a: Ptr, pid: int): State
    requires WellLinked(s)
  {
    s.(procs := s.procs[a := Proc(UNINIT, pid, s.cur, 0, false, false, 0, None, s.births)],
       kids := s.kids[s.cur := [a] + s.kids[s.cur]][a := []],
       list := [a] + s.list,
       nr := s.nr + 1,
       births := s.births + 1)
  }

  function Fork(s: State, a: Ptr, pid: int): State
    requires WellLinked(s)
  {
    Wakeup(Link(s, a, pid), a)
  }

  // ----- do_exit -----

  function Die(s: State, code: int): State
    requires s.cur in s.procs
  {
    s.(procs := s.procs[s.cur := s.procs[s.cur].(state := ZOMBIE, exitCode := code, pending := None)])
  }

  function NotifyParent(s: State): State
    requires s.cur in s.procs && s.procs[s.cur].parent in s.procs
  {
    var p := s.procs[s.cur].parent;
    if s.procs[p].waitState == WT_CHILD then Wakeup(s, p) else s
  }

  predicate KidsLinked(s: State) {
    && WellLinked(s) && s.cur != s.init
    && forall c :: c in s.kids[s.cur] ==> c in s.procs
  }

  /** The youngest child of current becomes the youngest child of initproc. */
  function MoveOne(s: State): (r: State)
    requires KidsLinked(s) && s.kids[s.cur] != []
    ensures r.procs.Keys == s.procs.Keys && r.kids.Keys == s.kids.Keys
  {
    var c := s.kids[s.cur][0];
    s.(procs := s.procs[c := s.procs[c].(parent := s.init)],
       kids := s.kids[s.cur := s.kids[s.cur][1..]][s.init := [c] + s.kids[s.init]])
  }

  /** One round of the reparenting loop: move a child; a zombie wakes a waiting initproc. */
  function AdoptOne(s: State): State
    requires KidsLinked(s) && s.kids[s.cur] != []
  {
    var t := MoveOne(s);
    if t.procs[s.kids[s.cur][0]].state == ZOMBIE && t.procs[s.init].waitState == WT_CHILD
    then Wakeup(t, s.init) else t
  }

  function AdoptAll(s: State): (r: State)
    requires KidsLinked(s)
    ensures r.procs.Keys == s.procs.Keys && r.kids.Keys == s.kids.Keys
    ensures r.cur == s.cur && r.idle == s.idle && r.init == s.init
    ensures r.cur in r.kids && r.kids[r.cur] == []
    decreases if s.cur in s.kids then |s.kids[s.cur]| else 0
  {
    if s.kids[s.cur] == [] then s else AdoptAll(AdoptOne(s))
  }

  predicate CanExit(s: State) {
    KidsLinked(s) && s.cur != s.idle && s.procs[s.cur].parent in s.procs
  }

  /** do_exit up to its schedule(); for idleproc and initproc the source panics instead. */
  function Exit(s: State, code: int): (r: State)
    requires CanExit(s)
    ensures r.procs.Keys == s.procs.Keys && r.cur == s.cur
  {
    AdoptAll(NotifyParent(Die(s, code)))
  }

  // ----- do_wait -----

  /** Does child c satisfy a wait for pid w, where 0 means any child? */
  predicate Matches(s: State, w: int, c: Ptr)
    requires c in s.procs
  {
    w == 0 || s.procs[c].pid == w
  }

  function FirstZombie(s: State, cs: seq<Ptr>, w: int): (r: Option<Ptr>)
    requires forall c :: c in cs ==> c in s.procs
    ensures r.Some? ==> r.value in cs && Matches(s, w, r.value) && s.procs[r.value].state == ZOMBIE
    ensures r.None? ==> forall c :: c in cs && Matches(s, w, c) ==> s.procs[c].state != ZOMBIE
  {
    if cs == [] then None
    else if Matches(s, w, cs[0]) && s.procs[cs[0]].state == ZOMBIE then Some(cs[0])
    else
      assert cs == [cs[0]] + cs[1..];
      FirstZombie(s, cs[1..], w)
  }

  predicate HasKid(s: State, w: int)
    requires KidsKnown(s)
  {
    exists c :: c in s.kids[s.cur] && Matches(s, w, c)
  }

  predicate KidsKnown(s: State) {
    WellLinked(s) && forall c :: c in s.kids[s.cur] ==> c in s.procs
  }

  /** unhash_proc, remove_links and kfree of a zombie child of current. */
  function Reap(s: State, c: Ptr): State
    requires WellLinked(s)
  {
    s.(procs := s.procs - {c},
       kids := s.kids[s.cur := Without(s.kids[s.cur], c)] - {c},
       list := Without(s.list, c),
       nr := s.nr - 1)
  }

  function Sleep(s: State, w: int): State
    requires s.cur in s.procs
  {
    s.(procs := s.procs[s.cur :=
         s.procs[s.cur].(state := SLEEPING, waitState := WT_CHILD, pending := Some(w))])
  }

  /** One round of do_wait from its `repeat` label. */
  predicate WaitRound(s: State, w: int, next: Ptr, s': State)
    requires KidsKnown(s)
  {
    match FirstZombie(s, s.kids[s.cur], w)
    case Some(c) => s' == Reap(s, c)
    case None => if HasKid(s, w) then Scheduled(Sleep(s, w), next, s') else s' == s
  }

  function Unblock(s: State): State
    requires s.cur in s.procs
  {
    s.(procs := s.procs[s.cur := s.procs[s.cur].(pending := None)])
  }

  // ----- do_kill -----

  function Kill(s: State, a: Ptr): (r: State)
    requires a in s.procs
    ensures SameFamily(s, r)
  {
    if s.procs[a].exiting then s
    else
      var s1 := s.(procs := s.procs[a := s.procs[a].(exiting := true)]);
      if Interruptible(s1.procs[a].waitState) then Wakeup(s1, a) else s1
  }

  function SetResched(s: State): State
    requires s.cur in s.procs
  {
    s.(procs := s.procs[s.cur := s.procs[s.cur].(needResched := true)])
  }

  // ----- the transition relation -----

  datatype Event =
    | EvFork(child: Ptr, pid: int)
    | EvForkFails
    | EvExit(code: int, next: Ptr)
    | EvWait(w: int, next: Ptr)
    | EvResume(next: Ptr)
    | EvKill(target: int)
    | EvYield
    | EvTick(expired: bool)
    | EvResched(next: Ptr)

  /** Current is outside the kernel, or in the body of a kernel thread. */
  predicate AtRest(s: State) {
    WellLinked(s) && s.procs[s.cur].pending.None?
  }

  predicate ExitStep(s: State, code: int, next: Ptr, s': State) {
    CanExit(s) && Scheduled(Exit(s, code), next, s')
  }

  predicate KillStep(s: State, target: int, s': State) {
    if exists a :: a in s.procs && a != s.idle && s.procs[a].pid == target then
      exists a :: a in s.procs && a != s.idle && s.procs[a].pid == target && s' == Kill(s, a)
    else s' == s
  }

  /** One atomic step. A panic (exit of idleproc or initproc) has no successor. */
  predicate Step(s: State, e: Event, s': State) {
    match e
    case EvFork(a, pid) =>
      && AtRest(s) && s.cur != s.idle && s.nr < MAX_PROCESS
      && a != NULL && a !in s.procs && PidFree(s, pid) && s' == Fork(s, a, pid)
    case EvForkFails => AtRest(s) && s.cur != s.idle && s' == s
    case EvExit(code, next) => AtRest(s) && s.cur != s.idle && ExitStep(s, code, next, s')
    case EvWait(w, next) =>
      AtRest(s) && s.cur != s.idle && KidsKnown(s) && WaitRound(s, w, next, s')
    case EvResume(next) =>
      && WellLinked(s) && s.procs[s.cur].pending.Some?
      && if s.procs[s.cur].exiting then ExitStep(s, -E_KILLED, next, s')
         else KidsKnown(Unblock(s)) && WaitRound(Unblock(s), s.procs[s.cur].pending.value, next, s')
    case EvKill(target) => AtRest(s) && s.cur != s.idle && KillStep(s, target, s')
    case EvYield => AtRest(s) && s.cur != s.idle && s' == SetResched(s)
    case EvTick(expired) => WellLinked(s) && s' == if expired then SetResched(s) else s
    case EvResched(next) =>
      && AtRest(s) && (s.procs[s.cur].needResched || s.cur == s.init)
      && Scheduled(s, next, s')
  }

  /** The state proc_init leaves behind. */
  function Boot(idle: Ptr, init: Ptr): State {
    State(map[idle := Proc(RUNNABLE, 0, NULL, 0, false, true, 0, None, 0),
              init := Proc(RUNNABLE, 1, idle, 0, false, false, 0, None, 1)],
          map[idle := [init], init := []], [init], 2,
          multiset{init}, idle, idle, init, 2, 0)
  }

  ghost predicate CanStep(s: State, s': State) {
    exists e :: Step(s, e, s')
  }

  /** A finite run of the kernel from boot. */
  ghost predicate Run(run: seq<State>) {
    && run != []
    && (exists idle: Ptr, init: Ptr ::
          idle != NULL && init != NULL && idle != init && run[0] == Boot(idle, init))
    && forall i, j {:trigger CanStep(run[i], run[j])} ::
         0 <= i && j == i + 1 < |run| ==> CanStep(run[i], run[j])
  }
}
