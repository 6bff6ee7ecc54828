/** Whole-run properties of the process life cycle, read off the invariant. */
module ProcRuns {
  import opened Lists
  import opened ProcModel
  import opened ProcSafety
  import opened Wrappers

  /** Deadlock freedom: some process other than idleproc is RUNNABLE in every reachable state. */
  lemma DeadlockFree(run: seq<State>, i: nat)
    requires Run(run) && i < |run|
    ensures exists a :: a in run[i].procs && a != run[i].idle && run[i].procs[a].state == RUNNABLE
  {
    RunInv(run, i);
    var r := RunnableBelow(run[i], run[i].init);
  }

  /** idleproc starts out asking for a reschedule, and that gives the CPU to initproc. */
  lemma BootStarts(idle: Ptr, init: Ptr)
    requires idle != NULL && init != NULL && idle != init
    ensures exists t :: Step(Boot(idle, init), EvResched(init), t) && t.cur == init && t.rq == multiset{}
    ensures forall next, t :: Step(Boot(idle, init), EvResched(next), t) ==> t.cur == init
  {
    var s := Boot(idle, init);
    var t := Switch(Offer(s), init);
    assert Step(s, EvResched(init), t);
  }

  lemma NextKeepsIdleOut(run: seq<State>, i: nat)
    requires Run(run) && i + 1 < |run| && run[i].cur != run[i].idle
    ensures run[i + 1].cur != run[i + 1].idle
  {
    RunInv(run, i);
    assert CanStep(run[i], run[i + 1]);
    var e :| Step(run[i], e, run[i + 1]);
    StepInv(run[i], e, run[i + 1]);
  }

  /** After the first switch away from it, idleproc never runs again. */
  lemma {:induction false} IdleNeverAgain(run: seq<State>, i: nat, j: nat)
    requires Run(run) && i <= j < |run| && run[i].cur != run[i].idle
    ensures run[j].cur != run[j].idle
  {
    if i < j {
      IdleNeverAgain(run, i, j - 1);
      NextKeepsIdleOut(run, j - 1);
    }
  }

  /** No lost wakeup: a sleeper is inside do_wait, some child matches the awaited pid, and
      no matching child is a zombie. */
  lemma SleepersHaveWork(run: seq<State>, i: nat, a: Ptr)
    requires Run(run) && i < |run|
    requires a in run[i].procs && run[i].procs[a].state == SLEEPING
    ensures var s := run[i];
            && a in s.kids && s.procs[a].pending.Some? && s.procs[a].waitState == WT_CHILD
            && (exists c :: c in s.kids[a] && c in s.procs && Matches(s, s.procs[a].pending.value, c))
            && (forall c :: c in s.kids[a] && c in s.procs && Matches(s, s.procs[a].pending.value, c) ==>
                  s.procs[c].state != ZOMBIE)
  {
    RunInv(run, i);
    var s := run[i];
    assert StateOk(s.procs[a]);
    assert Awaits(s, a);
    var c :| c in s.kids[a] && Matches(s, s.procs[a].pending.value, c);
  }

  /** Run-queue membership: queued exactly once iff RUNNABLE, not current and not idleproc;
      every wakeup_proc call so far found its target neither RUNNABLE nor ZOMBIE. */
  lemma QueueMembership(run: seq<State>, i: nat, a: Ptr)
    requires Run(run) && i < |run|
    ensures var s := run[i];
            && (s.rq[a] == if a in s.procs && s.procs[a].state == RUNNABLE && a != s.cur && a != s.idle then 1 else 0)
            && s.badWakeups == 0
  {
    RunInv(run, i);
    assert run[i].rq[a] == if Ready(run[i], a) then 1 else 0;
  }

  // ----- the family tree -----

  /** Climbing n parent links from c arrives at a. */
  ghost predicate Climbs(s: State, c: Ptr, a: Ptr, n: nat)
    decreases n
  {
    if n == 0 then c == a
    else c in s.procs && Climbs(s, s.procs[c].parent, a, n - 1)
  }

  lemma ParentAboveInit(s: State, c: Ptr)
    requires Shape(s) && c in s.procs && c != s.idle && c != s.init
    ensures var p := s.procs[c].parent;
            p in s.procs && p != s.idle && c in s.kids[p] && s.procs[p].birth < s.procs[c].birth
  {
    assert InParentsList(s, c) && YoungerThanParent(s, c);
  }

  lemma {:induction false} ClimbsToInit(s: State, c: Ptr) returns (n: nat)
    requires Shape(s) && c in s.procs && c != s.idle
    ensures Climbs(s, c, s.init, n)
    decreases s.procs[c].birth
  {
    if c == s.init {
      n := 0;
    } else {
      ParentAboveInit(s, c);
      var m := ClimbsToInit(s, s.procs[c].parent);
      n := m + 1;
    }
  }

  /** Every linked process reaches initproc by parent links, and zombies have no children. */
  lemma AllDescendFromInit(run: seq<State>, i: nat, c: Ptr)
    requires Run(run) && i < |run| && c in run[i].procs && c != run[i].idle
    ensures exists n: nat :: Climbs(run[i], c, run[i].init, n)
    ensures run[i].procs[c].state == ZOMBIE ==> c in run[i].kids && run[i].kids[c] == []
  {
    RunInv(run, i);
    var n := ClimbsToInit(run[i], c);
  }

  lemma {:induction false} ChildOfInitAbove(s: State, c: Ptr) returns (d: Ptr)
    requires Shape(s) && c in s.procs && c != s.idle && c != s.init
    ensures d in s.kids[s.init]
    decreases s.procs[c].birth
  {
    ParentAboveInit(s, c);
    if s.procs[c].parent == s.init {
      d := c;
    } else {
      d := ChildOfInitAbove(s, s.procs[c].parent);
    }
  }

  /** The assertions init_main makes once do_wait finds no child: initproc has no sibling,
      two processes are left and the process list holds initproc alone. */
  lemma InitAlone(run: seq<State>, i: nat)
    requires Run(run) && i < |run| && run[i].init in run[i].kids && run[i].kids[run[i].init] == []
    ensures run[i].list == [run[i].init] && run[i].nr == 2
    ensures run[i].idle in run[i].kids && run[i].kids[run[i].idle] == [run[i].init]
  {
    RunInv(run, i);
    var s := run[i];
    forall c | c in s.list ensures c == s.init {
      if c != s.init {
        var d := ChildOfInitAbove(s, c);
      }
    }
    assert s.init in s.list;
    Singleton(s.list, s.init);
  }

  lemma AdoptOneKids(s: State)
    requires KidsLinked(s) && s.kids[s.cur] != []
    ensures var t := AdoptOne(s); var ks := s.kids[s.cur];
            && KidsLinked(t) && t.cur == s.cur && t.init == s.init && t.procs.Keys == s.procs.Keys
            && t.kids == s.kids[s.cur := ks[1..]][s.init := [ks[0]] + s.kids[s.init]]
            && (forall c :: c in s.procs ==>
                  t.procs[c].parent == if c == ks[0] then s.init else s.procs[c].parent)
            && (forall c :: c in ks <==> c == ks[0] || c in ks[1..])
  {
    var ks := s.kids[s.cur];
    assert ks == [ks[0]] + ks[1..];
  }

  lemma SpliceKids(m: map<Ptr, seq<Ptr>>, cur: Ptr, init: Ptr)
    requires cur in m && init in m && cur != init && m[cur] != []
    ensures var ks := m[cur];
            var u := m[cur := ks[1..]][init := [ks[0]] + m[init]];
            u[cur := []][init := Reverse(ks[1..]) + u[init]] == m[cur := []][init := Reverse(ks) + m[init]]
  {
    var ks := m[cur];
    assert Reverse(ks[1..]) + ([ks[0]] + m[init]) == Reverse(ks) + m[init];
  }

  /** The reparenting loop: initproc ends with the exiting process's children, in reverse,
      in front of its own, and exactly those change parent. */
  lemma {:induction false} AdoptAllKids(s: State)
    requires KidsLinked(s)
    ensures var t := AdoptAll(s);
            && t.kids == s.kids[s.cur := []][s.init := Reverse(s.kids[s.cur]) + s.kids[s.init]]
            && forall c :: c in s.procs ==>
                 t.procs[c].parent == if c in s.kids[s.cur] then s.init else s.procs[c].parent
    decreases |s.kids[s.cur]|
  {
    var ks := s.kids[s.cur];
    if ks == [] {
      assert Reverse(ks) + s.kids[s.init] == s.kids[s.init];
      assert s.kids == s.kids[s.cur := []][s.init := s.kids[s.init]];
    } else {
      var u := AdoptOne(s);
      AdoptOneKids(s);
      AdoptAllKids(u);
      SpliceKids(s.kids, s.cur, s.init);
    }
  }

  lemma ExitKids(s: State, code: int)
    requires Inv(s) && s.cur != s.idle && s.cur != s.init
    ensures CanExit(s)
    ensures var t := Exit(s, code);
            && t.kids == s.kids[s.cur := []][s.init := Reverse(s.kids[s.cur]) + s.kids[s.init]]
            && forall c :: c in s.procs ==>
                 t.procs[c].parent == if c in s.kids[s.cur] then s.init else s.procs[c].parent
  {
    assert InParentsList(s, s.cur) && YoungerThanParent(s, s.cur);
    DieNotifyStates(s, code);
    AdoptAllKids(NotifyParent(Die(s, code)));
  }
}
