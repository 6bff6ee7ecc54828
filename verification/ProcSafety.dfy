/** What every step of the life cycle keeps, and what follows for whole runs: deadlock
    freedom, no lost wakeup, queue membership and the shape of the family tree. */
module ProcSafety {
  import opened Lists
  import opened ProcModel
  import opened Wrappers

  // ----- the invariant: shape of the tables -----

  ghost predicate Domain(s: State) {
    WellLinked(s) && s.idle != s.init && NULL !in s.procs
  }

  ghost predicate InParentsList(s: State, c: Ptr)
    requires Domain(s) && c in s.procs
  {
    s.procs[c].parent in s.procs && c in s.kids[s.procs[c].parent]
  }

  /** Listed children are processes that point back to their parent. */
  ghost predicate Children(s: State)
    requires Domain(s)
  {
    && (forall a, c {:trigger c in s.kids[a]} :: a in s.kids && c in s.kids[a] ==>
          c in s.procs && c != s.idle && s.procs[c].parent == a)
    && (forall a :: a in s.kids ==> Distinct(s.kids[a]))
    && s.kids[s.idle] == [s.init]
  }

  ghost predicate Parents(s: State)
    requires Domain(s)
  {
    forall c {:trigger InParentsList(s, c)} :: c in s.procs && c != s.idle ==> InParentsList(s, c)
  }

  /** The child lists and the parent pointers describe the same tree. */
  ghost predicate Tree(s: State)
    requires Domain(s)
  {
    Children(s) && Parents(s)
  }

  ghost predicate YoungerThanParent(s: State, c: Ptr)
    requires Domain(s) && c in s.procs && s.procs[c].parent in s.procs
  {
    s.procs[s.procs[c].parent].birth < s.procs[c].birth
  }

  /** Parents are older than their children, so the tree has no cycle. */
  ghost predicate Ages(s: State)
    requires Domain(s) && Tree(s)
  {
    && (forall c :: c in s.procs ==> s.procs[c].birth < s.births)
    && (forall c {:trigger YoungerThanParent(s, c)} :: c in s.procs && c != s.idle ==>
          InParentsList(s, c) && YoungerThanParent(s, c))
  }

  ghost predicate Listed(s: State) {
    && Distinct(s.list)
    && (forall a :: a in s.list <==> a in s.procs && a != s.idle)
    && s.nr == |s.list| + 1
  }

  ghost predicate PidsDiffer(s: State, a: Ptr, b: Ptr)
    requires a in s.procs && b in s.procs
  {
    s.procs[a].pid != s.procs[b].pid
  }

  ghost predicate Pids(s: State)
    requires Domain(s)
  {
    && s.procs[s.idle].pid == 0
    && (forall a :: a in s.procs && a != s.idle ==> 0 < s.procs[a].pid < MAX_PID)
    && (forall a, b {:trigger PidsDiffer(s, a, b)} ::
          a in s.procs && b in s.procs && a != b ==> PidsDiffer(s, a, b))
  }

  /** The parts that only depend on who is linked where. */
  ghost predicate Shape(s: State) {
    Domain(s) && Tree(s) && Ages(s) && Listed(s) && Pids(s)
  }

  // ----- the invariant: run states -----

  ghost predicate StateOk(q: Proc) {
    && q.state != UNINIT
    && q.waitState == (if q.state == SLEEPING then WT_CHILD else 0)
    && (q.state == SLEEPING ==> q.pending.Some?)
  }

  ghost predicate States(s: State)
    requires Domain(s)
  {
    && s.procs[s.idle].state == RUNNABLE && s.procs[s.idle].pending.None?
    && s.procs[s.init].state != ZOMBIE
    && (forall a :: a in s.procs ==> StateOk(s.procs[a]))
  }

  /** Zombies have no children, except possibly the process `but` that is still exiting. */
  ghost predicate ZombiesChildless(s: State, but: Ptr)
    requires Domain(s)
  {
    forall a :: a in s.procs && a != but && s.procs[a].state == ZOMBIE ==> s.kids[a] == []
  }

  ghost predicate Ready(s: State, a: Ptr) {
    a in s.procs && a != s.idle && a != s.cur && s.procs[a].state == RUNNABLE
  }

  /** Queued exactly once iff runnable, not current and not idleproc. */
  ghost predicate Queue(s: State) {
    forall a: Ptr :: s.rq[a] == if Ready(s, a) then 1 else 0
  }

  /** A sleeper has a child it waits for, and no such child is already a zombie. */
  ghost predicate Awaits(s: State, a: Ptr)
    requires Domain(s) && Tree(s) && a in s.procs
  {
    && s.procs[a].pending.Some?
    && (exists c :: c in s.kids[a] && Matches(s, s.procs[a].pending.value, c))
    && (forall c :: c in s.kids[a] && Matches(s, s.procs[a].pending.value, c) ==>
          s.procs[c].state != ZOMBIE)
  }

  ghost predicate NoLostWakeup(s: State)
    requires Domain(s) && Tree(s)
  {
    forall a {:trigger Awaits(s, a)} :: a in s.procs && s.procs[a].state == SLEEPING ==> Awaits(s, a)
  }

  ghost predicate Live(s: State, but: Ptr)
    requires Domain(s) && Tree(s)
  {
    States(s) && ZombiesChildless(s, but) && Queue(s) && NoLostWakeup(s) && s.badWakeups == 0
  }

  /** Holds throughout do_exit; `but` is an exiting process with children left. */
  ghost predicate Mid(s: State, but: Ptr) {
    Shape(s) && Live(s, but)
  }

  /** Holds whenever schedule() is called. */
  ghost predicate Base(s: State) {
    Mid(s, NULL)
  }

  /** Holds between steps. */
  ghost predicate Inv(s: State) {
    Base(s) && s.procs[s.cur].state == RUNNABLE
  }

  // ----- framing -----

  ghost predicate SameShape(s: State, t: State) {
    && t.procs.Keys == s.procs.Keys && t.kids == s.kids && t.list == s.list && t.nr == s.nr
    && t.idle == s.idle && t.init == s.init && t.births == s.births && t.cur in t.procs
    && (forall a :: a in s.procs ==>
          && t.procs[a].parent == s.procs[a].parent && t.procs[a].pid == s.procs[a].pid
          && t.procs[a].birth == s.procs[a].birth)
  }

  lemma ShapeFrame(s: State, t: State)
    requires Shape(s) && SameShape(s, t)
    ensures Shape(t)
  {
    assert Domain(t);
    assert Tree(t) by {
      forall c | c in t.procs && c != t.idle ensures InParentsList(t, c) {
        assert InParentsList(s, c);
      }
    }
    assert Ages(t) by {
      forall c | c in t.procs && c != t.idle ensures InParentsList(t, c) && YoungerThanParent(t, c) {
        assert InParentsList(s, c) && YoungerThanParent(s, c);
      }
    }
    assert Pids(t) by {
      forall a, b | a in t.procs && b in t.procs && a != b ensures PidsDiffer(t, a, b) {
        assert PidsDiffer(s, a, b);
      }
    }
  }

  lemma AwaitsFrame(s: State, t: State, a: Ptr)
    requires Domain(s) && Tree(s) && Domain(t) && Tree(t)
    requires a in s.procs && Awaits(s, a) && a in t.procs
    requires t.procs[a].pending == s.procs[a].pending && t.kids[a] == s.kids[a]
    requires forall c :: c in s.kids[a] ==>
               t.procs[c].pid == s.procs[c].pid && (t.procs[c].state == ZOMBIE ==> s.procs[c].state == ZOMBIE)
    ensures Awaits(t, a)
  {
    var c :| c in s.kids[a] && Matches(s, s.procs[a].pending.value, c);
    assert Matches(t, t.procs[a].pending.value, c);
  }

  /** Nobody falls asleep, dies or is relinked between s and t. */
  ghost predicate NoNewSleepers(s: State, t: State) {
    && SameShape(s, t)
    && (forall a :: a in s.procs ==>
          && (t.procs[a].state == SLEEPING ==>
                s.procs[a].state == SLEEPING && t.procs[a].pending == s.procs[a].pending)
          && (t.procs[a].state == ZOMBIE ==> s.procs[a].state == ZOMBIE))
  }

  lemma SleepersFrame(s: State, t: State, but: Ptr)
    requires Shape(s) && NoNewSleepers(s, t)
    requires NoLostWakeup(s) && ZombiesChildless(s, but)
    ensures Shape(t) && NoLostWakeup(t) && ZombiesChildless(t, but)
  {
    ShapeFrame(s, t);
    forall b | b in t.procs && t.procs[b].state == SLEEPING ensures Awaits(t, b) {
      assert Awaits(s, b);
      AwaitsFrame(s, t, b);
    }
  }

  // ----- deadlock freedom -----

  /** Following sleepers down to the children they wait for ends at a runnable process. */
  lemma {:induction false} RunnableBelow(s: State, a: Ptr) returns (r: Ptr)
    requires Base(s) && a in s.procs && a != s.idle && s.procs[a].state != ZOMBIE
    ensures r in s.procs && r != s.idle && s.procs[r].state == RUNNABLE
    decreases s.births - s.procs[a].birth
  {
    if s.procs[a].state == RUNNABLE {
      r := a;
    } else {
      assert StateOk(s.procs[a]);
      assert Awaits(s, a);
      var c :| c in s.kids[a] && Matches(s, s.procs[a].pending.value, c);
      assert YoungerThanParent(s, c);
      r := RunnableBelow(s, c);
    }
  }

  /** When schedule() is entered, the queue it picks from is never empty: it never falls
      back to idleproc. */
  lemma ScheduleFindsWork(s: State)
    requires Base(s)
    ensures Offer(s).rq != multiset{}
    ensures forall next :: CanPick(Offer(s), next) ==> next != s.idle
  {
    var r := RunnableBelow(s, s.init);
    if r == s.cur {
      assert r in Offer(s).rq;
    } else {
      assert Ready(s, r);
      assert r in Offer(s).rq;
    }
    forall next | CanPick(Offer(s), next) ensures next != s.idle {
      assert next in Offer(s).rq;
    }
  }

  // ----- steps keep the invariant -----

  lemma BootInv(idle: Ptr, init: Ptr)
    requires idle != NULL && init != NULL && idle != init
    ensures Inv(Boot(idle, init))
  {
    var s := Boot(idle, init);
    assert InParentsList(s, init) && YoungerThanParent(s, init);
    assert Shape(s);
    assert Ready(s, init) && s.rq[init] == 1;
  }

  lemma WakeupStates(s: State, a: Ptr)
    requires Domain(s) && States(s) && Queue(s)
    requires a in s.procs && s.procs[a].state == SLEEPING && a != s.cur
    ensures Domain(Wakeup(s, a)) && States(Wakeup(s, a)) && Queue(Wakeup(s, a))
    ensures NoNewSleepers(s, Wakeup(s, a))
  {
    assert StateOk(s.procs[a]);
    assert !Ready(s, a);
  }

  lemma WakeupMid(s: State, a: Ptr, but: Ptr)
    requires Mid(s, but) && a in s.procs && s.procs[a].state == SLEEPING && a != s.cur
    ensures Mid(Wakeup(s, a), but)
  {
    WakeupStates(s, a);
    SleepersFrame(s, Wakeup(s, a), but);
  }

  lemma SwitchQueue(s: State, next: Ptr, t: State)
    requires Domain(s) && Queue(s) && Scheduled(s, next, t) && next in Offer(s).rq
    ensures Queue(t)
  {
    assert !Ready(s, s.cur) && !Ready(s, s.idle);
    forall a: Ptr ensures t.rq[a] == if Ready(t, a) then 1 else 0 {
      assert Offer(s).rq[a] == s.rq[a] + if a == s.cur && s.procs[a].state == RUNNABLE && a != s.idle then 1 else 0;
      assert t.rq[a] == if a == next then Offer(s).rq[a] - 1 else Offer(s).rq[a];
    }
  }

  lemma SwitchStates(s: State, next: Ptr, t: State)
    requires Domain(s) && States(s) && Queue(s) && Scheduled(s, next, t) && next in Offer(s).rq
    ensures Domain(t) && States(t) && Queue(t) && NoNewSleepers(s, t)
    ensures t.cur != t.idle && t.procs[t.cur].state == RUNNABLE
  {
    assert StateOk(s.procs[s.cur]);
    assert next == s.cur || Ready(s, next);
    SwitchQueue(s, next, t);
  }

  lemma ScheduledInv(s: State, next: Ptr, t: State)
    requires Base(s) && Scheduled(s, next, t)
    ensures Inv(t) && t.cur != t.idle
  {
    ScheduleFindsWork(s);
    SwitchStates(s, next, t);
    SleepersFrame(s, t, NULL);
  }

  // ----- fork -----

  ghost predicate CanFork(s: State, a: Ptr, pid: int)
    requires Domain(s)
  {
    && a != NULL && a !in s.procs && PidFree(s, pid)
    && s.cur != s.idle && s.procs[s.cur].state == RUNNABLE
  }

  lemma ForkChildren(s: State, a: Ptr, pid: int)
    requires Domain(s) && Tree(s) && CanFork(s, a, pid)
    ensures Domain(Fork(s, a, pid)) && Children(Fork(s, a, pid))
  {
    var t := Fork(s, a, pid);
    assert t.kids[s.cur] == [a] + s.kids[s.cur] && t.kids[a] == [];
    forall b, c | b in t.kids && c in t.kids[b]
      ensures c in t.procs && c != t.idle && t.procs[c].parent == b
    {
      assert (c == a && b == s.cur) || c in s.kids[b];
    }
    DistinctCons(a, s.kids[s.cur]);
  }

  lemma ForkTree(s: State, a: Ptr, pid: int)
    requires Domain(s) && Tree(s) && CanFork(s, a, pid)
    ensures Domain(Fork(s, a, pid)) && Tree(Fork(s, a, pid))
  {
    hide Distinct;
    ForkChildren(s, a, pid);
    var t := Fork(s, a, pid);
    forall c | c in t.procs && c != t.idle ensures InParentsList(t, c) {
      if c != a {
        assert InParentsList(s, c);
      }
    }
  }

  lemma ForkShape(s: State, a: Ptr, pid: int)
    requires Shape(s) && CanFork(s, a, pid)
    ensures Shape(Fork(s, a, pid))
  {
    var t := Fork(s, a, pid);
    ForkTree(s, a, pid);
    assert Ages(t) by {
      forall c | c in t.procs && c != t.idle ensures InParentsList(t, c) && YoungerThanParent(t, c) {
        if c != a {
          assert InParentsList(s, c) && YoungerThanParent(s, c);
        }
      }
    }
    assert Listed(t) by {
      DistinctCons(a, s.list);
    }
    assert Pids(t) by {
      forall b, c | b in t.procs && c in t.procs && b != c ensures PidsDiffer(t, b, c) {
        assert b in s.procs && c in s.procs ==> PidsDiffer(s, b, c);
      }
    }
  }

  lemma ForkQueue(s: State, a: Ptr, pid: int)
    requires Domain(s) && Queue(s) && CanFork(s, a, pid)
    ensures Queue(Fork(s, a, pid))
  {
    var t := Fork(s, a, pid);
    forall b: Ptr ensures t.rq[b] == if Ready(t, b) then 1 else 0 {
      assert s.rq[b] == if Ready(s, b) then 1 else 0;
    }
  }

  lemma ForkInv(s: State, a: Ptr, pid: int)
    requires Inv(s) && CanFork(s, a, pid)
    ensures Inv(Fork(s, a, pid))
  {
    hide Parents, Ages, Listed, Pids, Awaits, Distinct;
    var t := Fork(s, a, pid);
    ForkShape(s, a, pid);
    ForkQueue(s, a, pid);
    assert States(t);
    assert ZombiesChildless(t, NULL);
    forall b | b in t.procs && t.procs[b].state == SLEEPING ensures Awaits(t, b) {
      assert Awaits(s, b);
      AwaitsFrame(s, t, b);
    }
  }

  // ----- exit -----

  lemma DieNotifyStates(s: State, code: int)
    requires Domain(s) && States(s) && Queue(s) && s.procs[s.cur].state == RUNNABLE
    requires s.cur != s.idle && s.cur != s.init && s.procs[s.cur].parent in s.procs
    requires s.procs[s.cur].parent != s.cur
    ensures var t := NotifyParent(Die(s, code));
            && SameShape(s, t) && t.cur == s.cur && States(t) && Queue(t) && t.badWakeups == s.badWakeups
            && t.procs[t.cur].state == ZOMBIE
            && forall b :: b in s.procs && b != s.cur ==>
                 && t.procs[b].pending == s.procs[b].pending
                 && (t.procs[b].state == SLEEPING ==> s.procs[b].state == SLEEPING && b != s.procs[s.cur].parent)
                 && (t.procs[b].state == ZOMBIE ==> s.procs[b].state == ZOMBIE)
  {
    var t := NotifyParent(Die(s, code));
    assert StateOk(s.procs[s.procs[s.cur].parent]);
    forall b: Ptr ensures t.rq[b] == if Ready(t, b) then 1 else 0 {
      assert s.rq[b] == if Ready(s, b) then 1 else 0;
    }
  }

  lemma DieNotifyMid(s: State, code: int)
    requires Inv(s) && s.cur != s.idle && s.cur != s.init
    ensures CanExit(s) && Mid(NotifyParent(Die(s, code)), s.cur)
  {
    assert InParentsList(s, s.cur) && YoungerThanParent(s, s.cur);
    DieNotifyStates(s, code);
    var t := NotifyParent(Die(s, code));
    ShapeFrame(s, t);
    forall b | b in t.procs && t.procs[b].state == SLEEPING ensures Awaits(t, b) {
      assert Awaits(s, b);
      AwaitsFrame(s, t, b);
    }
  }

  lemma MoveDomain(s: State)
    requires Domain(s) && Tree(s) && s.cur != s.init && s.cur != s.idle && KidsLinked(s) && s.kids[s.cur] != []
    ensures Domain(MoveOne(s)) && Children(MoveOne(s))
  {
    var c0 := s.kids[s.cur][0];
    DistinctTail(s.kids[s.cur]);
    assert s.kids[s.cur] == [c0] + s.kids[s.cur][1..];
    assert c0 in s.kids[s.cur] && c0 !in s.kids[s.init];
    DistinctCons(c0, s.kids[s.init]);
    var t := MoveOne(s);
    forall b, c | b in t.kids && c in t.kids[b]
      ensures c in t.procs && c != t.idle && t.procs[c].parent == b
    {
      assert (c == c0 && b == s.init) || (c != c0 && c in s.kids[b]);
    }
  }

  lemma MoveParents(s: State)
    requires Domain(s) && Tree(s) && s.cur != s.init && s.cur != s.idle && KidsLinked(s) && s.kids[s.cur] != []
    requires Domain(MoveOne(s))
    ensures Parents(MoveOne(s))
  {
    hide Distinct;
    var c0 := s.kids[s.cur][0];
    assert s.kids[s.cur] == [c0] + s.kids[s.cur][1..];
    var t := MoveOne(s);
    forall c | c in t.procs && c != t.idle ensures InParentsList(t, c) {
      assert InParentsList(s, c);
    }
  }

  lemma MoveTree(s: State)
    requires Domain(s) && Tree(s) && s.cur != s.init && s.cur != s.idle && KidsLinked(s) && s.kids[s.cur] != []
    ensures Domain(MoveOne(s)) && Tree(MoveOne(s))
  {
    MoveDomain(s);
    MoveParents(s);
  }

  /** Every linked process other than idleproc descends from initproc. */
  lemma {:induction false} InitOldestFrom(s: State, c: Ptr)
    requires Shape(s) && c in s.procs && c != s.idle
    ensures c == s.init || s.procs[s.init].birth < s.procs[c].birth
    decreases s.procs[c].birth
  {
    assert InParentsList(s, c) && YoungerThanParent(s, c);
    if s.procs[c].parent != s.idle {
      InitOldestFrom(s, s.procs[c].parent);
    }
  }

  lemma InitIsOldest(s: State)
    requires Shape(s)
    ensures forall c :: c in s.procs && c != s.idle && c != s.init ==> s.procs[s.init].birth < s.procs[c].birth
  {
    forall c | c in s.procs && c != s.idle && c != s.init ensures s.procs[s.init].birth < s.procs[c].birth {
      InitOldestFrom(s, c);
    }
  }

  lemma MoveAges(s: State)
    requires Domain(s) && Tree(s) && Ages(s) && KidsLinked(s) && s.kids[s.cur] != []
    requires Domain(MoveOne(s)) && Tree(MoveOne(s))
    requires forall c :: c in s.procs && c != s.idle && c != s.init ==> s.procs[s.init].birth < s.procs[c].birth
    requires s.cur != s.idle
    ensures Ages(MoveOne(s))
  {
    var t := MoveOne(s);
    assert t.procs[s.kids[s.cur][0]].parent == s.init;
    assert s.kids[s.cur][0] != s.init by {
      assert InParentsList(s, s.init) && s.init in s.kids[s.idle];
    }
    forall c | c in t.procs && c != t.idle ensures InParentsList(t, c) && YoungerThanParent(t, c) {
      assert InParentsList(s, c) && YoungerThanParent(s, c);
    }
  }

  lemma MoveShape(s: State)
    requires Shape(s) && s.cur != s.init && s.cur != s.idle && KidsLinked(s) && s.kids[s.cur] != []
    ensures Shape(MoveOne(s))
  {
    var t := MoveOne(s);
    MoveTree(s);
    InitIsOldest(s);
    MoveAges(s);
    assert Pids(t) by {
      forall b, c | b in t.procs && c in t.procs && b != c ensures PidsDiffer(t, b, c) {
        assert PidsDiffer(s, b, c);
      }
    }
  }

  /** A waiting initproc does not miss a zombie handed over to it. */
  lemma MoveAwaits(s: State, b: Ptr)
    requires Shape(s) && KidsLinked(s) && s.kids[s.cur] != [] && Shape(MoveOne(s))
    requires b in s.procs && b != s.cur && Awaits(s, b)
    requires b == s.init ==> s.procs[s.kids[s.cur][0]].state != ZOMBIE
    ensures Awaits(MoveOne(s), b)
  {
    var t := MoveOne(s);
    var c :| c in s.kids[b] && Matches(s, s.procs[b].pending.value, c);
    assert c in t.kids[b] && Matches(t, t.procs[b].pending.value, c);
    forall d | d in t.kids[b] && Matches(t, t.procs[b].pending.value, d)
      ensures t.procs[d].state != ZOMBIE
    {
      assert d in s.kids[b] || (b == s.init && d == s.kids[s.cur][0]);
    }
  }

  /** Mid without the clause on initproc's own wait. */
  ghost predicate Handover(s: State) {
    && Shape(s) && States(s) && ZombiesChildless(s, s.cur) && Queue(s) && s.badWakeups == 0
    && (forall a {:trigger Awaits(s, a)} :: a in s.procs && a != s.init && s.procs[a].state == SLEEPING ==> Awaits(s, a))
  }

  lemma MoveLive(s: State)
    requires Mid(s, s.cur) && s.cur != s.init && s.cur != s.idle
    requires s.procs[s.cur].state == ZOMBIE && KidsLinked(s) && s.kids[s.cur] != [] && Shape(MoveOne(s))
    ensures var t := MoveOne(s);
            Domain(t) && States(t) && ZombiesChildless(t, s.cur) && Queue(t) && t.badWakeups == 0
  {
    hide Tree, Ages, Listed, Pids, Awaits;
    QueueFrame(s, MoveOne(s));
  }

  lemma MoveHandover(s: State)
    requires Mid(s, s.cur) && s.cur != s.init && s.cur != s.idle
    requires s.procs[s.cur].state == ZOMBIE && KidsLinked(s) && s.kids[s.cur] != []
    ensures Handover(MoveOne(s))
    ensures s.procs[s.kids[s.cur][0]].state != ZOMBIE ==> Mid(MoveOne(s), s.cur)
  {
    hide Awaits, Tree, Ages, Listed, Pids, States, ZombiesChildless, Queue;
    var t := MoveOne(s);
    MoveShape(s);
    MoveLive(s);
    forall b | b in t.procs && t.procs[b].state == SLEEPING &&
               (b != t.init || s.procs[s.kids[s.cur][0]].state != ZOMBIE)
      ensures Awaits(t, b)
    {
      assert Awaits(s, b);
      MoveAwaits(s, b);
    }
  }

  lemma WakeInitMid(t: State)
    requires Handover(t) && t.cur != t.init && t.cur != t.idle
    ensures t.procs[t.init].waitState == WT_CHILD ==> Mid(Wakeup(t, t.init), t.cur)
    ensures t.procs[t.init].waitState != WT_CHILD ==> Mid(t, t.cur)
  {
    assert StateOk(t.procs[t.init]);
    if t.procs[t.init].waitState == WT_CHILD {
      var u := Wakeup(t, t.init);
      WakeupStates(t, t.init);
      ShapeFrame(t, u);
      forall b | b in u.procs && u.procs[b].state == SLEEPING ensures Awaits(u, b) {
        assert Awaits(t, b);
        AwaitsFrame(t, u, b);
      }
    }
  }

  lemma AdoptOneMid(s: State)
    requires Mid(s, s.cur) && s.cur != s.init && s.cur != s.idle
    requires s.procs[s.cur].state == ZOMBIE && KidsLinked(s) && s.kids[s.cur] != []
    ensures var t := AdoptOne(s);
            Mid(t, t.cur) && t.procs[t.cur].state == ZOMBIE && KidsLinked(t)
  {
    MoveHandover(s);
    WakeInitMid(MoveOne(s));
  }

  lemma {:induction false} AdoptAllMid(s: State)
    requires Mid(s, s.cur) && s.cur != s.init && s.cur != s.idle
    requires s.procs[s.cur].state == ZOMBIE && KidsLinked(s)
    ensures Mid(AdoptAll(s), s.cur)
    decreases |s.kids[s.cur]|
  {
    if s.kids[s.cur] != [] {
      AdoptOneMid(s);
      assert |AdoptOne(s).kids[s.cur]| < |s.kids[s.cur]|;
      AdoptAllMid(AdoptOne(s));
    }
  }

  /** do_exit up to schedule() keeps the invariant. */
  lemma ExitBase(s: State, code: int)
    requires Inv(s) && s.cur != s.idle && s.cur != s.init
    ensures CanExit(s) && Base(Exit(s, code))
  {
    DieNotifyMid(s, code);
    var t := NotifyParent(Die(s, code));
    assert t.procs[t.cur].state == ZOMBIE by {
      assert InParentsList(s, s.cur) && YoungerThanParent(s, s.cur);
      DieNotifyStates(s, code);
    }
    AdoptAllMid(t);
  }

  // ----- wait -----

  /** Queues agree when the same processes are ready. */
  lemma QueueFrame(s: State, t: State)
    requires Queue(s) && t.rq == s.rq && forall b :: Ready(t, b) <==> Ready(s, b)
    ensures Queue(t)
  {
  }

  lemma SleepAwaits(s: State, w: int)
    requires Domain(s) && Tree(s) && KidsKnown(s)
    requires FirstZombie(s, s.kids[s.cur], w).None? && HasKid(s, w)
    ensures Domain(Sleep(s, w)) && Tree(Sleep(s, w)) && Awaits(Sleep(s, w), s.cur)
  {
    var t := Sleep(s, w);
    assert forall c {:trigger InParentsList(t, c)} :: c in s.procs && c != s.idle ==> InParentsList(s, c);
    assert Tree(t);
    var c :| c in s.kids[s.cur] && Matches(s, w, c);
    assert Matches(t, w, c);
    forall d | d in t.kids[s.cur] && Matches(t, w, d) ensures t.procs[d].state != ZOMBIE {
      assert Matches(s, w, d);
    }
  }

  lemma SleepBase(s: State, w: int)
    requires Inv(s) && s.cur != s.idle && KidsKnown(s)
    requires FirstZombie(s, s.kids[s.cur], w).None? && HasKid(s, w)
    ensures Base(Sleep(s, w))
  {
    hide Tree, Awaits, FirstZombie, HasKid, Ages, Pids, Listed;
    var t := Sleep(s, w);
    ShapeFrame(s, t);
    SleepAwaits(s, w);
    QueueFrame(s, t);
    forall b | b in t.procs && t.procs[b].state == SLEEPING ensures Awaits(t, b) {
      if b != s.cur {
        assert Awaits(s, b);
        AwaitsFrame(s, t, b);
      }
    }
  }

  lemma ReapDomain(s: State, c: Ptr)
    requires Domain(s) && Tree(s) && c in s.kids[s.cur] && c != s.cur && s.init != c && s.cur != s.idle
    ensures Domain(Reap(s, c)) && Children(Reap(s, c))
  {
    hide Without;
    WithoutDistinct(s.kids[s.cur], c);
  }

  lemma ReapParents(s: State, c: Ptr)
    requires Domain(s) && Tree(s) && c in s.kids[s.cur] && c != s.cur && s.init != c && s.cur != s.idle
    requires s.kids[c] == []
    requires Domain(Reap(s, c))
    ensures Parents(Reap(s, c))
  {
    hide Without, Distinct;
    WithoutDistinct(s.kids[s.cur], c);
    var t := Reap(s, c);
    forall d | d in t.procs && d != t.idle ensures InParentsList(t, d) {
      assert InParentsList(s, d);
    }
  }

  lemma ReapTree(s: State, c: Ptr)
    requires Domain(s) && Tree(s) && c in s.kids[s.cur] && c != s.cur && s.kids[c] == []
    requires s.procs[c].state == ZOMBIE && s.init != c && s.procs[s.cur].state != ZOMBIE
    requires s.cur != s.idle
    ensures Domain(Reap(s, c)) && Tree(Reap(s, c))
  {
    ReapDomain(s, c);
    ReapParents(s, c);
  }

  lemma ReapShape(s: State, c: Ptr)
    requires Shape(s) && c in s.kids[s.cur] && c != s.cur && s.kids[c] == []
    requires s.procs[c].state == ZOMBIE && s.init != c && s.procs[s.cur].state != ZOMBIE
    requires s.cur != s.idle
    ensures Shape(Reap(s, c))
  {
    var t := Reap(s, c);
    ReapTree(s, c);
    WithoutDistinct(s.list, c);
    assert Listed(t);
    assert Ages(t) by {
      forall d | d in t.procs && d != t.idle ensures InParentsList(t, d) && YoungerThanParent(t, d) {
        assert InParentsList(s, d) && YoungerThanParent(s, d);
      }
    }
    assert Pids(t) by {
      forall b, d | b in t.procs && d in t.procs && b != d ensures PidsDiffer(t, b, d) {
        assert PidsDiffer(s, b, d);
      }
    }
  }

  lemma ReapInv(s: State, c: Ptr)
    requires Inv(s) && s.cur != s.idle && c in s.kids[s.cur] && s.procs[c].state == ZOMBIE
    ensures Inv(Reap(s, c))
    ensures c !in Reap(s, c).procs && c !in Reap(s, c).rq && c != Reap(s, c).cur
  {
    var t := Reap(s, c);
    ReapShape(s, c);
    QueueFrame(s, t);
    assert States(t) && ZombiesChildless(t, NULL);
    forall b | b in t.procs && t.procs[b].state == SLEEPING ensures Awaits(t, b) {
      assert Awaits(s, b);
      AwaitsFrame(s, t, b);
    }
    assert t.rq[c] == 0;
  }

  lemma UnblockInv(s: State)
    requires Inv(s)
    ensures Inv(Unblock(s))
  {
    var t := Unblock(s);
    assert States(t);
    assert Queue(t) by {
      forall b: Ptr ensures t.rq[b] == if Ready(t, b) then 1 else 0 {
        assert s.rq[b] == if Ready(s, b) then 1 else 0;
      }
    }
    SleepersFrame(s, t, NULL);
  }

  lemma WaitInv(s: State, w: int, next: Ptr, t: State)
    requires Inv(s) && s.cur != s.idle && KidsKnown(s) && WaitRound(s, w, next, t)
    ensures Inv(t) && t.cur != t.idle
  {
    match FirstZombie(s, s.kids[s.cur], w)
    case Some(c) => ReapInv(s, c);
    case None =>
      if HasKid(s, w) {
        SleepBase(s, w);
        ScheduledInv(Sleep(s, w), next, t);
      }
  }

  // ----- kill, yield, tick -----

  lemma SetReschedInv(s: State)
    requires Inv(s)
    ensures Inv(SetResched(s))
  {
    var t := SetResched(s);
    assert States(t);
    assert Queue(t) by {
      forall b: Ptr ensures t.rq[b] == if Ready(t, b) then 1 else 0 {
        assert s.rq[b] == if Ready(s, b) then 1 else 0;
      }
    }
    SleepersFrame(s, t, NULL);
  }

  lemma KillInv(s: State, a: Ptr)
    requires Inv(s) && a in s.procs && a != s.idle
    ensures Inv(Kill(s, a))
  {
    hide Tree, Ages, Listed, Pids, Awaits;
    if !s.procs[a].exiting {
      var t := s.(procs := s.procs[a := s.procs[a].(exiting := true)]);
      assert StateOk(t.procs[a]);
      QueueFrame(s, t);
      SleepersFrame(s, t, NULL);
      if Interruptible(t.procs[a].waitState) {
        WakeupMid(t, a, NULL);
      }
    }
  }

  // ----- every step, every run -----

  lemma ExitStepInv(s: State, code: int, next: Ptr, t: State)
    requires Inv(s) && s.cur != s.idle && ExitStep(s, code, next, t)
    ensures Inv(t) && t.cur != t.idle && t.idle == s.idle && t.init == s.init
  {
    ExitBase(s, code);
    ScheduledInv(Exit(s, code), next, t);
  }

  lemma ResumeInv(s: State, next: Ptr, t: State)
    requires Inv(s) && Step(s, EvResume(next), t)
    ensures Inv(t) && t.cur != t.idle && t.idle == s.idle && t.init == s.init
  {
    if s.procs[s.cur].exiting {
      ExitStepInv(s, -E_KILLED, next, t);
    } else {
      UnblockInv(s);
      WaitInv(Unblock(s), s.procs[s.cur].pending.value, next, t);
    }
  }

  lemma KillStepInv(s: State, target: int, t: State)
    requires Inv(s) && KillStep(s, target, t)
    ensures Inv(t) && t.cur == s.cur && t.idle == s.idle && t.init == s.init
  {
    if exists a :: a in s.procs && a != s.idle && s.procs[a].pid == target {
      hide Inv, Kill;
      var a :| a in s.procs && a != s.idle && s.procs[a].pid == target && t == Kill(s, a);
      KillInv(s, a);
    }
  }

  /** One step keeps the invariant, and once a process runs idleproc never runs again. */
  lemma StepInv(s: State, e: Event, t: State)
    requires Inv(s) && Step(s, e, t)
    ensures Inv(t)
    ensures s.cur != s.idle ==> t.cur != t.idle
    ensures t.idle == s.idle && t.init == s.init
  {
    match e
    case EvFork(a, pid) => ForkInv(s, a, pid);
    case EvForkFails =>
    case EvExit(code, next) => ExitStepInv(s, code, next, t);
    case EvWait(w, next) => WaitInv(s, w, next, t);
    case EvResume(next) => ResumeInv(s, next, t);
    case EvKill(target) => KillStepInv(s, target, t);
    case EvYield => SetReschedInv(s);
    case EvTick(expired) => if expired { SetReschedInv(s); }
    case EvResched(next) => ScheduledInv(s, next, t);
  }

  /** The invariant holds in every reachable state. */
  lemma {:induction false} RunInv(run: seq<State>, i: nat)
    requires Run(run) && i < |run|
    ensures Inv(run[i])
  {
    if i == 0 {
      var idle: Ptr, init: Ptr :| idle != NULL && init != NULL && idle != init && run[0] == Boot(idle, init);
      BootInv(idle, init);
    } else {
      RunInv(run, i - 1);
      assert CanStep(run[i - 1], run[i]);
      var e :| Step(run[i - 1], e, run[i]);
      StepInv(run[i - 1], e, run[i]);
    }
  }
}
