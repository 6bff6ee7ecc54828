/** What the steps of the life cycle do to every single process, field by field, and what
    follows for exit codes over whole runs. */
module ProcEffects {
  import opened Lists
  import opened ProcModel
  import opened ProcSafety
  import opened Wrappers

  // ----- schedule -----

  /** schedule() clears need_resched of current, adds current to the queue if it is runnable, and
      takes one process out: idleproc only when there is none. */
  lemma ScheduledEffect(s: State, next: Ptr, t: State)
    requires s.cur in s.procs && Scheduled(s, next, t)
    ensures t.procs == s.procs[s.cur := s.procs[s.cur].(needResched := false)] && t.kids == s.kids
    ensures var own := if s.procs[s.cur].state == RUNNABLE && s.cur != s.idle then multiset{s.cur} else multiset{};
            if s.rq + own == multiset{} then t.cur == s.idle && t.rq == multiset{}
            else t.rq + multiset{t.cur} == s.rq + own
  {
  }

  // ----- fork -----

  /** The child is runnable, queued once and the youngest of its parent; nobody else changes. */
  lemma ForkEffect(s: State, a: Ptr, pid: int)
    requires WellLinked(s) && a !in s.procs
    ensures var t := Fork(s, a, pid);
            && t.procs == s.procs[a := Proc(RUNNABLE, pid, s.cur, 0, false, false, 0, None, s.births)]
            && t.kids == s.kids[s.cur := [a] + s.kids[s.cur]][a := []]
            && t.list == [a] + s.list && t.nr == s.nr + 1 && t.births == s.births + 1
            && t.rq == s.rq + multiset{a} && t.cur == s.cur
  {
  }

  // ----- kill -----

  /** A process not marked before is marked; a sleeper wakes and is queued once, any other
      process keeps its state and its place. */
  lemma KillEffect(s: State, a: Ptr)
    requires Inv(s) && a in s.procs && a != s.idle && !s.procs[a].exiting
    ensures var q := s.procs[a];
            Kill(s, a).procs == s.procs[a :=
              if q.state == SLEEPING then q.(exiting := true, state := RUNNABLE, waitState := 0)
              else q.(exiting := true)]
    ensures s.procs[a].state == SLEEPING ==> s.rq[a] == 0 && Kill(s, a).rq == s.rq + multiset{a}
    ensures s.procs[a].state != SLEEPING ==> Kill(s, a).rq == s.rq
  {
    hide Shape, Awaits;
    assert StateOk(s.procs[a]);
    assert s.rq[a] == if Ready(s, a) then 1 else 0;
  }

  // ----- exit -----

  /** The process an exit of current wakes: a sleeping parent, and a sleeping initproc that is
      handed a zombie. */
  ghost predicate WokenByExit(s: State, b: Ptr)
    requires s.cur in s.procs && s.cur in s.kids
  {
    && b in s.procs && s.procs[b].state == SLEEPING
    && (b == s.procs[s.cur].parent || (b == s.init && HandsZombie(s)))
  }

  ghost predicate HandsZombie(s: State)
    requires s.cur in s.kids
  {
    exists c :: c in s.kids[s.cur] && c in s.procs && s.procs[c].state == ZOMBIE
  }

  /** A process after being woken or not, under a given parent. */
  function Adopted(q: Proc, parent: Ptr, woken: bool): (r: Proc)
    ensures r.parent == parent && r.state == if woken then RUNNABLE else q.state
  {
    if woken then q.(parent := parent, state := RUNNABLE, waitState := 0) else q.(parent := parent)
  }

  lemma AdoptedTwice(q: Proc, p1: Ptr, w1: bool, p2: Ptr, w2: bool)
    ensures Adopted(Adopted(q, p1, w1), p2, w2) == Adopted(q, p2, w1 || w2) && Adopted(q, q.parent, false) == q
  {
  }

  /** initproc is asleep exactly when it waits for a child, and is nobody's child but idleproc's. */
  ghost predicate Adopting(s: State) {
    && KidsLinked(s) && (s.procs[s.init].waitState == WT_CHILD <==> s.procs[s.init].state == SLEEPING)
    && s.init !in s.kids[s.cur] && Distinct(s.kids[s.cur])
  }

  /** What one round of the reparenting loop does to each process. */
  ghost predicate OneMoved(s: State, t: State)
    requires KidsLinked(s) && s.kids[s.cur] != []
  {
    var c := s.kids[s.cur][0];
    && t.procs.Keys == s.procs.Keys && t.cur == s.cur && t.init == s.init
    && t.cur in t.kids && t.kids[t.cur] == s.kids[s.cur][1..]
    && forall b :: b in s.procs ==>
         t.procs[b] == Adopted(s.procs[b], if b == c then s.init else s.procs[b].parent,
                               b == s.init && s.procs[b].state == SLEEPING && s.procs[c].state == ZOMBIE)
  }

  /** What the whole loop does to each process. */
  ghost predicate AllMoved(s: State, t: State)
    requires KidsLinked(s)
  {
    && t.procs.Keys == s.procs.Keys
    && forall b :: b in s.procs ==>
         t.procs[b] == Adopted(s.procs[b], if b in s.kids[s.cur] then s.init else s.procs[b].parent,
                               b == s.init && s.procs[b].state == SLEEPING && HandsZombie(s))
  }

  lemma AdoptOneEffect(s: State)
    requires Adopting(s) && s.kids[s.cur] != []
    ensures Adopting(AdoptOne(s)) && OneMoved(s, AdoptOne(s))
  {
    DistinctTail(s.kids[s.cur]);
  }

  lemma HandsZombieSplit(s: State, t: State)
    requires Adopting(s) && s.kids[s.cur] != [] && OneMoved(s, t)
    ensures HandsZombie(s) <==> s.procs[s.kids[s.cur][0]].state == ZOMBIE || HandsZombie(t)
    ensures forall b :: b in s.kids[s.cur] <==> b == s.kids[s.cur][0] || b in t.kids[t.cur]
  {
    assert s.kids[s.cur] == [s.kids[s.cur][0]] + s.kids[s.cur][1..];
  }

  lemma MovedThenAll(s: State, t: State, r: State)
    requires Adopting(s) && s.kids[s.cur] != [] && OneMoved(s, t) && KidsLinked(t) && AllMoved(t, r)
    ensures AllMoved(s, r)
  {
    hide HandsZombie, Distinct, Adopted;
    HandsZombieSplit(s, t);
    forall b | b in s.procs
      ensures r.procs[b] == Adopted(s.procs[b], if b in s.kids[s.cur] then s.init else s.procs[b].parent,
                                    b == s.init && s.procs[b].state == SLEEPING && HandsZombie(s))
    {
      var c, asleep := s.kids[s.cur][0], b == s.init && s.procs[b].state == SLEEPING;
      AdoptedTwice(s.procs[b], if b == c then s.init else s.procs[b].parent, asleep && s.procs[c].state == ZOMBIE,
                   if b in s.kids[s.cur] then s.init else s.procs[b].parent,
                   b == s.init && t.procs[b].state == SLEEPING && HandsZombie(t));
    }
  }

  /** The reparenting loop, process by process. */
  lemma {:induction false} AdoptAllEffect(s: State)
    requires Adopting(s)
    ensures AllMoved(s, AdoptAll(s))
    decreases |s.kids[s.cur]|
  {
    if s.kids[s.cur] != [] {
      hide Adopted, AdoptOne;
      AdoptOneEffect(s);
      assert |AdoptOne(s).kids[s.cur]| < |s.kids[s.cur]|;
      AdoptAllEffect(AdoptOne(s));
      MovedThenAll(s, AdoptOne(s), AdoptAll(s));
    }
  }

  lemma CurrentApart(s: State)
    requires Inv(s) && s.cur != s.idle
    ensures KidsKnown(s) && s.procs[s.cur].parent in s.procs && s.procs[s.cur].parent != s.cur
    ensures s.cur !in s.kids[s.cur] && s.init !in s.kids[s.cur] && Distinct(s.kids[s.cur])
    ensures s.procs[s.cur].parent !in s.kids[s.cur]
    ensures forall b :: b in s.procs ==> (s.procs[b].waitState == WT_CHILD <==> s.procs[b].state == SLEEPING)
  {
    assert InParentsList(s, s.cur) && YoungerThanParent(s, s.cur);
    var p := s.procs[s.cur].parent;
    assert s.init in s.kids[s.idle];
    assert p != s.idle ==> InParentsList(s, p) && YoungerThanParent(s, p);
    forall b | b in s.procs ensures s.procs[b].waitState == WT_CHILD <==> s.procs[b].state == SLEEPING {
      assert StateOk(s.procs[b]);
    }
  }

  /** Death and the notice to the parent, process by process. */
  ghost predicate Dead(s: State, code: int, t: State)
    requires s.cur in s.procs
  {
    && t.kids == s.kids && t.cur == s.cur && t.init == s.init && t.procs.Keys == s.procs.Keys
    && t.procs[s.cur] == s.procs[s.cur].(state := ZOMBIE, exitCode := code, pending := None)
    && forall b :: b in s.procs && b != s.cur ==>
         t.procs[b] == Adopted(s.procs[b], s.procs[b].parent,
                               b == s.procs[s.cur].parent && s.procs[b].state == SLEEPING)
  }

  lemma DieEffect(s: State, code: int) returns (t: State)
    requires Inv(s) && s.cur != s.idle && s.cur != s.init
    ensures CanExit(s) && Adopting(t) && AdoptAll(t) == Exit(s, code) && Dead(s, code, t)
  {
    hide Inv, Distinct, AdoptAll;
    CurrentApart(s);
    t := NotifyParent(Die(s, code));
  }

  /** What do_exit has done to each process when it calls schedule(). */
  ghost predicate ExitDone(s: State, code: int, t: State)
    requires s.cur in s.procs && s.cur in s.kids
  {
    && t.procs.Keys == s.procs.Keys
    && t.procs[s.cur] == s.procs[s.cur].(state := ZOMBIE, exitCode := code, pending := None)
    && forall b :: b in s.procs && b != s.cur ==>
         t.procs[b] == Adopted(s.procs[b], if b in s.kids[s.cur] then s.init else s.procs[b].parent,
                               WokenByExit(s, b))
  }

  lemma DeadThenMoved(s: State, code: int, u: State, t: State)
    requires CanExit(s) && s.cur !in s.kids[s.cur] && Dead(s, code, u) && KidsLinked(u) && AllMoved(u, t)
    ensures ExitDone(s, code, t)
  {
    hide Adopted;
    assert HandsZombie(u) <==> HandsZombie(s);
    AdoptedTwice(u.procs[s.cur], 0, false, 0, false);
    forall b | b in s.procs && b != s.cur
      ensures t.procs[b] == Adopted(s.procs[b], if b in s.kids[s.cur] then s.init else s.procs[b].parent,
                                    WokenByExit(s, b))
    {
      AdoptedTwice(s.procs[b], s.procs[b].parent, b == s.procs[s.cur].parent && s.procs[b].state == SLEEPING,
                   if b in s.kids[s.cur] then s.init else s.procs[b].parent,
                   b == s.init && u.procs[b].state == SLEEPING && HandsZombie(u));
    }
  }

  /** do_exit, process by process: current is a zombie with the code given, its children go to
      initproc, and exactly the sleepers it has to wake are runnable again. */
  lemma ExitEffect(s: State, code: int, next: Ptr, t: State)
    requires Inv(s) && s.cur != s.idle && s.cur != s.init && ExitStep(s, code, next, t)
    ensures t.procs.Keys == s.procs.Keys && s.cur in s.kids
    ensures t.procs[s.cur] ==
            s.procs[s.cur].(state := ZOMBIE, exitCode := code, pending := None, needResched := false)
    ensures forall b :: b in s.procs && b != s.cur ==>
              t.procs[b] == Adopted(s.procs[b], if b in s.kids[s.cur] then s.init else s.procs[b].parent,
                                    WokenByExit(s, b))
  {
    hide Inv, Distinct, AdoptAll, Exit, Adopted, WokenByExit, AllMoved, Dead;
    CurrentApart(s);
    var u := DieEffect(s, code);
    AdoptAllEffect(u);
    DeadThenMoved(s, code, u, Exit(s, code));
  }

  // ----- wait -----

  lemma {:induction false} FirstZombieAt(s: State, cs: seq<Ptr>, w: int) returns (i: nat)
    requires (forall c :: c in cs ==> c in s.procs) && FirstZombie(s, cs, w).Some?
    ensures i < |cs| && cs[i] == FirstZombie(s, cs, w).value
    ensures forall j :: 0 <= j < i && (w == 0 || s.procs[cs[j]].pid == w) ==> s.procs[cs[j]].state != ZOMBIE
  {
    if (w == 0 || s.procs[cs[0]].pid == w) && s.procs[cs[0]].state == ZOMBIE {
      i := 0;
    } else {
      var k := FirstZombieAt(s, cs[1..], w);
      i := k + 1;
    }
  }

  /** The three outcomes of a round of do_wait, told from the children alone. */
  lemma WaitOutcome(s: State, w: int)
    requires KidsKnown(s)
    ensures FirstZombie(s, s.kids[s.cur], w).Some? <==>
            exists c :: c in s.kids[s.cur] && (w == 0 || s.procs[c].pid == w) && s.procs[c].state == ZOMBIE
    ensures HasKid(s, w) <==> exists c :: c in s.kids[s.cur] && (w == 0 || s.procs[c].pid == w)
  {
    if HasKid(s, w) {
      var c :| c in s.kids[s.cur] && Matches(s, w, c);
    }
    forall c | c in s.kids[s.cur] && (w == 0 || s.procs[c].pid == w) ensures Matches(s, w, c) {
    }
  }

  /** The zombie reaped is the youngest that matches, and it alone is gone. */
  lemma ReapEffect(s: State, w: int, t: State) returns (i: nat)
    requires Inv(s) && s.cur != s.idle && KidsKnown(s) && FirstZombie(s, s.kids[s.cur], w).Some?
    requires t == Reap(s, FirstZombie(s, s.kids[s.cur], w).value)
    ensures var ks := s.kids[s.cur];
            && i < |ks| && ks[i] in s.procs && ks[i] == FirstZombie(s, ks, w).value
            && (w == 0 || s.procs[ks[i]].pid == w) && s.procs[ks[i]].state == ZOMBIE
            && (forall j :: 0 <= j < i && (w == 0 || s.procs[ks[j]].pid == w) ==> s.procs[ks[j]].state != ZOMBIE)
            && t.procs == s.procs - {ks[i]} && t.cur in t.kids && t.kids[t.cur] == ks[..i] + ks[i + 1..]
            && t.rq == s.rq && t.cur == s.cur
  {
    CurrentApart(s);
    hide Inv, Distinct;
    i := FirstZombieAt(s, s.kids[s.cur], w);
    WithoutAt(s.kids[s.cur], i);
  }

  lemma SleepEffect(s: State, w: int, next: Ptr, t: State)
    requires Inv(s) && s.cur != s.idle && Scheduled(Sleep(s, w), next, t)
    ensures t.procs == s.procs[s.cur := s.procs[s.cur].(
              state := SLEEPING, waitState := WT_CHILD, pending := Some(w), needResched := false)]
    ensures t.kids == s.kids
  {
  }

  // ----- exit codes, step by step -----

  /** Nobody dies, is reaped or changes its exit code. */
  ghost predicate CodesKept(s: State, t: State) {
    && (forall b :: b in s.procs ==>
          && b in t.procs && t.procs[b].exitCode == s.procs[b].exitCode
          && (t.procs[b].state == ZOMBIE <==> s.procs[b].state == ZOMBIE))
    && (forall b :: b in t.procs && b !in s.procs ==> t.procs[b].state != ZOMBIE)
  }

  /** Current dies with this code; nobody else dies, is reaped or changes its exit code. */
  ghost predicate DiesWith(s: State, code: int, t: State)
    requires s.cur in s.procs
  {
    && s.procs[s.cur].state != ZOMBIE && t.procs.Keys == s.procs.Keys
    && t.procs[s.cur].state == ZOMBIE && t.procs[s.cur].exitCode == code
    && forall b :: b in s.procs && b != s.cur ==>
         && t.procs[b].exitCode == s.procs[b].exitCode
         && (t.procs[b].state == ZOMBIE <==> s.procs[b].state == ZOMBIE)
  }

  /** Some zombie child of current that a wait for w matches is gone; everybody else is kept. */
  ghost predicate Reaps(s: State, w: int, t: State)
    requires s.cur in s.procs
  {
    exists c :: && c in s.procs && s.procs[c].state == ZOMBIE && s.procs[c].parent == s.cur
                && (w == 0 || s.procs[c].pid == w)
                && t.procs.Keys == s.procs.Keys - {c}
                && forall b :: b in t.procs ==>
                     && t.procs[b].exitCode == s.procs[b].exitCode
                     && (t.procs[b].state == ZOMBIE <==> s.procs[b].state == ZOMBIE)
  }

  lemma ExitCodes(s: State, code: int, next: Ptr, t: State)
    requires Inv(s) && s.cur != s.idle && ExitStep(s, code, next, t)
    ensures DiesWith(s, code, t)
  {
    hide Inv, ExitStep, HandsZombie, DiesWith;
    CurrentRuns(s);
    ExitNotInit(s, code, next, t);
    ExitEffect(s, code, next, t);
    AdoptedCodes(s, code, t);
  }

  lemma CurrentRuns(s: State)
    requires Inv(s)
    ensures WellLinked(s) && s.procs[s.cur].state == RUNNABLE && s.procs[s.idle].pending.None?
  {
  }

  lemma ExitNotInit(s: State, code: int, next: Ptr, t: State)
    requires ExitStep(s, code, next, t)
    ensures s.cur != s.init
  {
  }

  lemma AdoptedCodes(s: State, code: int, t: State)
    requires WellLinked(s) && s.procs[s.cur].state == RUNNABLE && t.procs.Keys == s.procs.Keys
    requires t.procs[s.cur].state == ZOMBIE && t.procs[s.cur].exitCode == code
    requires forall b :: b in s.procs && b != s.cur ==>
               t.procs[b] == Adopted(s.procs[b], if b in s.kids[s.cur] then s.init else s.procs[b].parent,
                                     WokenByExit(s, b))
    ensures DiesWith(s, code, t)
  {
    hide HandsZombie;
  }

  lemma ReapCodes(s: State, w: int, t: State)
    requires Inv(s) && s.cur != s.idle && KidsKnown(s) && FirstZombie(s, s.kids[s.cur], w).Some?
    requires t == Reap(s, FirstZombie(s, s.kids[s.cur], w).value)
    ensures Reaps(s, w, t)
  {
    var c := FirstZombie(s, s.kids[s.cur], w).value;
    assert Children(s) && s.procs[c].parent == s.cur;
    hide Inv, FirstZombie;
    assert t.procs == s.procs - {c};
  }

  lemma SleepCodes(s: State, w: int, next: Ptr, t: State)
    requires Inv(s) && s.cur != s.idle && Scheduled(Sleep(s, w), next, t)
    ensures CodesKept(s, t)
  {
    SleepEffect(s, w, next, t);
    hide Base, Scheduled;
  }

  lemma WaitCodes(s: State, w: int, next: Ptr, t: State)
    requires Inv(s) && s.cur != s.idle && KidsKnown(s) && WaitRound(s, w, next, t)
    ensures CodesKept(s, t) || Reaps(s, w, t)
  {
    hide Inv, FirstZombie, HasKid, Reap, Scheduled, CodesKept, Reaps;
    if FirstZombie(s, s.kids[s.cur], w).Some? {
      ReapCodes(s, w, t);
    } else if HasKid(s, w) {
      SleepCodes(s, w, next, t);
    } else {
      SameCodes(s);
    }
  }

  lemma SameCodes(s: State)
    ensures CodesKept(s, s)
  {
  }

  lemma ReschedCodes(s: State, next: Ptr, t: State)
    requires s.cur in s.procs && Scheduled(s, next, t)
    ensures CodesKept(s, t)
  {
  }

  lemma SetReschedCodes(s: State)
    requires s.cur in s.procs
    ensures CodesKept(s, SetResched(s))
  {
  }

  lemma KillCodes(s: State, target: int, t: State)
    requires Inv(s) && KillStep(s, target, t)
    ensures CodesKept(s, t)
  {
    if exists a :: a in s.procs && a != s.idle && s.procs[a].pid == target {
      hide Inv, Kill;
      var a :| a in s.procs && a != s.idle && s.procs[a].pid == target && t == Kill(s, a);
      OneKillCodes(s, a);
    }
  }

  lemma OneKillCodes(s: State, a: Ptr)
    requires Inv(s) && a in s.procs && a != s.idle
    ensures CodesKept(s, Kill(s, a))
  {
    hide Inv, Wakeup;
    if !s.procs[a].exiting {
      KillEffect(s, a);
    }
  }

  lemma ResumeCodes(s: State, next: Ptr, t: State)
    requires Inv(s) && Step(s, EvResume(next), t)
    ensures s.procs[s.cur].pending.Some?
    ensures s.procs[s.cur].exiting ==> DiesWith(s, -E_KILLED, t)
    ensures !s.procs[s.cur].exiting ==> CodesKept(s, t) || Reaps(s, s.procs[s.cur].pending.value, t)
  {
    hide Inv, ExitStep, WaitRound, CodesKept, DiesWith, Reaps, Unblock, KidsKnown;
    CurrentRuns(s);
    if s.procs[s.cur].exiting {
      ExitCodes(s, -E_KILLED, next, t);
    } else {
      UnblockInv(s);
      UnblockCodes(s, s.procs[s.cur].pending.value, t);
      WaitCodes(Unblock(s), s.procs[s.cur].pending.value, next, t);
    }
  }

  lemma UnblockCodes(s: State, w: int, t: State)
    requires s.cur in s.procs
    ensures Unblock(s).cur == s.cur && Unblock(s).idle == s.idle && s.cur in Unblock(s).procs
    ensures CodesKept(Unblock(s), t) ==> CodesKept(s, t)
    ensures Reaps(Unblock(s), w, t) ==> Reaps(s, w, t)
  {
  }

  lemma ForkCodes(s: State, a: Ptr, pid: int)
    requires WellLinked(s) && a !in s.procs
    ensures CodesKept(s, Fork(s, a, pid))
  {
  }

  /** Of all steps only exit changes who is a zombie and with which code, and only a wait of
      the parent takes a zombie away. */
  lemma StepCodes(s: State, e: Event, t: State)
    requires Inv(s) && Step(s, e, t)
    ensures s.cur in s.procs
    ensures e.EvExit? ==> DiesWith(s, e.code, t)
    ensures e.EvResume? && s.procs[s.cur].exiting ==> DiesWith(s, -E_KILLED, t)
    ensures e.EvWait? ==> CodesKept(s, t) || Reaps(s, e.w, t)
    ensures e.EvResume? && !s.procs[s.cur].exiting ==>
              s.procs[s.cur].pending.Some? && (CodesKept(s, t) || Reaps(s, s.procs[s.cur].pending.value, t))
    ensures !e.EvExit? && !e.EvWait? && !e.EvResume? ==> CodesKept(s, t)
  {
    hide Inv, Base, AtRest, ExitStep, WaitRound, KillStep, Scheduled, CodesKept, DiesWith, Reaps, Fork, SetResched,
         PidFree, KidsKnown;
    CurrentRuns(s);
    match e
    case EvFork(a, pid) => ForkCodes(s, a, pid);
    case EvForkFails => SameCodes(s);
    case EvExit(code, next) => ExitCodes(s, code, next, t);
    case EvWait(w, next) => WaitCodes(s, w, next, t);
    case EvResume(next) => ResumeCodes(s, next, t);
    case EvKill(target) => KillCodes(s, target, t);
    case EvYield => SetReschedCodes(s);
    case EvTick(expired) => SameCodes(s); SetReschedCodes(s);
    case EvResched(next) => ReschedCodes(s, next, t);
  }

  // ----- exit codes over whole runs -----

  ghost predicate StepAt(run: seq<State>, events: seq<Event>, i: nat)
    requires i < |events| && |run| == |events| + 1
  {
    Step(run[i], events[i], run[i + 1])
  }

  /** A run together with the events of its steps. */
  ghost predicate Trace(run: seq<State>, events: seq<Event>) {
    && |run| == |events| + 1
    && (exists idle: Ptr, init: Ptr ::
          idle != NULL && init != NULL && idle != init && run[0] == Boot(idle, init))
    && forall i: nat :: i < |events| ==> StepAt(run, events, i)
  }

  lemma TraceIsRun(run: seq<State>, events: seq<Event>)
    requires Trace(run, events)
    ensures Run(run)
  {
    forall i, j {:trigger CanStep(run[i], run[j])} | 0 <= i && j == i + 1 < |run| ensures CanStep(run[i], run[j]) {
      assert StepAt(run, events, i);
    }
  }

  lemma RunPrefix(run: seq<State>)
    requires Run(run) && |run| > 1
    ensures Run(run[..|run| - 1])
  {
    hide Step, Boot;
    var r := run[..|run| - 1];
    forall i, j {:trigger CanStep(r[i], r[j])} | 0 <= i && j == i + 1 < |r| ensures CanStep(r[i], r[j]) {
      assert CanStep(run[i], run[j]);
    }
  }

  /** Every run is the run of some events. */
  lemma {:induction false} RunIsTrace(run: seq<State>) returns (events: seq<Event>)
    requires Run(run)
    ensures Trace(run, events)
  {
    hide Step, Boot;
    if |run| == 1 {
      events := [];
    } else {
      var n := |run| - 1;
      RunPrefix(run);
      var before := RunIsTrace(run[..n]);
      assert CanStep(run[n - 1], run[n]);
      var e :| Step(run[n - 1], e, run[n]);
      events := before + [e];
      forall i: nat | i < |events| ensures StepAt(run, events, i) {
        assert i < n - 1 ==> StepAt(run[..n], before, i);
      }
    }
  }

  /** The process a is a zombie with this exit code in every state from i to j. */
  ghost predicate StaysDead(run: seq<State>, i: nat, j: nat, a: Ptr, code: int)
    requires j < |run|
  {
    forall k: nat :: i <= k <= j ==>
      a in run[k].procs && run[k].procs[a].state == ZOMBIE && run[k].procs[a].exitCode == code
  }

  /** Step i of the run is the exit of process a with this code: its own call, or that of a
      process killed while it was asleep. */
  ghost predicate ExitsAt(run: seq<State>, events: seq<Event>, i: nat, a: Ptr, code: int)
    requires i < |events| && |run| == |events| + 1
  {
    && run[i].cur == a && a in run[i].procs && run[i].procs[a].state == RUNNABLE
    && match events[i]
       case EvExit(c, _) => code == c
       case EvResume(_) => run[i].procs[a].exiting && code == -E_KILLED
       case _ => false
  }

  /** A zombie has an exit in its past, and has kept the code of it ever since. */
  lemma {:induction false} ZombieKeepsCode(run: seq<State>, events: seq<Event>, j: nat, a: Ptr) returns (i: nat)
    requires Trace(run, events) && j < |run|
    requires a in run[j].procs && run[j].procs[a].state == ZOMBIE
    ensures i < j && ExitsAt(run, events, i, a, run[j].procs[a].exitCode)
    ensures StaysDead(run, i + 1, j, a, run[j].procs[a].exitCode)
  {
    hide Step, Boot, Inv;
    TraceIsRun(run, events);
    if j == 0 {
      BootHasNoZombie(run, events, a);
      assert false;
    } else {
      assert StepAt(run, events, j - 1);
      RunInv(run, j - 1);
      StepCodes(run[j - 1], events[j - 1], run[j]);
      CurrentRuns(run[j - 1]);
      if a in run[j - 1].procs && run[j - 1].procs[a].state == ZOMBIE {
        i := ZombieKeepsCode(run, events, j - 1, a);
      } else {
        i := j - 1;
      }
    }
  }

  lemma BootHasNoZombie(run: seq<State>, events: seq<Event>, a: Ptr)
    requires Trace(run, events)
    ensures a in run[0].procs ==> run[0].procs[a].state != ZOMBIE
  {
  }

  /** Step j of the run is a wait that reaps a: by its parent, for its pid or for any child. */
  ghost predicate ReapedAt(run: seq<State>, events: seq<Event>, j: nat, a: Ptr)
    requires j < |events| && |run| == |events| + 1
  {
    && a in run[j].procs && a !in run[j + 1].procs && run[j].procs[a].parent == run[j].cur
    && run[j].cur in run[j].procs
    && match events[j]
       case EvWait(w, _) => w == 0 || w == run[j].procs[a].pid
       case EvResume(_) =>
         && var p := run[j].procs[run[j].cur].pending;
         p == Some(0) || p == Some(run[j].procs[a].pid)
       case _ => false
  }

  lemma DeadAfterExit(run: seq<State>, events: seq<Event>, i: nat, a: Ptr, code: int)
    requires Trace(run, events) && i < |events| && ExitsAt(run, events, i, a, code)
    ensures StaysDead(run, i + 1, i + 1, a, code)
  {
    hide Step, Inv;
    TraceIsRun(run, events);
    RunInv(run, i);
    assert StepAt(run, events, i);
    StepCodes(run[i], events[i], run[i + 1]);
  }

  lemma DeadOrReaped(run: seq<State>, events: seq<Event>, j: nat, a: Ptr)
    requires Trace(run, events) && j < |events| && a in run[j].procs && run[j].procs[a].state == ZOMBIE
    ensures ReapedAt(run, events, j, a) || StaysDead(run, j + 1, j + 1, a, run[j].procs[a].exitCode)
  {
    hide Step, Inv;
    TraceIsRun(run, events);
    RunInv(run, j);
    assert StepAt(run, events, j);
    StepCodes(run[j], events[j], run[j + 1]);
  }

  /** From its exit on a process is a zombie with the code of that exit, up to the wait of its
      parent that reaps it. */
  lemma {:induction false} ExitReachesWait(run: seq<State>, events: seq<Event>, i: nat, j: nat, a: Ptr, code: int)
    returns (k: nat)
    requires Trace(run, events) && i < j < |run| && ExitsAt(run, events, i, a, code)
    ensures i < k <= j && StaysDead(run, i + 1, k, a, code)
    ensures k < j ==> ReapedAt(run, events, k, a)
  {
    hide StepAt, ExitsAt, ReapedAt, Boot;
    if i + 1 == j {
      DeadAfterExit(run, events, i, a, code);
      k := j;
    } else {
      k := ExitReachesWait(run, events, i, j - 1, a, code);
      if k == j - 1 {
        DeadOrReaped(run, events, k, a);
        if StaysDead(run, j, j, a, code) {
          k := j;
        }
      }
    }
  }
}
