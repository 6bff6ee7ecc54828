/** The process management code itself: fields updated in place, pointer by pointer, proved
    to perform the steps of ProcModel. A panic of the source is reported as a result. */
module ProcKernel {
  import opened Lists
  import opened ProcModel
  import opened ProcSafety
  import ProcEffects
  import opened ProcLinks
  import opened PidHash
  import PidAlloc
  import opened Wrappers

  datatype WaitResult =
    | Reaped(exitCode: int)   // returns 0 and stores the exit code
    | Failed(error: int)      // returns the negated error code
    | Blocked                 // asleep in schedule()
    | Exited                  // killed while asleep: do_exit(-E_KILLED)
    | Panic

  function PidsOf(procs: map<Ptr, Proc>, list: seq<Ptr>): (r: seq<int>)
    ensures |r| == |list|
    ensures forall a :: a in list && a in procs ==> procs[a].pid in r
  {
    if list == [] then [] else
      assert list == [list[0]] + list[1..];
      [if list[0] in procs then procs[list[0]].pid else 0] + PidsOf(procs, list[1..])
  }

  lemma {:induction false} PidsOfMember(procs: map<Ptr, Proc>, list: seq<Ptr>, p: int) returns (a: Ptr)
    requires p in PidsOf(procs, list) && forall x :: x in list ==> x in procs
    ensures a in list && procs[a].pid == p
  {
    if procs[list[0]].pid == p {
      a := list[0];
    } else {
      a := PidsOfMember(procs, list[1..], p);
    }
  }

  lemma {:induction false} PidsOfFrame(procs: map<Ptr, Proc>, procs': map<Ptr, Proc>, list: seq<Ptr>)
    requires forall x :: x in list ==> x in procs && x in procs' && procs'[x].pid == procs[x].pid
    ensures PidsOf(procs', list) == PidsOf(procs, list)
  {
    if list != [] {
      PidsOfFrame(procs, procs', list[1..]);
    }
  }

  /** The child lists of a well-shaped state as ProcLinks needs them. */
  lemma ShapeForest(s: State)
    requires Shape(s)
    ensures Forest(s.kids) && NULL !in s.kids && s.kids.Keys == s.procs.Keys
    ensures forall a, c :: a in s.kids && c in s.kids[a] ==> c in s.procs
  {
  }

  /** Hash table and static variables agree with the process table. */
  ghost predicate Tables(procs: map<Ptr, Proc>, list: seq<Ptr>, hash: seq<seq<Ptr>>, last: int, safe: int) {
    HashOk(hash, procs, list) && PidAlloc.StaticsOk(PidsOf(procs, list), last, safe)
  }

  ghost predicate SamePids(procs: map<Ptr, Proc>, procs': map<Ptr, Proc>) {
    procs'.Keys == procs.Keys && forall a :: a in procs ==> procs'[a].pid == procs[a].pid
  }

  lemma LinksReady(links: map<Ptr, Links>, kids: map<Ptr, seq<Ptr>>, hash: seq<seq<Ptr>>, procs: map<Ptr, Proc>,
                   list: seq<Ptr>, a: Ptr)
    requires Encodes(links, kids, NULL) && HashOk(hash, procs, list) && a in kids
    ensures |hash| == HASH_LIST_SIZE && a in links
  {
  }

  lemma TablesFrame(procs: map<Ptr, Proc>, procs': map<Ptr, Proc>, list: seq<Ptr>, hash: seq<seq<Ptr>>, last: int,
                    safe: int)
    requires Tables(procs, list, hash, last, safe) && SamePids(procs, procs')
    requires forall x :: x in list ==> x in procs
    ensures Tables(procs', list, hash, last, safe)
  {
    HashFrame(hash, procs, procs', list);
    PidsOfFrame(procs, procs', list);
  }

  class Kernel {
    var procs: map<Ptr, Proc>
    var links: map<Ptr, Links>
    var procList: seq<Ptr>
    var hashList: seq<seq<Ptr>>
    var nrProcess: int
    var rq: multiset<Ptr>
    var current: Ptr
    const idleproc: Ptr
    const initproc: Ptr
    var lastPid: int
    var nextSafe: int
    var births: nat  // history variable: forks so far
    ghost var kids: map<Ptr, seq<Ptr>>
    ghost var badWakeups: nat

    ghost function Abs(): State
      reads this
    {
      State(procs, kids, procList, nrProcess, rq, current, idleproc, initproc, births, badWakeups)
    }

    /** The pointers implement the abstract state. */
    ghost predicate Linked(but: Ptr)
      reads this
    {
      Encodes(links, kids, but) && Tables(procs, procList, hashList, lastPid, nextSafe)
    }

    ghost predicate Valid()
      reads this
    {
      Inv(Abs()) && Linked(NULL)
    }

    /** proc_init: idleproc running, initproc forked from it and queued. */
    constructor (idle: Ptr, init: Ptr)
      requires idle != NULL && init != NULL && idle != init
      ensures Valid() && Abs() == Boot(idle, init)
    {
      idleproc, initproc := idle, init;
      var first := Boot(idle, init);
      procs := first.procs;
      links := map[idle := Links(init, NULL, NULL), init := Links(NULL, NULL, NULL)];
      procList := [init];
      hashList := seq(HASH_LIST_SIZE, i => if i == Bucket(1) then [init] else []);
      nrProcess, rq, current := 2, multiset{init}, idle;
      lastPid, nextSafe := 1, MAX_PID;
      births := 2;
      kids, badWakeups := map[idle := [init], init := []], 0;
      new;
      BootInv(idle, init);
      assert SiblingAt(links, kids[idle], 0);
      forall k | 0 <= k < HASH_LIST_SIZE ensures BucketOk(hashList[k], k, procs, procList) {
      }
      assert PidsOf(procs, procList) == [1];
    }

    method WakeupProc(a: Ptr)
      requires a in procs && procs[a].state != ZOMBIE
      modifies this`procs, this`rq, this`badWakeups
      ensures Abs() == Wakeup(old(Abs()), a)
      ensures old(procs)[a].state == RUNNABLE ==> procs == old(procs) && rq == old(rq)
      ensures old(procs)[a].state != RUNNABLE ==>
                && procs == old(procs)[a := old(procs)[a].(state := RUNNABLE, waitState := 0)]
                && rq == if a != current && a != idleproc then old(rq) + multiset{a} else old(rq)
    {
      if procs[a].state != RUNNABLE {
        procs := procs[a := procs[a].(state := RUNNABLE, waitState := 0)];
        if a != current && a != idleproc {
          rq := rq + multiset{a};
        }
      } else {
        badWakeups := badWakeups + 1;
      }
    }

    /** schedule(), with the scheduling class free to pick any queued process. */
    method Schedule()
      requires current in procs
      modifies this`procs, this`rq, this`current
      ensures Scheduled(old(Abs()), current, Abs())
      ensures procs == old(procs)[old(current) := old(procs[current]).(needResched := false)]
      ensures var own := if old(procs[current]).state == RUNNABLE && old(current) != idleproc
                         then multiset{old(current)} else multiset{};
              if old(rq) + own == multiset{} then current == idleproc && rq == multiset{}
              else rq + multiset{current} == old(rq) + own
    {
      procs := procs[current := procs[current].(needResched := false)];
      if procs[current].state == RUNNABLE && current != idleproc {
        rq := rq + multiset{current};
      }
      ghost var offered := Abs();
      assert offered == Offer(old(Abs()));
      var next := idleproc;
      if rq != multiset{} {
        next :| next in rq;
        rq := rq - multiset{next};
      }
      current := next;
      hide Offer;
      assert Abs() == Switch(offered, next);
      ProcEffects.ScheduledEffect(old(Abs()), current, Abs());
    }

    // ----- do_fork -----

    method SetLinks(a: Ptr)
      requires a in procs && a in links && procs[a].parent in links
      requires var h := links[procs[a].parent].cptr; h == NULL || h in links
      modifies this`procList, this`links, this`nrProcess
      ensures procList == [a] + old(procList) && nrProcess == old(nrProcess) + 1
      ensures links == AddLinks(old(links), a, procs[a].parent)
    {
      var parent := procs[a].parent;
      procList := [a] + procList;
      links := SetY(links, a, NULL);
      links := SetO(links, a, links[parent].cptr);
      if links[a].optr != NULL {
        links := SetY(links, links[a].optr, a);
      }
      links := SetC(links, parent, a);
      nrProcess := nrProcess + 1;
    }

    method AllocPid()
      requires Valid() && nrProcess < MAX_PROCESS
      modifies this`lastPid, this`nextSafe
      ensures PidAlloc.NextFree(PidsOf(procs, procList), old(lastPid), lastPid)
      ensures PidAlloc.StaticsOk([lastPid] + PidsOf(procs, procList), lastPid, nextSafe)
      ensures PidFree(Abs(), lastPid)
    {
      PidsFitProcs(Abs());
      lastPid, nextSafe := PidAlloc.GetPid(PidsOf(procs, procList), lastPid, nextSafe);
      NewPidFree(Abs(), lastPid);
    }

    /** alloc_proc, hash_proc and set_links for the pid just allocated. */
    method LinkNew(a: Ptr, pid: int)
      requires current in kids && Forest(kids) && NULL !in kids && Fresh(kids, a) && a !in procs
      requires Encodes(links, kids, NULL) && HashOk(hashList, procs, procList)
      requires forall x :: x in procList ==> x in procs
      modifies this`procs, this`links, this`procList, this`hashList, this`nrProcess, this`kids, this`births
      ensures procs == old(procs)[a := Proc(UNINIT, pid, current, 0, false, false, 0, None, old(births))]
      ensures kids == old(kids)[current := [a] + old(kids)[current]][a := []]
      ensures procList == [a] + old(procList)
      ensures nrProcess == old(nrProcess) + 1 && births == old(births) + 1
      ensures Encodes(links, kids, NULL) && HashOk(hashList, procs, procList)
    {
      hide Encodes, HashOk, Forest, Fresh, Bucket;
      LinksReady(links, kids, hashList, procs, procList, current);
      HashAdd(hashList, procs, procList, a, Proc(UNINIT, pid, current, 0, false, false, 0, None, births));
      AddEncodes(links, kids, a, current, Links(NULL, NULL, NULL));
      procs := procs[a := Proc(UNINIT, pid, current, 0, false, false, 0, None, births)];
      links := links[a := Links(NULL, NULL, NULL)];
      hashList := hashList[Bucket(pid) := [a] + hashList[Bucket(pid)]];
      SetLinks(a);
      births := births + 1;
      kids := kids[current := [a] + kids[current]][a := []];
    }

    method LinkAndWake(a: Ptr, pid: int)
      requires WellLinked(Abs()) && Forest(kids) && NULL !in kids && Fresh(kids, a) && a !in procs
      requires Encodes(links, kids, NULL) && HashOk(hashList, procs, procList)
      requires forall x :: x in procList ==> x in procs
      requires PidAlloc.StaticsOk([pid] + PidsOf(procs, procList), lastPid, nextSafe)
      modifies this
      ensures Abs() == Fork(old(Abs()), a, pid) && Linked(NULL)
      ensures lastPid == old(lastPid)
    {
      hide Encodes, HashOk, Forest, Fresh, PidsOf, PidAlloc.StaticsOk;
      NewTables(procs, procList, a, Proc(UNINIT, pid, current, 0, false, false, 0, None, births));
      LinkNew(a, pid);
      ghost var linked := procs;
      assert Abs() == Link(old(Abs()), a, pid);
      WakeupProc(a);
      TablesFrame(linked, procs, procList, hashList, lastPid, nextSafe);
    }

    /** do_fork. `mem` is the proc_struct kmalloc found, or None when that or any later
        allocation (kernel stack, address space) failed. */
    method DoFork(mem: Option<Ptr>) returns (ret: int)
      requires Valid() && AtRest(Abs()) && current != idleproc
      requires mem.Some? ==> mem.value != NULL && mem.value !in procs
      modifies this
      ensures Valid()
      ensures old(nrProcess) >= MAX_PROCESS ==> ret == -E_NO_FREE_PROC && Abs() == old(Abs())
      ensures old(nrProcess) < MAX_PROCESS && mem.None? ==> ret == -E_NO_MEM && Abs() == old(Abs())
      ensures old(nrProcess) < MAX_PROCESS && mem.Some? ==>
                && Step(old(Abs()), EvFork(mem.value, ret), Abs())
                && PidAlloc.NextFree(PidsOf(old(procs), old(procList)), old(lastPid), ret)
                && procs == old(procs)[mem.value := Proc(RUNNABLE, ret, current, 0, false, false, 0, None, old(births))]
                && kids == old(kids)[current := [mem.value] + old(kids[current])][mem.value := []]
                && procList == [mem.value] + old(procList) && nrProcess == old(nrProcess) + 1
                && rq == old(rq) + multiset{mem.value} && current == old(current)
    {
      hide Inv;
      if nrProcess >= MAX_PROCESS {
        return -E_NO_FREE_PROC;
      }
      if mem.None? {
        return -E_NO_MEM;
      }
      var proc := mem.value;
      ghost var s := Abs();
      CurrentAwake(s);
      assert procs[current].waitState == 0;
      AllocPid();
      ret := lastPid;
      ForkReady(s, proc, ret);
      ProcEffects.ForkEffect(s, proc, ret);
      LinkAndWake(proc, ret);
    }

    // ----- do_exit -----

    /** The pointer assignments of one reparenting round. */
    method MoveChild()
      requires current in links && initproc in links && current != initproc && links[current].cptr in links
      requires links[initproc].cptr == NULL || links[initproc].cptr in links
      modifies this`links
      ensures links == MoveLinks(old(links), current, initproc)
    {
      var proc := links[current].cptr;
      links := SetC(links, current, links[proc].optr);
      links := SetY(links, proc, NULL);
      links := SetO(links, proc, links[initproc].cptr);
      if links[proc].optr != NULL {
        links := SetY(links, links[initproc].cptr, proc);
      }
      links := SetC(links, initproc, proc);
    }

    /** One round of the reparenting loop of do_exit. */
    method AdoptChild()
      requires KidsLinked(Abs()) && kids[current] != []
      requires Encodes(links, kids, current) && Forest(kids) && NULL !in kids
      requires procs[initproc].state != ZOMBIE
      modifies this`procs, this`links, this`rq, this`kids, this`badWakeups
      ensures Abs() == AdoptOne(old(Abs())) && Encodes(links, kids, current)
    {
      hide Encodes, Forest, MoveLinks, Distinct;
      EncodesKeys(links, kids, current);
      MoveEncodes(links, kids, current, initproc);
      var proc := links[current].cptr;
      assert proc == kids[current][0] && proc in procs;
      MoveChild();
      procs := procs[proc := procs[proc].(parent := initproc)];
      kids := kids[current := kids[current][1..]][initproc := [proc] + kids[initproc]];
      assert Abs() == MoveOne(old(Abs()));
      if procs[proc].state == ZOMBIE {
        if procs[initproc].waitState == WT_CHILD {
          WakeupProc(initproc);
        }
      }
    }

    method DieAndNotify(code: int)
      requires current in procs && procs[current].parent in procs && procs[current].parent != current
      requires procs[procs[current].parent].waitState == WT_CHILD ==> procs[procs[current].parent].state == SLEEPING
      modifies this`procs, this`rq, this`badWakeups
      ensures Abs() == NotifyParent(Die(old(Abs()), code))
    {
      procs := procs[current := procs[current].(state := ZOMBIE, exitCode := code, pending := None)];
      var parent := procs[current].parent;
      if procs[parent].waitState == WT_CHILD {
        WakeupProc(parent);
      }
    }

    /** The reparenting loop of do_exit. */
    method AdoptChildren()
      requires Exiting(Abs()) && Encodes(links, kids, current)
      modifies this`procs, this`links, this`rq, this`kids, this`badWakeups
      ensures KidsLinked(old(Abs())) && Abs() == AdoptAll(old(Abs())) && Base(Abs())
      ensures Encodes(links, kids, NULL)
    {
      ghost var s := Abs();
      assert KidsLinked(s);
      hide Base, Exiting, Encodes, AdoptAll;
      CptrIsHead(links, kids, current);
      while links[current].cptr != NULL
        invariant Exiting(Abs()) && Encodes(links, kids, current)
        invariant KidsLinked(Abs()) && AdoptAll(Abs()) == AdoptAll(s)
        invariant current in links && (links[current].cptr != NULL <==> kids[current] != [])
        decreases |kids[current]|
      {
        AdoptKeepsExiting(Abs());
        AdoptChild();
        CptrIsHead(links, kids, current);
      }
      AdoptAllDone(Abs());
      EncodesStrengthen(links, kids, current);
    }

    /** Everything do_exit does after its panic checks. */
    method ExitAndSchedule(code: int)
      requires CanExit(Abs()) && procs[current].parent != current
      requires procs[procs[current].parent].waitState == WT_CHILD ==> procs[procs[current].parent].state == SLEEPING
      requires Exiting(NotifyParent(Die(Abs(), code))) && Encodes(links, kids, current)
      modifies this`procs, this`links, this`rq, this`kids, this`badWakeups, this`current
      ensures Base(Exit(old(Abs()), code)) && Scheduled(Exit(old(Abs()), code), current, Abs())
      ensures Encodes(links, kids, NULL)
    {
      hide Base, Exiting, Encodes, AdoptAll, SamePids, NotifyParent, Die, Scheduled;
      DieAndNotify(code);
      AdoptChildren();
      Schedule();
    }

    /** do_exit up to its schedule(); exit of idleproc or initproc panics. */
    method DoExit(code: int) returns (panicked: bool)
      requires Valid()
      modifies this
      ensures panicked <==> old(current) == idleproc || old(current) == initproc
      ensures panicked ==> Abs() == old(Abs())
      ensures Valid()
      ensures !panicked ==> ExitStep(old(Abs()), code, current, Abs())
      ensures !panicked ==> procs.Keys == old(procs.Keys)
      ensures var own := old(procs[current]);
              !panicked ==> procs[old(current)] == own.(
                state := ZOMBIE, exitCode := code, pending := None, needResched := false)
      ensures !panicked ==> forall b :: b in old(procs) && b != old(current) ==>
                var q := old(procs)[b];
                var parent := if b in old(kids[current]) then initproc else q.parent;
                var handed := exists c :: c in old(kids[current]) && c in old(procs) && old(procs)[c].state == ZOMBIE;
                var told := b == old(procs[current]).parent || (b == initproc && handed);
                procs[b] == if q.state == SLEEPING && told
                            then q.(parent := parent, state := RUNNABLE, waitState := 0) else q.(parent := parent)
    {
      hide Inv, Base, Exiting, Encodes, ExitStep, Exit, Scheduled, Tables;
      if current == idleproc || current == initproc {
        return true;
      }
      panicked := false;
      ghost var s := Abs();
      ExitStart(s, code);
      EncodesWeaken(links, kids, current);
      ExitAndSchedule(code);
      ExitKeeps(s, code, current, Abs());
      ProcEffects.ExitEffect(s, code, current, Abs());
      TablesFrame(s.procs, procs, procList, hashList, lastPid, nextSafe);
    }

    // ----- do_wait -----

    /** The search part of do_wait from its `repeat` label. */
    method FindZombieChild(w: int) returns (haskid: bool, zombie: Ptr)
      requires KidsKnown(Abs()) && Encodes(links, kids, NULL) && NULL !in kids
      requires HashOk(hashList, procs, procList) && WaitTables(Abs())
      ensures zombie != NULL ==> FirstZombie(Abs(), kids[current], w) == Some(zombie)
      ensures zombie == NULL ==> FirstZombie(Abs(), kids[current], w).None? && (haskid <==> HasKid(Abs(), w))
    {
      haskid, zombie := false, NULL;
      if w != 0 {
        var proc := FindProc(hashList, procs, procList, w);
        WaitByPid(Abs(), w, proc);
        if proc != NULL && procs[proc].parent == current {
          haskid := true;
          if procs[proc].state == ZOMBIE {
            zombie := proc;
          }
        }
      } else {
        ghost var ks := kids[current];
        ghost var i := 0;
        var proc := links[current].cptr;
        assert ks[0..] == ks;
        if ks != [] {
          assert SiblingAt(links, ks, 0);
        }
        while proc != NULL && zombie == NULL
          invariant 0 <= i <= |ks|
          invariant zombie == NULL ==> proc == At(ks, i) && FirstZombie(Abs(), ks, 0) == FirstZombie(Abs(), ks[i..], 0)
          invariant zombie == NULL ==> (haskid <==> i > 0) && (proc == NULL <==> i == |ks|)
          invariant zombie != NULL ==> FirstZombie(Abs(), ks, 0) == Some(zombie)
          decreases |ks| - i, zombie == NULL
        {
          haskid := true;
          assert SiblingAt(links, ks, i);
          assert ks[i..][0] == proc && ks[i..][1..] == ks[i + 1..];
          if procs[proc].state == ZOMBIE {
            zombie := proc;
          } else {
            proc := links[proc].optr;
            i := i + 1;
            if i < |ks| {
              assert SiblingAt(links, ks, i);
            }
          }
        }
        if zombie == NULL {
          assert ks[i..] == [];
          if haskid {
            assert ks[0] in ks && Matches(Abs(), 0, ks[0]);
          }
        }
      }
    }

    method RemoveLinks(c: Ptr)
      requires c in procs && c in links && procs[c].parent in links
      requires links[c].optr == NULL || links[c].optr in links
      requires links[c].yptr == NULL || links[c].yptr in links
      modifies this`procList, this`links, this`nrProcess
      ensures procList == Without(old(procList), c) && nrProcess == old(nrProcess) - 1
      ensures links == CutLinks(old(links), c, procs[c].parent)
    {
      procList := Without(procList, c);
      if links[c].optr != NULL {
        links := SetY(links, links[c].optr, links[c].yptr);
      }
      if links[c].yptr != NULL {
        links := SetO(links, links[c].yptr, links[c].optr);
      } else {
        links := SetC(links, procs[c].parent, links[c].optr);
      }
      nrProcess := nrProcess - 1;
    }

    /** unhash_proc, remove_links and kfree of a zombie child. */
    method ReapChild(c: Ptr)
      requires current in procs && current in kids && c in procs
      requires Forest(kids) && NULL !in kids && Distinct(procList)
      requires c in kids[current] && c in kids && c != current && c in procList && procs[c].parent == current
      requires Encodes(links, kids, NULL) && HashOk(hashList, procs, procList)
      modifies this`procs, this`links, this`procList, this`hashList, this`nrProcess, this`kids
      ensures procs == old(procs) - {c} && procList == Without(old(procList), c) && nrProcess == old(nrProcess) - 1
      ensures kids == old(kids)[current := Without(old(kids)[current], c)] - {c}
      ensures Encodes(links, kids, NULL) && HashOk(hashList, procs, procList)
    {
      hide Encodes, HashOk, Forest, CutLinks, Without, Distinct, Bucket;
      LinksReady(links, kids, hashList, procs, procList, current);
      CutEncodes(links, kids, c, current);
      HashRemove(hashList, procs, procList, c);
      hashList := hashList[Bucket(procs[c].pid) := Without(hashList[Bucket(procs[c].pid)], c)];
      RemoveLinks(c);
      procs := procs - {c};
      links := links - {c};
      kids := kids[current := Without(kids[current], c)] - {c};
    }

    method SleepAndSchedule(w: int)
      requires current in procs
      modifies this`procs, this`rq, this`current
      ensures Scheduled(Sleep(old(Abs()), w), current, Abs())
    {
      procs := procs[current := procs[current].(state := SLEEPING, waitState := WT_CHILD, pending := Some(w))];
      Schedule();
    }

    /** do_wait from its label `found`. */
    method TakeZombie(zombie: Ptr) returns (code: int)
      requires Valid() && current != idleproc && zombie in kids[current] && zombie in procs
      requires procs[zombie].state == ZOMBIE
      modifies this
      ensures Valid() && Abs() == Reap(old(Abs()), zombie) && code == old(procs[zombie].exitCode)
    {
      hide Inv, Base, Encodes, HashOk, WaitTables, PidAlloc.StaticsOk, Without, Distinct, Forest;
      ghost var s := Abs();
      WaitReady(s);
      ReapReady(s, zombie, lastPid, nextSafe);
      assert zombie != idleproc && zombie != initproc;
      code := procs[zombie].exitCode;
      ReapChild(zombie);
    }

    /** do_wait with a child but no zombie. */
    method SleepForChild(w: int)
      requires Valid() && current != idleproc && current in kids && KidsKnown(Abs()) && HasKid(Abs(), w)
      requires FirstZombie(Abs(), kids[current], w).None?
      modifies this`procs, this`rq, this`current
      ensures Valid() && Scheduled(Sleep(old(Abs()), w), current, Abs())
    {
      hide Inv, Base, Encodes, HashOk, WaitTables, Scheduled, PidAlloc.StaticsOk, FirstZombie, HasKid;
      ghost var s := Abs();
      WaitReady(s);
      SleepBase(s, w);
      SleepAndSchedule(w);
      SleepKeeps(s, w, current, Abs());
      TablesFrame(s.procs, procs, procList, hashList, lastPid, nextSafe);
    }

    /** do_wait from its `repeat` label. */
    method WaitFrom(w: int) returns (r: WaitResult)
      requires Valid() && current != idleproc
      modifies this
      ensures Valid() && KidsKnown(old(Abs()))
      ensures WaitRound(old(Abs()), w, current, Abs())
      ensures match FirstZombie(old(Abs()), old(kids[current]), w)
              case Some(c) => r == Reaped(old(procs[c].exitCode))
              case None => r == if HasKid(old(Abs()), w) then Blocked else Failed(E_BAD_PROC)
      ensures r.Reaped? || r == Blocked || r == Failed(E_BAD_PROC)
      ensures r.Reaped? <==>
              exists c :: && c in old(kids[current]) && c in old(procs) && (w == 0 || old(procs)[c].pid == w)
                          && old(procs)[c].state == ZOMBIE
      ensures r.Reaped? ==>
              exists c :: && c in old(kids[current]) && c in old(procs) && (w == 0 || old(procs)[c].pid == w)
                          && old(procs)[c].state == ZOMBIE
                          && r.exitCode == old(procs)[c].exitCode && procs == old(procs) - {c}
      ensures r == Failed(E_BAD_PROC) <==> forall c :: c in old(kids[current]) && c in old(procs) ==>
                w != 0 && old(procs)[c].pid != w
      ensures r == Failed(E_BAD_PROC) ==> Abs() == old(Abs())
      ensures r == Blocked ==> procs == old(procs)[old(current) := old(procs[current]).(
                state := SLEEPING, waitState := WT_CHILD, pending := Some(w), needResched := false)]
    {
      hide Inv, Base, Encodes, HashOk, WaitTables, HasKid, Scheduled, PidAlloc.StaticsOk, Reap, Sleep, FirstZombie;
      ghost var s := Abs();
      WaitReady(s);
      ProcEffects.WaitOutcome(s, w);
      var haskid, zombie := FindZombieChild(w);
      if zombie != NULL {
        var code := TakeZombie(zombie);
        ghost var i := ProcEffects.ReapEffect(s, w, Abs());
        return Reaped(code);
      }
      if haskid {
        SleepForChild(w);
        ProcEffects.SleepEffect(s, w, current, Abs());
        return Blocked;
      }
      return Failed(E_BAD_PROC);
    }

    /** sys_wait. `badStore` says that code_store is not null and not writable user memory. */
    method DoWait(w: int, badStore: bool) returns (r: WaitResult)
      requires Valid() && AtRest(Abs()) && current != idleproc
      modifies this
      ensures Valid()
      ensures badStore ==> r == Failed(E_INVAL) && Abs() == old(Abs())
      ensures !badStore ==>
                && Step(old(Abs()), EvWait(w, current), Abs())
                && KidsKnown(old(Abs()))
                && match FirstZombie(old(Abs()), old(kids[current]), w)
                   case Some(c) => r == Reaped(old(procs[c].exitCode))
                   case None => r == if HasKid(old(Abs()), w) then Blocked else Failed(E_BAD_PROC)
      ensures !badStore ==> r.Reaped? || r == Blocked || r == Failed(E_BAD_PROC)
      ensures !badStore ==>
                (r.Reaped? <==>
                 exists c :: && c in old(kids[current]) && c in old(procs) && (w == 0 || old(procs)[c].pid == w)
                             && old(procs)[c].state == ZOMBIE)
      ensures r.Reaped? ==>
              exists c :: && c in old(kids[current]) && c in old(procs) && (w == 0 || old(procs)[c].pid == w)
                          && old(procs)[c].state == ZOMBIE
                          && r.exitCode == old(procs)[c].exitCode && procs == old(procs) - {c}
      ensures !badStore ==>
                (r == Failed(E_BAD_PROC) <==>
                 forall c :: c in old(kids[current]) && c in old(procs) ==> w != 0 && old(procs)[c].pid != w)
      ensures r.Failed? ==> Abs() == old(Abs())
      ensures r == Blocked ==> procs == old(procs)[old(current) := old(procs[current]).(
                state := SLEEPING, waitState := WT_CHILD, pending := Some(w), needResched := false)]
    {
      hide Inv, Linked, WaitRound, FirstZombie, HasKid;
      if badStore {
        return Failed(E_INVAL);
      }
      r := WaitFrom(w);
    }

    /** A process blocked in do_wait runs again: it exits if it was killed meanwhile, and
        otherwise goes back to `repeat`. */
    method ResumeWait() returns (r: WaitResult)
      requires Valid() && procs[current].pending.Some? && current != idleproc
      modifies this
      ensures Valid()
      ensures r == Panic <==> old(procs[current].exiting) && old(current) == initproc
      ensures r == Panic ==> Abs() == old(Abs())
      ensures r != Panic ==> Step(old(Abs()), EvResume(current), Abs())
      ensures old(procs[current].exiting) ==> r == Panic || r == Exited
      ensures r == Exited ==>
                && old(procs[current].exiting) && old(current) in procs
                && procs[old(current)].state == ZOMBIE && procs[old(current)].exitCode == -E_KILLED
      ensures !old(procs[current].exiting) ==> r.Reaped? || r == Blocked || r == Failed(E_BAD_PROC)
      ensures !old(procs[current].exiting) ==>
                var w := old(procs[current].pending).value;
                (r.Reaped? <==>
                 exists c :: && c in old(kids[current]) && c in old(procs) && (w == 0 || old(procs)[c].pid == w)
                             && old(procs)[c].state == ZOMBIE)
      ensures r.Reaped? ==>
                var w := old(procs[current].pending).value;
                exists c :: && c in old(kids[current]) && c in old(procs) && (w == 0 || old(procs)[c].pid == w)
                            && old(procs)[c].state == ZOMBIE && r.exitCode == old(procs)[c].exitCode
                            && procs == old(procs)[old(current) := old(procs[current]).(pending := None)] - {c}
      ensures !old(procs[current].exiting) ==>
                var w := old(procs[current].pending).value;
                (r == Failed(E_BAD_PROC) <==>
                 forall c :: c in old(kids[current]) && c in old(procs) ==> w != 0 && old(procs)[c].pid != w)
      ensures r.Failed? ==> procs == old(procs)[old(current) := old(procs[current]).(pending := None)]
      ensures r == Blocked ==> procs == old(procs)[old(current) := old(procs[current]).(
                state := SLEEPING, waitState := WT_CHILD, needResched := false)]
    {
      hide Inv, Encodes, Tables, WaitRound, ExitStep, Step, FirstZombie, HasKid;
      ghost var s := Abs();
      UnblockKeeps(s);
      if procs[current].exiting {
        var panicked := DoExit(-E_KILLED);
        if panicked {
          return Panic;
        }
        ResumeExits(s, current, Abs());
        return Exited;
      }
      var w := procs[current].pending.value;
      procs := procs[current := procs[current].(pending := None)];
      assert Abs() == Unblock(s);
      TablesFrame(s.procs, procs, procList, hashList, lastPid, nextSafe);
      r := WaitFrom(w);
      ResumeWaits(s, current, Abs());
    }

    // ----- do_kill, do_yield, tick and the return from a trap -----

    /** do_kill: marks the one process with that pid, and wakes it if its sleep may be
        interrupted; -E_KILLED says that it was marked before. */
    method DoKill(pid: int) returns (ret: int)
      requires Valid() && AtRest(Abs()) && current != idleproc
      modifies this
      ensures Valid() && Step(old(Abs()), EvKill(pid), Abs())
      ensures ret == 0 || ret == -E_KILLED || ret == -E_INVAL
      ensures ret == -E_INVAL <==> forall a :: a in old(procList) ==> a in old(procs) && old(procs)[a].pid != pid
      ensures ret != 0 ==> Abs() == old(Abs())
      ensures forall a :: a in old(procList) && a in old(procs) && old(procs)[a].pid == pid ==>
                ret == (if old(procs)[a].exiting then -E_KILLED else 0) && Abs() == Kill(old(Abs()), a)
      ensures forall a :: ret == 0 && a in old(procList) && a in old(procs) && old(procs)[a].pid == pid ==>
                var q := old(procs)[a];
                && current == old(current) && kids == old(kids)
                && (q.state == SLEEPING ==>
                      && procs == old(procs)[a := q.(exiting := true, state := RUNNABLE, waitState := 0)]
                      && rq == old(rq) + multiset{a} && rq[a] == 1)
                && (q.state != SLEEPING ==>
                      procs == old(procs)[a := q.(exiting := true)] && rq == old(rq))
    {
      hide Inv, Encodes, HashOk, PidAlloc.StaticsOk, Step, Kill;
      ghost var s := Abs();
      KillReady(s);
      var proc := FindProc(hashList, procs, procList, pid);
      if proc == NULL {
        KillNone(s, pid);
        return -E_INVAL;
      }
      KillFound(s, pid, proc);
      OnePid(s, proc);
      if procs[proc].exiting {
        return -E_KILLED;
      }
      MarkExiting(proc);
      ProcEffects.KillEffect(s, proc);
      TablesFrame(s.procs, procs, procList, hashList, lastPid, nextSafe);
      return 0;
    }

    method MarkExiting(a: Ptr)
      requires a in procs && !procs[a].exiting
      requires Interruptible(procs[a].waitState) ==> procs[a].state != ZOMBIE
      modifies this`procs, this`rq, this`badWakeups
      ensures Abs() == Kill(old(Abs()), a)
    {
      procs := procs[a := procs[a].(exiting := true)];
      if Interruptible(procs[a].waitState) {
        WakeupProc(a);
      }
    }

    /** do_yield, and a clock tick that uses up the time slice. */
    method NeedResched()
      requires Valid()
      modifies this`procs
      ensures Valid() && Abs() == SetResched(old(Abs()))
      ensures current == old(current) && rq == old(rq) && kids == old(kids)
      ensures procs == old(procs)[current := old(procs[current]).(needResched := true)]
    {
      ghost var s := Abs();
      SetReschedInv(s);
      SetReschedKeeps(s);
      hide Inv, Encodes, Tables;
      procs := procs[current := procs[current].(needResched := true)];
      TablesFrame(s.procs, procs, procList, hashList, lastPid, nextSafe);
    }

    /** cpu_idle, and the end of trap(): schedule when asked to. */
    method ReschedIfAsked()
      requires Valid() && AtRest(Abs())
      modifies this
      ensures Valid()
      ensures old(procs[current].needResched) ==> Step(old(Abs()), EvResched(current), Abs())
      ensures procs == old(procs)[old(current) := old(procs[current]).(needResched := false)]
      ensures !old(procs[current].needResched) ==> Abs() == old(Abs())
    {
      hide Inv, Encodes, Tables, Scheduled;
      ghost var s := Abs();
      if procs[current].needResched {
        Schedule();
        ReschedKeeps(s, current, Abs());
        TablesFrame(s.procs, procs, procList, hashList, lastPid, nextSafe);
      }
    }

    /** The return from a trap to user mode: a process marked by do_kill exits, any other
        gives way when asked to. */
    method TrapReturn() returns (panicked: bool)
      requires Valid() && AtRest(Abs())
      modifies this
      ensures panicked <==> old(procs[current].exiting) && (old(current) == idleproc || old(current) == initproc)
      ensures panicked ==> Abs() == old(Abs())
      ensures Valid()
      ensures !panicked && old(procs[current].exiting) ==> Step(old(Abs()), EvExit(-E_KILLED, current), Abs())
      ensures !panicked && old(procs[current].exiting) ==>
                && old(current) in procs
                && procs[old(current)].state == ZOMBIE && procs[old(current)].exitCode == -E_KILLED
      ensures !old(procs[current].exiting) && old(procs[current].needResched) ==>
                Step(old(Abs()), EvResched(current), Abs())
      ensures !old(procs[current].exiting) && !old(procs[current].needResched) ==> Abs() == old(Abs())
    {
      hide Inv, Encodes, Tables, ExitStep, AtRest, Scheduled;
      CurrentKnown(Abs());
      if procs[current].exiting {
        panicked := DoExit(-E_KILLED);
        return;
      }
      panicked := false;
      ReschedIfAsked();
    }
  }

  lemma CurrentKnown(s: State)
    requires Inv(s)
    ensures s.cur in s.procs
  {
  }

  lemma UnblockKeeps(s: State)
    requires Inv(s) && s.cur != s.idle
    ensures Inv(Unblock(s)) && KidsKnown(Unblock(s)) && SamePids(s.procs, Unblock(s).procs)
    ensures forall x :: x in s.list ==> x in s.procs
  {
    UnblockInv(s);
  }

  lemma ResumeExits(s: State, next: Ptr, t: State)
    requires WellLinked(s) && s.procs[s.cur].pending.Some? && s.procs[s.cur].exiting
    requires ExitStep(s, -E_KILLED, next, t)
    ensures Step(s, EvResume(next), t)
  {
  }

  lemma ResumeWaits(s: State, next: Ptr, t: State)
    requires WellLinked(s) && s.procs[s.cur].pending.Some? && !s.procs[s.cur].exiting
    requires KidsKnown(Unblock(s)) && WaitRound(Unblock(s), s.procs[s.cur].pending.value, next, t)
    ensures Step(s, EvResume(next), t)
  {
  }

  lemma KillReady(s: State)
    requires Inv(s)
    ensures NULL !in s.list && forall x :: x in s.list ==> x in s.procs && 0 < s.procs[x].pid < MAX_PID
  {
  }

  lemma KillNone(s: State, pid: int)
    requires Inv(s) && AtRest(s) && s.cur != s.idle && forall b :: b in s.list && b in s.procs ==> s.procs[b].pid != pid
    ensures Step(s, EvKill(pid), s)
  {
    ListKnown(s);
  }

  /** find_proc finds the process do_kill means. */
  lemma KillFound(s: State, pid: int, a: Ptr)
    requires Inv(s) && AtRest(s) && s.cur != s.idle && a in s.list && a in s.procs && s.procs[a].pid == pid
    ensures Step(s, EvKill(pid), Kill(s, a)) && Inv(Kill(s, a)) && a != s.idle
    ensures SamePids(s.procs, Kill(s, a).procs) && Kill(s, a).list == s.list
    ensures s.procs[a].exiting ==> Kill(s, a) == s
    ensures Interruptible(s.procs[a].waitState) ==> s.procs[a].state != ZOMBIE
  {
    hide Inv, Kill, SamePids, AtRest;
    ListKnown(s);
    if Interruptible(s.procs[a].waitState) {
      InterruptibleAlive(s, a);
    }
    KillInv(s, a);
    KillSamePids(s, a);
    assert KillStep(s, pid, Kill(s, a));
  }

  lemma OnePid(s: State, a: Ptr)
    requires Inv(s) && a in s.list && a in s.procs
    ensures forall b :: b in s.list && b in s.procs && s.procs[b].pid == s.procs[a].pid ==> b == a
  {
    forall b | b in s.procs && b != a ensures s.procs[b].pid != s.procs[a].pid {
      assert PidsDiffer(s, a, b);
    }
  }

  lemma KillSamePids(s: State, a: Ptr)
    requires a in s.procs
    ensures SamePids(s.procs, Kill(s, a).procs) && Kill(s, a).list == s.list
    ensures s.procs[a].exiting ==> Kill(s, a) == s
  {
  }

  lemma InterruptibleAlive(s: State, a: Ptr)
    requires Inv(s) && a in s.procs && Interruptible(s.procs[a].waitState)
    ensures s.procs[a].state != ZOMBIE
  {
    assert StateOk(s.procs[a]);
  }

  lemma SetReschedKeeps(s: State)
    requires s.cur in s.procs && Inv(s)
    ensures SamePids(s.procs, SetResched(s).procs) && forall x :: x in s.list ==> x in s.procs
  {
  }

  lemma ReschedKeeps(s: State, next: Ptr, t: State)
    requires Inv(s) && Scheduled(s, next, t)
    ensures Inv(t) && SamePids(s.procs, t.procs) && t.list == s.list
    ensures forall x :: x in s.list ==> x in s.procs
  {
    ScheduledInv(s, next, t);
    ScheduledSamePids(s, next, t);
  }

  lemma WaitReady(s: State)
    requires Inv(s)
    ensures KidsKnown(s) && WaitTables(s) && NULL !in s.kids && Forest(s.kids)
    ensures forall x :: x in s.list ==> x in s.procs
  {
    ShapeForest(s);
    forall a | a in s.list && s.procs[a].parent == s.cur ensures a in s.kids[s.cur] {
      assert InParentsList(s, a);
    }
    forall a, b | a in s.list && b in s.list && s.procs[a].pid == s.procs[b].pid ensures a == b {
      assert a != b ==> PidsDiffer(s, a, b);
    }
  }

  /** What reaping needs and keeps, besides the pointer updates. */
  lemma ReapReady(s: State, c: Ptr, last: int, safe: int)
    requires Inv(s) && s.cur != s.idle && c in s.kids[s.cur] && c in s.procs && s.procs[c].state == ZOMBIE
    requires PidAlloc.StaticsOk(PidsOf(s.procs, s.list), last, safe)
    ensures Inv(Reap(s, c)) && Distinct(s.list) && c != s.cur && c in s.kids && c in s.list
    ensures s.procs[c].parent == s.cur && c != s.idle && c != s.init
    ensures PidAlloc.StaticsOk(PidsOf(Reap(s, c).procs, Reap(s, c).list), last, safe)
  {
    ReapInv(s, c);
    ListKnown(s);
    ListKnown(Reap(s, c));
    var t := Reap(s, c);
    forall p | p in PidsOf(t.procs, t.list) ensures !(last < p < safe) {
      var a := PidsOfMember(t.procs, t.list, p);
      assert a in s.list && s.procs[a].pid in PidsOf(s.procs, s.list);
    }
  }

  lemma ListKnown(s: State)
    requires Inv(s)
    ensures forall x :: x in s.list <==> x in s.procs && x != s.idle
  {
  }

  lemma SleepKeeps(s: State, w: int, next: Ptr, t: State)
    requires s.cur in s.procs && Base(Sleep(s, w)) && Scheduled(Sleep(s, w), next, t)
    ensures Inv(t) && SamePids(s.procs, t.procs) && t.list == s.list
  {
    ScheduledInv(Sleep(s, w), next, t);
    ScheduledSamePids(Sleep(s, w), next, t);
  }

  /** What do_wait relies on: the process table and the child lists name the same processes. */
  ghost predicate WaitTables(s: State)
    requires KidsKnown(s)
  {
    && NULL !in s.list
    && (forall a :: a in s.list ==> a in s.procs && 0 < s.procs[a].pid < MAX_PID)
    && (forall a, b :: a in s.list && b in s.list && s.procs[a].pid == s.procs[b].pid ==> a == b)
    && (forall a :: a in s.list && s.procs[a].parent == s.cur ==> a in s.kids[s.cur])
    && (forall c :: c in s.kids[s.cur] ==> c in s.list && s.procs[c].parent == s.cur)
  }

  /** Waiting for one pid: find_proc and the parent test select the only possible child. */
  lemma WaitByPid(s: State, w: int, a: Ptr)
    requires KidsKnown(s) && WaitTables(s) && w != 0
    requires a != NULL ==> a in s.list && s.procs[a].pid == w
    requires a == NULL ==> !(0 < w < MAX_PID) || forall b :: b in s.list ==> s.procs[b].pid != w
    ensures a != NULL && s.procs[a].parent == s.cur && s.procs[a].state == ZOMBIE ==>
              FirstZombie(s, s.kids[s.cur], w) == Some(a)
    ensures a != NULL && s.procs[a].parent == s.cur && s.procs[a].state != ZOMBIE ==>
              FirstZombie(s, s.kids[s.cur], w).None? && HasKid(s, w)
    ensures a == NULL || s.procs[a].parent != s.cur ==>
              FirstZombie(s, s.kids[s.cur], w).None? && !HasKid(s, w)
  {
    if a != NULL {
      assert Matches(s, w, a);
    }
  }

  lemma ExitKeeps(s: State, code: int, next: Ptr, t: State)
    requires CanExit(s) && Base(Exit(s, code)) && Scheduled(Exit(s, code), next, t)
    ensures ExitStep(s, code, next, t) && Inv(t) && SamePids(s.procs, t.procs) && t.list == s.list
  {
    hide Base, Inv, Exit, SamePids;
    ScheduledInv(Exit(s, code), next, t);
    ExitSamePids(s, code);
    ScheduledSamePids(Exit(s, code), next, t);
    SamePidsTrans(s.procs, Exit(s, code).procs, t.procs);
  }

  lemma SamePidsTrans(a: map<Ptr, Proc>, b: map<Ptr, Proc>, c: map<Ptr, Proc>)
    requires SamePids(a, b) && SamePids(b, c)
    ensures SamePids(a, c)
  {
  }

  lemma ScheduledSamePids(s: State, next: Ptr, t: State)
    requires s.cur in s.procs && Scheduled(s, next, t)
    ensures SamePids(s.procs, t.procs) && t.list == s.list
  {
  }

  lemma ExitSamePids(s: State, code: int)
    requires CanExit(s)
    ensures SamePids(s.procs, Exit(s, code).procs) && Exit(s, code).list == s.list
  {
    NotifySamePids(s, code);
    hide SamePids, NotifyParent, Die, AdoptAll;
    AdoptAllSamePids(NotifyParent(Die(s, code)));
    SamePidsTrans(s.procs, NotifyParent(Die(s, code)).procs, Exit(s, code).procs);
  }

  lemma NotifySamePids(s: State, code: int)
    requires CanExit(s)
    ensures var t := NotifyParent(Die(s, code));
            SamePids(s.procs, t.procs) && t.list == s.list && KidsLinked(t) && AdoptAll(t) == Exit(s, code)
  {
  }

  lemma {:induction false} AdoptAllSamePids(s: State)
    requires KidsLinked(s)
    ensures SamePids(s.procs, AdoptAll(s).procs) && AdoptAll(s).list == s.list
    decreases |s.kids[s.cur]|
  {
    if s.kids[s.cur] != [] {
      AdoptOneSamePids(s);
      AdoptAllSamePids(AdoptOne(s));
    }
  }

  /** Inside do_exit, with children still to hand over. */
  ghost predicate Exiting(s: State) {
    && Mid(s, s.cur) && s.procs[s.cur].state == ZOMBIE && KidsLinked(s)
    && s.cur != s.idle && s.cur != s.init
  }

  lemma ExitStart(s: State, code: int)
    requires Inv(s) && s.cur != s.idle && s.cur != s.init
    ensures CanExit(s) && s.procs[s.cur].parent != s.cur && NULL !in s.kids
    ensures forall x :: x in s.list ==> x in s.procs
    ensures s.procs[s.procs[s.cur].parent].waitState == WT_CHILD ==>
              s.procs[s.procs[s.cur].parent].state == SLEEPING
    ensures var t := NotifyParent(Die(s, code));
            Exiting(t) && AdoptAll(t) == Exit(s, code)
  {
    DieNotifyMid(s, code);
    assert InParentsList(s, s.cur) && YoungerThanParent(s, s.cur);
    assert StateOk(s.procs[s.procs[s.cur].parent]);
    DieNotifyStates(s, code);
  }

  lemma AdoptKeepsExiting(s: State)
    requires Exiting(s) && s.kids[s.cur] != []
    ensures KidsLinked(s) && Forest(s.kids) && NULL !in s.kids && s.procs[s.init].state != ZOMBIE
    ensures var t := AdoptOne(s);
            && Exiting(t) && AdoptAll(t) == AdoptAll(s)
            && t.cur == s.cur && t.list == s.list && |t.kids[t.cur]| < |s.kids[s.cur]|
  {
    hide AdoptOne, Forest;
    ShapeForest(s);
    AdoptOneMid(s);
    AdoptOneShrinks(s);
  }

  lemma AdoptOneShrinks(s: State)
    requires KidsLinked(s) && s.kids[s.cur] != [] && s.cur != s.init
    ensures var t := AdoptOne(s);
            && t.cur == s.cur && t.list == s.list && t.idle == s.idle && t.init == s.init
            && t.cur in t.kids && |t.kids[t.cur]| < |s.kids[s.cur]|
  {
  }

  lemma AdoptAllDone(s: State)
    requires Exiting(s) && s.kids[s.cur] == []
    ensures AdoptAll(s) == s && Base(s) && WellLinked(s)
    ensures NULL !in s.kids && Forest(s.kids)
  {
    ShapeForest(s);
  }

  lemma EncodesWeaken(links: map<Ptr, Links>, kids: map<Ptr, seq<Ptr>>, a: Ptr)
    requires Encodes(links, kids, NULL) && a in kids && NULL !in kids
    ensures Encodes(links, kids, a) && a in links
  {
    if kids[a] != [] {
      assert SiblingAt(links, kids[a], 0);
    }
  }

  lemma EncodesStrengthen(links: map<Ptr, Links>, kids: map<Ptr, seq<Ptr>>, a: Ptr)
    requires Encodes(links, kids, a) && a in kids && NULL !in kids && kids[a] == []
    ensures Encodes(links, kids, NULL)
  {
  }

  lemma CptrIsHead(links: map<Ptr, Links>, kids: map<Ptr, seq<Ptr>>, a: Ptr)
    requires Encodes(links, kids, a) && a in kids
    ensures a in links && (links[a].cptr != NULL <==> kids[a] != [])
  {
  }

  lemma AdoptOneSamePids(s: State)
    requires KidsLinked(s) && s.kids[s.cur] != []
    ensures SamePids(s.procs, AdoptOne(s).procs)
  {
  }

  lemma CurrentAwake(s: State)
    requires Inv(s)
    ensures s.procs[s.cur].waitState == 0
  {
    assert StateOk(s.procs[s.cur]);
  }

  lemma ForkReady(s: State, a: Ptr, pid: int)
    requires Inv(s) && s.cur != s.idle && a != NULL && a !in s.procs && PidFree(s, pid)
    ensures Inv(Fork(s, a, pid))
    ensures Forest(s.kids) && NULL !in s.kids && Fresh(s.kids, a)
    ensures forall x :: x in s.list ==> x in s.procs
  {
    ForkInv(s, a, pid);
    ShapeForest(s);
  }

  lemma PidsFitProcs(s: State)
    requires Shape(s) && s.nr < MAX_PROCESS
    ensures |PidsOf(s.procs, s.list)| < MAX_PROCESS
  {
  }

  lemma NewPidFree(s: State, pid: int)
    requires Shape(s) && PidAlloc.Free(PidsOf(s.procs, s.list), pid)
    ensures PidFree(s, pid)
  {
    forall a | a in s.procs ensures s.procs[a].pid != pid {
      assert a != s.idle ==> a in s.list;
    }
  }

  lemma NewTables(procs: map<Ptr, Proc>, list: seq<Ptr>, a: Ptr, q: Proc)
    requires a !in procs && forall x :: x in list ==> x in procs
    ensures PidsOf(procs[a := q], [a] + list) == [q.pid] + PidsOf(procs, list)
  {
    PidsOfFrame(procs, procs[a := q], list);
    assert ([a] + list)[1..] == list;
  }
}
