/** The page-table operations of kern/mm/pmm.c over one physical memory. */
module Mmu {
  import opened Sv39
  import opened PageTable
  import opened PageMap
  import opened PageBudget
  import opened PageCopy
  import opened Wrappers

  /** Physical memory with the page tables in it; the levels are bookkeeping for proofs. */
  class AddressSpaces {
    var m: Memory
    ghost var lv: Levels

    constructor (memory: Memory, ghost levels: Levels)
      requires Ok(memory, levels)
      ensures m == memory && lv == levels
    {
      m, lv := memory, levels;
    }

    /** alloc_page: which free frame comes is the allocator's choice. */
    method AllocPage() returns (f: Option<Frame>)
      requires Ok(m, lv)
      modifies this`m
      ensures Ok(m, lv)
      ensures f.None? ==> m == old(m) && m.free == {}
      ensures f.Some? ==> Held(m, lv) == Held(old(m), lv) + {f.value}
      ensures f.Some? ==>
                && f.value in old(m.free) && m == old(m).(free := old(m.free) - {f.value})
                && Mappable(m, lv, f.value) && m.refs[f.value] == 0
    {
      if m.free == {} {
        return None;
      }
      var g :| g in m.free;
      TakeFrame(m, lv, g);
      m := m.(free := m.free - {g});
      f := Some(g);
    }

    /** setup_pgdir: a new address space that maps nothing for the user. */
    method SetupPgdir() returns (root: Option<Frame>)
      requires Ok(m, lv)
      modifies this
      ensures Ok(m, lv) && m.data == old(m).data && KeepsWalks(old(m), old(lv), m)
      ensures Conserved(old(m), old(lv), m, lv)
      ensures root.None? <==> old(m).free == {}
      ensures root.None? ==> m == old(m) && lv == old(lv)
      ensures root.Some? ==> root.value !in old(lv) && lv == old(lv)[root.value := 2] && m.refs == old(m).refs
      ensures root.Some? ==> |m.free| == |old(m).free| - 1
      ensures root.Some? ==> FreshRoot(m, root.value)
      ensures root.Some? ==>
                && root.value in m.tables && |m.tables[root.value]| == 512 && m.tables[root.value][511] == 0x2000_00CF
                && forall i :: 0 <= i < 511 ==> m.tables[root.value][i] == 0
    {
      hide Structure, Counted, Namers, KeepsWalks, Walk, Pte, Held, HasDir;
      GrownRefl(m, lv);
      root := AllocPage();
      if root.Some? {
        NewRoot(old(m), lv, root.value);
        HeldAfterRoot(old(m), lv, root.value);
        m := m.(tables := m.tables[root.value := BootRoot()]);
        lv := lv[root.value := 2];
      }
    }

    /** free_page. */
    method FreePage(f: Frame)
      requires Ok(m, lv) && Mappable(m, lv, f) && m.refs[f] == 0
      modifies this`m
      ensures Ok(m, lv) && m == old(m).(free := old(m.free) + {f}, refs := old(m.refs)[f := 0])
      ensures Held(m, lv) == Held(old(m), lv) - {f}
    {
      ReturnFrame(m, lv, f);
      m := m.(free := m.free + {f}, refs := m.refs[f := 0]);
    }

    /** The block get_pte runs at both levels: a zeroed table linked at slot s. */
    method MakeTable(s: Slot) returns (ok: bool)
      requires Ok(m, lv) && InTable(m, s) && s.table in lv && lv[s.table] > 0 && (lv[s.table] == 2 ==> s.index < 2)
      requires !Valid(Entry(m, s))
      modifies this
      ensures Ok(m, lv) && Grown(old(m), old(lv), m, lv)
      ensures ok <==> old(m).free != {}
      ensures !ok ==> m == old(m) && lv == old(lv)
      ensures OtherWords(old(m), old(lv), s, m)
      ensures ok ==> InTable(m, s) && Valid(Entry(m, s)) && lv == old(lv)[Ppn(Entry(m, s)) := old(lv)[s.table] - 1]
      ensures ok ==>
                var t := Ppn(Entry(m, s));
                && Growable(old(m), old(lv), s, t) && m == GrowTable(old(m), s, t)
                && Entry(m, s) % 1024 == 17 && t in m.tables && m.tables[t] == Zeros() && t in m.refs && m.refs[t] == 1
                && m.free == old(m).free - {t} && |m.free| == |old(m).free| - 1
    {
      hide Structure, Counted, Namers, KeepsWalks, Entry, SetWord, GrowTable, Valid, OtherWords;
      GrownRefl(m, lv);
      TableSlot(m, lv, s);
      var page := AllocPage();
      if page.None? {
        return false;
      }
      var t := page.value;
      NewTable(old(m), lv, s, t);
      OtherWordsGrow(old(m), lv, s, t);
      GrowSteps(old(m), s, t);
      GrowFacts(old(m), s, t);
      m := m.(refs := m.refs[t := 1]);
      m := m.(tables := m.tables[t := Zeros()]);
      m := SetWord(m, s, PteCreate(t, PTE_U + PTE_V));
      lv := lv[t := lv[s.table] - 1];
      ok := true;
    }

    /** get_pte at the root: the directory for la, made if asked. */
    method OpenDir(root: Frame, la: nat, create: bool) returns (ok: bool)
      requires Ok(m, lv) && IsRoot(lv, root) && User(la)
      modifies this
      ensures Ok(m, lv) && Grown(old(m), old(lv), m, lv) && IsRoot(lv, root)
      ensures ok == HasDir(m, root, la) && (!ok ==> !create || m.free == {})
      ensures !ok || !create || HasDir(old(m), root, la) ==> m == old(m) && lv == old(lv)
      ensures ok ==>
                && Opened(old(m), old(lv), m, root, la, true, false)
                && |m.free| == |old(m).free| - (if HasDir(old(m), root, la) then 0 else 1)
    {
      hide Structure, Counted, Namers, KeepsWalks, Pte, IsTable, PointsDown, Opened, GrowTable, Walk;
      GrownRefl(m, lv);
      WalkLeaf(m, lv, root, la);
      var s1 := Slot(root, Pdx1(la));
      if !Valid(Entry(m, s1)) {
        if !create {
          return false;
        }
        ok := MakeTable(s1);
        if !ok {
          return;
        }
        GrowOpened(old(m), old(lv), s1, Ppn(Entry(m, s1)), root, la, false);
      } else {
        OpenedSame(m, lv, root, la, false);
      }
      ok := true;
    }

    /** get_pte below the directory: the leaf table for la, made if asked. */
    method OpenTable(root: Frame, la: nat, create: bool) returns (s: Option<Slot>)
      requires Ok(m, lv) && IsRoot(lv, root) && User(la) && HasDir(m, root, la)
      modifies this
      ensures Ok(m, lv) && Grown(old(m), old(lv), m, lv) && IsRoot(lv, root)
      ensures s == Walk(m, root, la) && (s.None? ==> !create || m.free == {})
      ensures s.None? || !create || HasTable(old(m), root, la) ==> m == old(m) && lv == old(lv)
      ensures s.Some? ==>
                && Opened(old(m), old(lv), m, root, la, true, true)
                && |m.free| == |old(m).free| - (if HasTable(old(m), root, la) then 0 else 1)
    {
      hide Structure, Counted, Namers, KeepsWalks, Pte, IsTable, PointsDown, Opened, GrowTable;
      GrownRefl(m, lv);
      WalkLeaf(m, lv, root, la);
      var s1 := Slot(root, Pdx1(la));
      var s0 := Slot(Ppn(Entry(m, s1)), Pdx0(la));
      if !Valid(Entry(m, s0)) {
        if !create {
          return None;
        }
        var made := MakeTable(s0);
        if !made {
          return None;
        }
        GrowOpened(old(m), old(lv), s0, Ppn(Entry(m, s0)), root, la, true);
        WalkLeaf(m, lv, root, la);
      } else {
        OpenedSame(m, lv, root, la, true);
      }
      s := Some(Slot(Ppn(Entry(m, s0)), Ptx(la)));
    }

    /** get_pte: the slot of la's leaf word. With create it fails exactly when there are fewer
        free frames than tables missing; tables made on the way, also by a call that then
        fails, move no mapping. */
    method GetPte(root: Frame, la: nat, create: bool) returns (s: Option<Slot>)
      requires Ok(m, lv) && IsRoot(lv, root) && User(la)
      modifies this
      ensures Ok(m, lv) && Grown(old(m), old(lv), m, lv) && IsRoot(lv, root)
      ensures s == Walk(m, root, la)
      ensures !create || old(Walk(m, root, la)).Some? ==> m == old(m) && lv == old(lv)
      ensures create && s.None? ==> m.free == {}
      ensures create ==> (s.Some? <==> |old(m).free| >= Missing(old(m), root, la))
      ensures create && s.Some? ==>
                Opened(old(m), old(lv), m, root, la, true, true) && |m.free| == |old(m).free| - Missing(old(m), root, la)
    {
      hide Structure, Counted, Namers, KeepsWalks, Pte, Walk, HasDir, Opened;
      SharedTables(m, root, la, la);
      var ok := OpenDir(root, la, create);
      if !ok {
        SharedTables(m, root, la, la);
        return None;
      }
      label One:
      TablesKept(old(m), old(lv), m, root, la);
      s := OpenTable(root, la, create);
      GrownTrans(old(m), old(lv), old@One(m), old@One(lv), m, lv);
      if s.Some? {
        OpenedTrans(old(m), old(lv), old@One(m), old@One(lv), m, root, la, false);
      }
    }

    /** page_remove_pte, statement by statement. */
    method PageRemovePte(s: Slot)
      requires Removable(m, s)
      modifies this`m
      ensures m == RemovedPte(old(m), s)
    {
      if Valid(Entry(m, s)) {
        var page := Ppn(Entry(m, s));
        m := m.(refs := m.refs[page := m.refs[page] - 1]);
        if m.refs[page] == 0 {
          m := m.(free := m.free + {page});
        }
        m := SetWord(m, s, 0);
      }
    }

    /** page_remove: the page of la is unmapped, its frame freed exactly when that was the
        last entry naming it, and no other mapping moves. */
    method PageRemove(root: Frame, la: nat)
      requires Ok(m, lv) && IsRoot(lv, root) && User(la)
      modifies this
      ensures Ok(m, lv) && lv == old(lv) && m.data == old(m).data && FreedExactly(old(m), lv, m)
      ensures OnlyPageOrNone(old(m), lv, m, root, la) && Conserved(old(m), lv, m, lv)
    {
      hide Structure, Counted, Namers, Walk, Pte;
      RemovePage(m, lv, root, la);
      var s := GetPte(root, la, false);
      if s.Some? {
        PageRemovePte(s.value);
      }
      HeldAfterFreeing(old(m), lv, m);
    }

    /** page_insert: the page of la maps to `page`, and the frame mapped there before loses
        one reference; on failure no mapping moves. */
    method PageInsert(page: Frame, root: Frame, la: nat, perm: nat) returns (ok: bool)
      requires Ok(m, lv) && IsRoot(lv, root) && User(la) && Mappable(m, lv, page) && perm < 1024
      modifies this
      ensures Ok(m, lv)
      ensures ok ==> Inserted(old(m), old(lv), m, lv, root, la, page, perm)
      ensures !ok ==> Grown(old(m), old(lv), m, lv) && m.free == {}
      ensures ok <==> |old(m).free| >= Missing(old(m), root, la)
      ensures ok ==>
                && Opened(old(m), old(lv), m, root, la, true, true)
                && |m.free| == |old(m).free| - Missing(old(m), root, la) + ReturnedFor(old(m), root, la, page)
      ensures old(Walk(m, root, la)).Some? ==> ok && lv == old(lv)
      ensures m.refs.Keys == old(m).refs.Keys && Held(m, lv) == Held(old(m), old(lv)) - (if ok then {page} else {})
    {
      hide Structure, Counted, Namers, Walk, Pte, InsertedPte, Inserted, KeepsWalks, Opened, Missing, ReturnedFor;
      var s := GetPte(root, la, true);
      if s.None? {
        HeldAfterGrowth(old(m), old(lv), m, lv);
        return false;
      }
      InsertAfterGrowth(old(m), old(lv), m, lv, root, la, s.value, page, perm);
      InsertSpends(old(m), old(lv), m, lv, root, la, s.value, page, perm);
      ghost var goal := InsertedPte(m, s.value, page, perm);
      WriteInsert(s.value, page, perm);
      HeldAfterInsert(old(m), old(lv), m, lv, root, la, page, perm);
      ok := true;
    }

    /** page_insert after its get_pte. */
    method WriteInsert(s: Slot, page: Frame, perm: nat)
      requires Removable(m, s) && page in m.refs && perm < 1024
      modifies this`m
      ensures m == InsertedPte(old(m), s, page, perm)
    {
      m := m.(refs := m.refs[page := m.refs[page] + 1]);
      if Valid(Entry(m, s)) {
        if Ppn(Entry(m, s)) == page {
          m := m.(refs := m.refs[page := m.refs[page] - 1]);
        } else {
          PageRemovePte(s);
        }
      }
      m := SetWord(m, s, PteCreate(page, perm));
    }

    /** pgdir_alloc_page: a fresh frame, referenced once, behind the page of la; its
        internal assertion holds. It fails exactly when there are fewer free frames than the
        page and the missing tables take, and then no mapping moves. */
    method PgdirAllocPage(root: Frame, la: nat, perm: nat) returns (f: Option<Frame>)
      requires Ok(m, lv) && IsRoot(lv, root) && User(la) && perm < 1024
      modifies this
      ensures Ok(m, lv) && m.data == old(m).data && KeepsRoots(old(lv), lv)
      ensures f.None? <==> |old(m).free| < 1 + Missing(old(m), root, la)
      ensures f.Some? ==> FramePut(old(m), old(lv), m, lv, root, la, f.value, PteCreate(f.value, perm))
      ensures f.Some? ==> HasBytes(m, f.value)
      ensures f.None? ==> KeepsWalks(old(m), old(lv), m)
      ensures Conserved(old(m), old(lv), m, lv)
    {
      hide Structure, Counted, Namers, Walk, Pte, Opened, Missing, PtesInserted, HasDir, HasTable, KeepsWalks,
           FramePut, Inserted, Held, ReturnedFor, Grown;
      GrownRefl(m, lv);
      var page := AllocPage();
      if page.None? {
        return None;
      }
      label Taken:
      NotHeld(old(m), lv, page.value);
      MissingTables(old(m), m, root, la);
      var ok := PageInsert(page.value, root, la, perm);
      if !ok {
        GrownMappable(old@Taken(m), old(lv), m, lv, page.value);
        label Failed:
        FreePage(page.value);
        PageReturned(old(m), old@Taken(m), old(lv), old@Failed(m), m, lv, page.value);
        return None;
      }
      InsertedKeeps(old@Taken(m), old(lv), m, lv, root, la, page.value, perm);
      PutFresh(old(m), old(lv), old(m), old(lv), old@Taken(m), m, lv, root, la, page.value, perm);
      f := page;
      assert m.refs[page.value] == 1;
    }

    /** unmap_range: no page of the range stays mapped, nothing else moves, and every frame
        whose last entry went is free again. The 2 MB steps skip no mapping. */
    method UnmapRange(root: Frame, start: nat, end: nat)
      requires Ok(m, lv) && IsRoot(lv, root) && UserAccess(start, end)
      requires start % PGSIZE == 0 && end % PGSIZE == 0
      modifies this
      ensures Ok(m, lv) && lv == old(lv) && m.data == old(m).data && FreedExactly(old(m), lv, m)
      ensures UnmappedRange(old(m), lv, m, root, start, end) && Conserved(old(m), lv, m, lv) && SameDirs(old(m), m, lv)
    {
      hide Ok, Walk, Unmapping, FreedExactly, UnmappedRange, OnlyPageOrNone, Conserved, SameDirs, NextTable;
      UnmappingStart(m, lv, root, start);
      var at := start;
      while at != 0 && at < end
        invariant lv == old(lv) && start <= at && at % PGSIZE == 0
        invariant Unmapping(old(m), lv, m, root, start, Min(at, end))
        decreases end - at
      {
        ghost var before := m;
        UnmappingOk(old(m), lv, m, root, start, Min(at, end));
        NextTableBounds(at, at);
        var ptep := GetPte(root, at, false);
        if ptep.None? {
          UnmappingSkip(old(m), m, lv, root, start, at, end);
          at := NextTable(at);
          continue;
        }
        UnmapPage(root, at, ptep.value);
        UnmappingStep(old(m), before, lv, m, root, start, at, end);
        at := at + PGSIZE;
      }
      UnmappingOk(old(m), lv, m, root, start, Min(at, end));
      HeldAfterFreeing(old(m), lv, m);
    }

    /** The body of unmap_range where there is a leaf word. */
    method UnmapPage(root: Frame, at: nat, ptep: Slot)
      requires Ok(m, lv) && IsRoot(lv, root) && User(at) && Walk(m, root, at) == Some(ptep)
      modifies this`m
      ensures Ok(m, lv) && m.data == old(m).data && FreedExactly(old(m), lv, m)
      ensures OnlyPageOrNone(old(m), lv, m, root, at) && SameDirs(old(m), m, lv)
    {
      hide Structure, Counted, Walk, Pte, RemovedPte, FreedExactly, OnlyPageOrNone, SameDirs;
      RemovePage(m, lv, root, at);
      PageOf(m, lv, root, at);
      RemoveSameDirs(m, lv, root, at);
      SameDirsRefl(m, lv);
      RemoveNothing(m, lv);
      if Entry(m, ptep) != 0 {
        PageRemovePte(ptep);
      } else {
        StaysOnly(m, lv, root, at);
      }
    }

    /** copy_range: on success every page the parent maps in the range is mapped in the child
        as a private copy, and nothing else the child maps moved. Whatever the outcome, no
        other address space changes. The outcome is decided by the frames: the error code at
        the first page short of a table, the failed assertion at the first page short of just
        itself. The account may have begun earlier, at memory z with pages s mapped since. */
    method CopyRange(to: Frame, from: Frame, start: nat, end: nat, ghost z: Memory, ghost s: seq<nat>)
      returns (out: Outcome)
      requires Ok(m, lv) && IsRoot(lv, to) && IsRoot(lv, from) && to != from && UserAccess(start, end)
      requires start % PGSIZE == 0 && end % PGSIZE == 0 && Ledger(z, m, to, s)
      modifies this
      ensures Ok(m, lv) && KeepsRoots(old(lv), lv)
      ensures forall q :: IsRoot(old(lv), q) && q != to ==> SameSpace(old(m), m, q)
      ensures out == Done ==> CopiedRange(old(m), m, from, to, start, end)
      ensures out != Done ==> m.free == {} && OutsideKept(old(m), m, to, start, end)
      ensures Conserved(old(m), old(lv), m, lv)
      ensures var ps := MappedPages(old(m), from, start / PGSIZE, end / PGSIZE);
              out == Verdict(z, to, s, ps) && (out == Done ==> Ledger(z, m, to, s + ps))
    {
      hide Ok, Walk, Pte, SameSpace, CopiedRange, Ledger, Verdict, MappedPages, FramePut, Missing, Conserved, OutsideKept,
           Copying, NextTable;
      CopyingStart(m, lv, from, to, start, end, z, s);
      var at := start;
      ghost var cur: seq<nat> := s;
      while at != 0 && at < end
        invariant start <= at && at % PGSIZE == 0
        invariant Copying(old(m), old(lv), m, lv, from, to, start, at, end, z, s, cur)
        decreases end - at
      {
        ghost var before, blv := m, lv;
        CopyingEnds(old(m), old(lv), m, lv, from, to, start, at, end, z, s, cur);
        NextTableBounds(at, at);
        var ptep := GetPte(from, at, false);
        PageOf(m, lv, from, at);
        if ptep.None? {
          CopyingSkip(old(m), old(lv), m, lv, from, to, start, at, end, z, s, cur);
          at := NextTable(at);
          continue;
        }
        if Valid(Entry(m, ptep.value)) {
          CopyingValid(old(m), old(lv), m, lv, from, to, start, at, end, z, s, cur);
          out := CopyPage(to, from, at, ptep.value, old(m), old(lv), start);
          if out != Done {
            ConservedTrans(old(m), old(lv), before, blv, m, lv);
            OutsideWiden(old(m), m, to, start, at, end);
            return;
          }
          CopyingStep(old(m), old(lv), before, blv, m, lv, from, to, start, at, end, z, s, cur);
          cur := cur + [at / PGSIZE];
        } else {
          CopyingInvalid(old(m), old(lv), m, lv, from, to, start, at, end, z, s, cur);
        }
        at := at + PGSIZE;
      }
      CopyingEnds(old(m), old(lv), m, lv, from, to, start, at, end, z, s, cur);
      out := Done;
    }

    /** The body of copy_range for one valid entry; the state z is the one copy_range began in. */
    method CopyPage(to: Frame, from: Frame, at: nat, ptep: Slot, ghost z: Memory, ghost zlv: Levels,
                    ghost start: nat) returns (out: Outcome)
      requires Ok(m, lv) && IsRoot(lv, to) && IsRoot(lv, from) && to != from && User(at) && KeepsRoots(zlv, lv)
      requires IsRoot(zlv, from)
      requires Walk(m, from, at) == Some(ptep) && InTable(m, ptep) && Valid(Entry(m, ptep))
      requires forall q :: IsRoot(zlv, q) && q != to ==> SameSpace(z, m, q)
      requires start <= at && at % PGSIZE == 0 && CopiedRange(z, m, from, to, start, at)
      modifies this
      ensures Ok(m, lv) && KeepsRoots(zlv, lv)
      ensures forall q :: IsRoot(zlv, q) && q != to ==> SameSpace(z, m, q)
      ensures out == Done ==> CopiedRange(z, m, from, to, start, at + PGSIZE)
      ensures out != Done ==> m.free == {} && OutsideKept(z, m, to, start, at)
      ensures Conserved(old(m), old(lv), m, lv)
      ensures var need := Missing(old(m), to, at);
              && (out == NoMem <==> |old(m).free| < need)
              && (out == Panic <==> |old(m).free| == need)
              && (out == Done <==> |old(m).free| > need)
      ensures out == Done ==> exists f, w :: FramePut(old(m), old(lv), m, lv, to, at, f, w)
    {
      hide Structure, Counted, Namers, Walk, Pte, SameSpace, CopiedRange, CopyStep, Inserted, Missing, Opened, Held,
           ReturnedFor, KeepsWalks, OutsideKept;
      var nptep := GetPte(to, at, true);
      HeldAfterGrowth(old(m), old(lv), m, lv);
      GrownSpaces(z, old(m), old(lv), m, lv, zlv, to);
      CopyStops(z, old(m), old(lv), m, lv, from, to, start, at);
      if nptep.None? {
        return NoMem;
      }
      ghost var g, glv := m, lv;
      PageOf(old(m), old(lv), from, at);
      PageOf(m, lv, from, at);
      GrownPte(old(m), old(lv), m, lv, from, at);
      var perm := UserBits(Entry(m, ptep));
      var page := Ppn(Entry(m, ptep));
      var npage := AllocPage();
      if npage.None? {
        return Panic;
      }
      NotHeld(g, glv, npage.value);
      FillFrame(m, lv, npage.value, m.data[page]);
      m := m.(data := m.data[npage.value := m.data[page]]);
      ghost var t := m;
      MissingTables(g, t, to, at);
      NothingMissing(g, to, at);
      SameTables(g, m);
      var ok := PageInsert(npage.value, to, at, perm);
      assert ok;
      StepFrom(old(m), old(lv), g, lv, m, to, at, page, npage.value, perm);
      CopyExtends(z, old(m), old(lv), m, lv, from, to, start, at, npage.value);
      StepSpaces(z, old(m), old(lv), m, lv, zlv, to, at, page, npage.value, perm);
      PutFresh(old(m), old(lv), g, glv, t, m, lv, to, at, npage.value, perm);
      out := Done;
    }
  }

  // ----- a fork that stops at the assertion -----

  function FrameSet(n: nat): (s: set<Frame>)
    ensures forall f :: f in s <==> 0 <= f < n
    ensures |s| == n
  {
    if n == 0 then {} else FrameSet(n - 1) + {n - 1}
  }

  function ZeroPage(): (p: seq<nat>)
    ensures |p| == PGSIZE
  {
    seq(PGSIZE, _ => 0)
  }

  /** A memory of n frames with nothing in use. */
  function NewMemory(n: nat): (m: Memory)
    ensures Ok(m, map[]) && |m.free| == n
  {
    var frames := FrameSet(n);
    var m := Memory(map[], map f | f in frames :: 0, frames, map f | f in frames :: ZeroPage());
    StartOk(m);
    m
  }

  /** With seven frames, a parent with one page and a new child, copy_range has two frames
      left: both become tables, and the page itself fails the assertion. */
  method CopyPanics() returns (out: Outcome)
    ensures out == Panic
  {
    hide Structure, Counted, Namers, Walk, Pte, Ledger, Conserved, NewMemory, PtesInserted, Opened;
    var s := new AddressSpaces(NewMemory(7), map[]);
    var from := s.SetupPgdir();
    ghost var m1, lv1 := s.m, s.lv;
    assert IsRoot(s.lv, from.value);
    FreshMissing(s.m, from.value, USERBASE);
    var page := s.PgdirAllocPage(from.value, USERBASE, PTE_USER);
    FreshPut(m1, lv1, s.m, s.lv, from.value, page.value);
    ghost var m2, lv2 := s.m, s.lv;
    var to := s.SetupPgdir();
    GrownWord(m2, lv2, s.m, from.value, USERBASE);
    FreshMissing(s.m, to.value, USERBASE);
    LedgerStart(s.m, s.lv, to.value);
    OnePage(s.m, from.value);
    VerdictNext(s.m, s.m, to.value, [], [USERBASE / PGSIZE]);
    out := s.CopyRange(to.value, from.value, USERBASE, USERBASE + PGSIZE, s.m, []);
  }

  lemma FreshMissing(m: Memory, root: Frame, la: nat)
    ensures !HasDir(m, root, la) ==> Missing(m, root, la) == 2
    ensures Pte(m, root, la) == 0 ==> Returned(m, root, la) == 0
  {
  }

  lemma FreshPut(m: Memory, lv: Levels, n: Memory, nlv: Levels, root: Frame, f: Frame)
    requires FramePut(m, lv, n, nlv, root, USERBASE, f, PteCreate(f, PTE_USER)) && IsRoot(lv, root)
    requires Missing(m, root, USERBASE) == 2 && Returned(m, root, USERBASE) == 0
    ensures |n.free| == |m.free| - 3 && IsRoot(nlv, root) && Valid(Pte(n, root, USERBASE))
  {
    hide Pte, Walk, Opened;
    assert Pte(n, root, USERBASE) == PteCreate(f, PTE_USER);
  }

  lemma GrownWord(m: Memory, lv: Levels, n: Memory, q: Frame, lb: nat)
    requires KeepsWalks(m, lv, n) && IsRoot(lv, q) && User(lb)
    ensures Pte(n, q, lb) == Pte(m, q, lb)
  {
    hide Pte, Walk;
    assert Pte(n, q, lb) == Pte(n, q, lb);
  }

  lemma OnePage(m: Memory, from: Frame)
    requires Valid(Pte(m, from, USERBASE))
    ensures MappedPages(m, from, USERBASE / PGSIZE, (USERBASE + PGSIZE) / PGSIZE) == [USERBASE / PGSIZE]
  {
    hide Pte;
    assert Addr(USERBASE / PGSIZE) == USERBASE;
  }
}
