/** copy_mm and do_exit's teardown of an address space together: what a fork that fails, or a
    child that exits, leaves behind. */
module Fork {
  import opened Sv39
  import opened PageTable
  import opened PageMap
  import opened PageCopy
  import opened PageBudget
  import opened PageRefs
  import opened Mmu
  import opened Vmm
  import opened PageExit
  import opened Wrappers

  /** Every frame that is no table before, and neither a table nor lost after, has the
      reference count it had and is free exactly if it was. */
  ghost predicate Restored(z: Memory, zlv: Levels, o: Memory, olv: Levels, lost: set<Frame>) {
    forall d {:trigger d in o.refs} :: d in z.refs && d !in zlv && d !in olv && d !in lost ==>
      d in o.refs && o.refs[d] == z.refs[d] && (d in o.free <==> d in z.free)
  }

  lemma RestoredRefl(m: Memory, lv: Levels)
    ensures Restored(m, lv, m, lv, {})
  {
  }

  /** With every old address space as it was and nothing mapped in the new one, frames that are
      no tables are as they were. */
  lemma RestoredBy(z: Memory, zlv: Levels, o: Memory, olv: Levels, to: Frame)
    requires Ok(z, zlv) && Ok(o, olv) && !IsRoot(zlv, to) && Conserved(z, zlv, o, olv)
    requires forall q :: IsRoot(olv, q) <==> IsRoot(zlv, q) || q == to
    requires forall q :: IsRoot(zlv, q) ==> SameSpace(z, o, q)
    requires Bare(o, to)
    ensures Restored(z, zlv, o, olv, {})
  {
    hide Structure, Counted, Pte, Walk, SameSpace, Mappings;
    forall d | d in z.refs && d !in zlv && d !in olv
      ensures d in o.refs && o.refs[d] == z.refs[d] && (d in o.free <==> d in z.free)
    {
      forall x ensures x in Mappings(o, olv, d) <==> x in Mappings(z, zlv, d) {
        IsMapping(o, olv, d, x);
        IsMapping(z, zlv, d, x);
        if IsRoot(zlv, x.root) && x.page < USER_PAGES {
          SameWord(z, o, x.root, x.page * PGSIZE);
        }
      }
      assert Mappings(o, olv, d) == Mappings(z, zlv, d);
      CountsAreMappings(o, olv, d);
      CountsAreMappings(z, zlv, d);
      assert d in Held(o, olv) <==> d in Held(z, zlv);
    }
  }

  /** A frame that became a table was free. */
  lemma WasFree(z: Memory, zlv: Levels, o: Memory, olv: Levels, d: Frame)
    requires Ok(z, zlv) && Ok(o, olv) && Conserved(z, zlv, o, olv)
    requires forall q :: IsRoot(zlv, q) ==> IsRoot(olv, q) && SameSpace(z, o, q)
    requires d in z.refs && d !in zlv && d in olv
    ensures d in z.free && z.refs[d] == 0
  {
    hide Structure, Counted, Pte, Walk, SameSpace, Mappings;
    forall x ensures x !in Mappings(z, zlv, d) {
      IsMapping(z, zlv, d, x);
      if IsRoot(zlv, x.root) && x.page < USER_PAGES {
        SameWord(z, o, x.root, x.page * PGSIZE);
        PageOf(o, olv, x.root, x.page * PGSIZE);
      }
    }
    assert Mappings(z, zlv, d) == {};
    CountsAreMappings(z, zlv, d);
    assert d !in Held(o, olv);
  }

  lemma FreeCount(m: Memory, lv: Levels, lost: set<Frame>, d: Frame)
    requires Accounted(m, lv, lost) && d in m.free && d in m.refs && d !in lv && d !in lost
    ensures m.refs[d] == 0
  {
    hide Namers;
    assert forall f :: f in lv ==> IsTable(m, lv, f);
    forall r ensures r !in Namers(m, lv, d) {
      NamersIs(m, lv, d, r);
      assert LeafSlot(m, lv, r) ==> PointsToData(m, lv, r);
    }
    assert Namers(m, lv, d) == {};
  }

  /** The tables of the new address space go back too, unless they are lost: o is memory with
      nothing mapped in it, f memory without it. */
  lemma TablesBack(z: Memory, zlv: Levels, o: Memory, olv: Levels, f: Memory, flv: Levels, lost: set<Frame>)
    requires Ok(z, zlv) && Ok(o, olv) && Conserved(z, zlv, o, olv) && Restored(z, zlv, o, olv, {})
    requires forall q :: IsRoot(zlv, q) ==> IsRoot(olv, q) && SameSpace(z, o, q)
    requires Accounted(f, flv, lost) && FreedTables(o, olv, f, flv, lost)
    ensures Restored(z, zlv, f, flv, lost)
  {
    hide Accounted, Structure, Counted, SameSpace, Held;
    forall d | d in z.refs && d !in zlv && d !in flv && d !in lost
      ensures d in f.refs && f.refs[d] == z.refs[d] && (d in f.free <==> d in z.free)
    {
      assert d in o.refs;
      if d in olv {
        WasFree(z, zlv, o, olv, d);
        FreeCount(f, flv, lost, d);
      }
    }
  }

  lemma BareFrom(g: Memory, n: Memory, lv: Levels, o: Memory, to: Frame, s: seq<Vma>)
    requires FreshRoot(g, to) && OnlyIn(g, n, to, s) && UnmappedAreas(n, lv, o, to, s) && IsRoot(lv, to)
    ensures Bare(o, to)
  {
    hide Pte, HasDir;
    forall lb: nat | User(lb) ensures !Valid(Pte(o, to, lb)) {
      assert Pte(g, to, lb) == 0;
      assert Pte(n, to, lb) == Pte(n, to, lb) && Pte(o, to, lb) == Pte(o, to, lb);
    }
  }

  /** From z through n, a memory with one address space more, the areas of that one unmapped. */
  lemma Undone(z: Memory, zlv: Levels, n: Memory, o: Memory, lv: Levels, to: Frame, s: seq<Vma>)
    requires Ok(z, zlv) && Ok(n, lv) && Ok(o, lv) && !IsRoot(zlv, to)
    requires forall q :: IsRoot(lv, q) <==> IsRoot(zlv, q) || q == to
    requires forall q :: IsRoot(zlv, q) ==> SameSpace(z, n, q)
    requires UnmappedAreas(n, lv, o, to, s) && o.data == n.data && Bare(o, to)
    requires Conserved(z, zlv, n, lv) && Conserved(n, lv, o, lv)
    ensures Restored(z, zlv, o, lv, {}) && Conserved(z, zlv, o, lv)
    ensures forall q :: IsRoot(zlv, q) ==> SameSpace(z, o, q)
  {
    hide Structure, Counted, SameSpace, Restored, Bare;
    UnmappedSpaces(n, lv, o, to, s);
    forall q | IsRoot(zlv, q) ensures SameSpace(z, o, q) {
      SpaceTrans(z, n, o, q);
    }
    RestoredBy(z, zlv, o, lv, to);
  }

  /** exit_mmap and put_pgdir of a child, seen from the memory z before its fork: frames and
      counts are as they were, but for tables lost; none is lost exactly when the areas are
      Clean. */
  method ExitChild(s: AddressSpaces, child: Mm, from: Frame, ghost z: Memory, ghost zlv: Levels)
    returns (ghost lost: set<Frame>)
    requires Ok(z, zlv) && Ok(s.m, s.lv) && UserAreas(child.vmas) && !IsRoot(zlv, child.pgdir)
    requires forall q :: IsRoot(s.lv, q) <==> IsRoot(zlv, q) || q == child.pgdir
    requires forall q :: IsRoot(zlv, q) ==> SameSpace(z, s.m, q)
    requires Forked(z, s.m, from, child.pgdir, child.vmas) && Conserved(z, zlv, s.m, s.lv)
    modifies s
    ensures Accounted(s.m, s.lv, lost) && Restored(z, zlv, s.m, s.lv, lost)
    ensures lost == {} <==> forall k: nat :: k < 2 ==>
              var g := RegionOf(old(s.m), child.pgdir, k); g.dir ==> Clean(g, k, child.vmas)
    ensures forall q :: IsRoot(zlv, q) ==> IsRoot(s.lv, q) && SameSpace(z, s.m, q)
  {
    hide Structure, Counted, Bare, Clean, RegionOf, TablesOf, SameSpace, UnmappedAreas, MapsInside, Accounted, SameDirs,
         Conserved, FreedExactly, FreedTables, Restored, Forked;
    ghost var n, lv, to := s.m, s.lv, child.pgdir;
    ForkedInside(z, n, from, to, child.vmas);
    ExitMmap(s, child);
    BareAfter(n, lv, s.m, to, child.vmas);
    RegionsKept(n, lv, s.m, to, 0);
    RegionsKept(n, lv, s.m, to, 1);
    Undone(z, zlv, n, s.m, lv, to, child.vmas);
    ghost var o := s.m;
    lost := FreeSpace(s, child);
    TablesBack(z, zlv, o, lv, s.m, s.lv, lost);
    forall q | IsRoot(zlv, q) ensures SameSpace(z, s.m, q) {
      SpaceTrans(z, o, s.m, q);
    }
  }

  // ----- copy_mm -----

  /** How copy_mm without sharing ends: the root takes one frame, and dup_mmap goes on with
      the rest. */
  ghost function ForkOutcome(m: Memory, from: Frame, areas: seq<Vma>, created: bool, room: nat): Outcome {
    if !created || m.free == {} then NoMem else CopyOutcome(m, from, areas, room, |m.free| - 1)
  }

  /** It succeeds exactly when there are an mm_struct, vma_structs for the areas and frames for
      the root, the pages and their tables. */
  lemma ForkDoneIff(m: Memory, from: Frame, areas: seq<Vma>, created: bool, room: nat)
    ensures ForkOutcome(m, from, areas, created, room) == Done <==>
              created && room >= |areas| && |m.free| >= 1 + ForkFrames(m, from, areas)
  {
  }

  /** copy_mm. A kernel thread has no address space, and CLONE_VM (`share`) shares the parent's.
      Otherwise the child gets, on success, the parent's areas, private copies of all the
      parent maps in them, and no other page; no existing address space changes. The outcome is
      ForkOutcome; `created` says that there is an mm_struct. When it fails with the error code,
      all frames are as before, but for tables that exit_range loses. */
  method CopyMm(s: AddressSpaces, from: Mm?, share: bool, created: bool, room: nat)
    returns (out: Outcome, mm: Mm?, ghost lost: set<Frame>)
    requires Ok(s.m, s.lv)
    requires from != null ==> from.Valid() && UserAreas(from.vmas) && IsRoot(s.lv, from.pgdir)
    modifies s
    ensures Accounted(s.m, s.lv, lost) && (lost == {} ==> Ok(s.m, s.lv)) && (out != NoMem ==> lost == {})
    ensures out != NoMem ==> Conserved(old(s.m), old(s.lv), s.m, s.lv)
    ensures out == NoMem ==> Restored(old(s.m), old(s.lv), s.m, s.lv, lost)
    ensures forall q :: IsRoot(old(s.lv), q) ==> IsRoot(s.lv, q) && SameSpace(old(s.m), s.m, q)
    ensures from == null || share ==> out == Done && mm == from && s.m == old(s.m) && s.lv == old(s.lv)
    ensures from != null && !share ==> out == ForkOutcome(old(s.m), from.pgdir, from.vmas, created, room)
    ensures from != null && !share && out == Done ==>
              && mm != null && fresh(mm) && mm.Valid() && IsRoot(s.lv, mm.pgdir) && !IsRoot(old(s.lv), mm.pgdir)
              && (forall q :: IsRoot(s.lv, q) <==> IsRoot(old(s.lv), q) || q == mm.pgdir)
              && mm.vmas == from.vmas && Forked(old(s.m), s.m, from.pgdir, mm.pgdir, from.vmas)
  {
    hide Restored, CopyOutcome, DupVerdict, Duplicated, SameSpace, Structure, Counted, Namers, KeepsWalks, Forked,
         Held, OnlyIn, FreshRoot, Sorted, UserAreas, UnmappedAreas, FreedExactly, Accounted, Bare, FreedTables, SameDirs,
         Clean, RegionOf, TablesOf;
    SameSpaces(s.m, s.lv);
    NothingLost(s.m, s.lv);
    RestoredRefl(s.m, s.lv);
    ghost var z, zlv := s.m, s.lv;
    lost := {};
    if from == null || share {
      return Done, from, {};
    }
    if !created {
      return NoMem, null, {};
    }
    var root := s.SetupPgdir();
    if root.None? {
      return NoMem, null, {};
    }
    RootSpaces(z, zlv, s.m);
    ghost var g := s.m;
    var child := new Mm(root.value);
    assert child.pgdir != from.pgdir;
    assert UserAreas(child.vmas) by { NoUserAreas(); }
    out := DupMmap(s, child, from, room);
    SpacesTrans(z, g, s.m, zlv, root.value);
    ForkVerdict(z, g, from.pgdir, root.value, from.vmas, room);
    NothingLost(s.m, s.lv);
    mm := child;
    if out == Done {
      ForkedFrom(z, zlv, g, s.m, from.pgdir, root.value, from.vmas);
    }
    if out == NoMem {
      lost := GiveUp(s, child, z, zlv, g);
      NothingLost(s.m, s.lv);
      mm := null;
    }
  }

  /** bad_dup_cleanup_mmap: exit_mmap and put_pgdir of a child that has been copied in part. */
  method GiveUp(s: AddressSpaces, child: Mm, ghost z: Memory, ghost zlv: Levels, ghost g: Memory)
    returns (ghost lost: set<Frame>)
    requires Ok(z, zlv) && Ok(s.m, s.lv) && UserAreas(child.vmas) && !IsRoot(zlv, child.pgdir)
    requires forall q :: IsRoot(s.lv, q) <==> IsRoot(zlv, q) || q == child.pgdir
    requires forall q :: IsRoot(zlv, q) ==> SameSpace(z, s.m, q)
    requires FreshRoot(g, child.pgdir) && OnlyIn(g, s.m, child.pgdir, child.vmas) && Conserved(z, zlv, s.m, s.lv)
    modifies s
    ensures Accounted(s.m, s.lv, lost) && Restored(z, zlv, s.m, s.lv, lost)
    ensures forall q :: IsRoot(zlv, q) ==> IsRoot(s.lv, q) && SameSpace(z, s.m, q)
  {
    hide Structure, Counted, Bare, Clean, RegionOf, TablesOf, SameSpace, UnmappedAreas, Accounted, SameDirs, OnlyIn,
         FreshRoot, Conserved, FreedExactly, FreedTables, Restored;
    ghost var n, lv, to := s.m, s.lv, child.pgdir;
    ExitMmap(s, child);
    BareFrom(g, n, lv, s.m, to, child.vmas);
    Undone(z, zlv, n, s.m, lv, to, child.vmas);
    ghost var o := s.m;
    lost := FreeSpace(s, child);
    TablesBack(z, zlv, o, lv, s.m, s.lv, lost);
    forall q | IsRoot(zlv, q) ensures SameSpace(z, s.m, q) {
      SpaceTrans(z, o, s.m, q);
    }
  }

  lemma NoUserAreas()
    ensures UserAreas([])
  {
  }
}
