/** What user code sees of an address space, and what unmapping and copying pages do to it:
    the reasoning behind the operations of module Mmu. */
module PageCopy {
  import opened Sv39
  import opened PageTable
  import opened PageMap
  import opened PageBudget
  import opened Wrappers

  /** Everything user code in root q can see is the same in n: mappings and page contents. */
  ghost predicate SameSpace(m: Memory, n: Memory, q: Frame) {
    forall lb: nat {:trigger Pte(n, q, lb)} :: User(lb) ==> SameAt(m, n, q, lb)
  }

  predicate SameAt(m: Memory, n: Memory, q: Frame, lb: nat) {
    && Pte(n, q, lb) == Pte(m, q, lb)
    && (Valid(Pte(m, q, lb)) ==>
          var d := Ppn(Pte(m, q, lb));
          d in m.data && d in n.data && n.data[d] == m.data[d])
  }

  /** The page of lb in root `to` is a private copy of the one in root `from`: same user
      bits, same contents, a frame of its own that nothing else names. */
  predicate Copied(m: Memory, n: Memory, from: Frame, to: Frame, lb: nat) {
    var p, c := Pte(m, from, lb), Pte(n, to, lb);
    Valid(p) ==>
      && Valid(c) && Flags(c) == UserBits(p) && Ppn(c) != Ppn(p)
      && Ppn(c) in n.refs && n.refs[Ppn(c)] == 1
      && Ppn(p) in m.data && Ppn(c) in n.data && n.data[Ppn(c)] == m.data[Ppn(p)]
  }

  /** The page of lb in root q is as it was, and still private if it was. */
  predicate Kept(m: Memory, n: Memory, q: Frame, lb: nat) {
    && SameAt(m, n, q, lb)
    && (Valid(Pte(m, q, lb)) ==>
          var d := Ppn(Pte(m, q, lb));
          d in m.refs && d in n.refs && (m.refs[d] == 1 ==> n.refs[d] == 1))
  }

  lemma KeptCopy(z: Memory, m: Memory, n: Memory, from: Frame, to: Frame, lb: nat)
    requires Copied(z, m, from, to, lb) && Kept(m, n, to, lb)
    ensures Copied(z, n, from, to, lb)
  {
  }

  lemma KeptTrans(m: Memory, n: Memory, o: Memory, q: Frame, lb: nat)
    requires Kept(m, n, q, lb) && Kept(n, o, q, lb)
    ensures Kept(m, o, q, lb)
  {
  }

  lemma KeptRefl(m: Memory, lv: Levels, q: Frame, lb: nat)
    requires Ok(m, lv) && IsRoot(lv, q) && User(lb)
    ensures Kept(m, m, q, lb)
  {
    PageOf(m, lv, q, lb);
  }

  /** A page is unmapped; an entry that was not valid stays. */
  predicate Unmapped(m: Memory, n: Memory, root: Frame, lb: nat) {
    Pte(n, root, lb) == if Valid(Pte(m, root, lb)) then 0 else Pte(m, root, lb)
  }

  lemma HeldAfterGrowth(m: Memory, lv: Levels, n: Memory, nlv: Levels)
    requires Ok(m, lv) && Grown(m, lv, n, nlv)
    ensures Conserved(m, lv, n, nlv)
  {
    hide Structure, Counted, KeepsWalks;
    assert forall f :: f in nlv <==> f in nlv.Keys;
  }

  lemma HeldAfterRoot(m: Memory, lv: Levels, t: Frame)
    requires Ok(m, lv) && t in m.free
    ensures t !in lv && Conserved(m, lv, AddRoot(m, t), lv[t := 2])
  {
    RootSlots(m, lv, t, Slot(t, 0));
  }

  lemma InsertedKeeps(m: Memory, lv: Levels, n: Memory, nlv: Levels, root: Frame, la: nat, page: Frame, perm: nat)
    requires page in m.refs && perm < 1024 && Inserted(m, lv, n, nlv, root, la, page, perm)
    ensures n.data == m.data && KeepsRoots(lv, nlv)
  {
  }

  lemma NotHeld(m: Memory, lv: Levels, f: Frame)
    requires f in m.free
    ensures f !in Held(m, lv)
  {
  }

  lemma HeldAfterFreeing(m: Memory, lv: Levels, n: Memory)
    requires FreedExactly(m, lv, n)
    ensures Conserved(m, lv, n, lv)
  {
  }

  /** Mapping a frame takes it over from its holder and strands no other. */
  lemma HeldAfterInsert(m: Memory, lv: Levels, n: Memory, nlv: Levels, root: Frame, la: nat, page: Frame, perm: nat)
    requires Ok(m, lv) && IsRoot(lv, root) && User(la) && Mappable(m, lv, page) && perm < 1024
    requires Inserted(m, lv, n, nlv, root, la, page, perm)
    ensures n.refs.Keys == m.refs.Keys && Held(n, nlv) == Held(m, lv) - {page}
  {
    hide Pte, Structure, Counted, PtesInserted;
    CountsNotNegative(m, lv);
    PageOf(m, lv, root, la);
  }

  // ----- one step of copy_range -----

  /** From m to n: npage, free in m, holds a copy of src and is mapped at `at` in root `to`. */
  ghost predicate CopyStep(m: Memory, lv: Levels, n: Memory, nlv: Levels, to: Frame, at: nat, src: Frame,
                           npage: Frame, perm: nat)
  {
    && perm < 1024 && npage in m.free && npage in m.refs && HasBytes(m, src)
    && Ok(m, lv) && Ok(n, nlv)
    && n.refs.Keys == m.refs.Keys && n.data == m.data[npage := m.data[src]]
    && (forall f :: f in lv ==> f in nlv && nlv[f] == lv[f])
    && (forall f :: f in nlv && f !in lv ==> f in m.free && nlv[f] < 2)
    && npage !in nlv && n.refs[npage] == 1
    && PtesInserted(m, lv, n, to, at, PteCreate(npage, perm))
    && (forall d :: d in m.refs && d !in nlv && d != npage ==>
          n.refs[d] == m.refs[d] || (Valid(Pte(m, to, at)) && Ppn(Pte(m, to, at)) == d))
  }

  lemma StepSpace(m: Memory, lv: Levels, n: Memory, nlv: Levels, to: Frame, at: nat, src: Frame, npage: Frame,
                  perm: nat, q: Frame)
    requires CopyStep(m, lv, n, nlv, to, at, src, npage, perm) && IsRoot(lv, q) && q != to
    ensures SameSpace(m, n, q)
  {
    hide Pte, Structure, Counted;
    forall lb: nat | User(lb) ensures SameAt(m, n, q, lb) {
      PageOf(m, lv, q, lb);
      assert Pte(n, q, lb) == Pte(m, q, lb);
    }
  }

  lemma SpaceTrans(m: Memory, n: Memory, o: Memory, q: Frame)
    requires SameSpace(m, n, q) && SameSpace(n, o, q)
    ensures SameSpace(m, o, q)
  {
    hide Pte;
    forall lb: nat | User(lb) ensures SameAt(m, o, q, lb) {
      assert SameAt(n, o, q, lb) && Pte(n, q, lb) == Pte(n, q, lb);
    }
  }

  /** The other pages of the child keep their frame, its bytes, and sole ownership of it. */
  lemma StepKeeps(m: Memory, lv: Levels, n: Memory, nlv: Levels, to: Frame, at: nat, src: Frame, npage: Frame,
                  perm: nat, lb: nat)
    requires CopyStep(m, lv, n, nlv, to, at, src, npage, perm) && IsRoot(lv, to) && User(at) && User(lb)
    requires Page(lb) != Page(at)
    ensures Kept(m, n, to, lb)
  {
    hide Pte, Structure, Counted;
    assert Pte(n, to, lb) == Pte(m, to, lb);
    if Valid(Pte(m, to, lb)) {
      var d := Ppn(Pte(m, to, lb));
      PageOf(m, lv, to, lb);
      PageOf(n, nlv, to, lb);
      if m.refs[d] == 1 && Valid(Pte(m, to, at)) && Ppn(Pte(m, to, at)) == d {
        SoleOwner(m, lv, to, lb, to, at);
      }
    }
  }

  /** The page of `at` is now a private copy of the parent's. */
  lemma StepCopies(z: Memory, m: Memory, lv: Levels, n: Memory, nlv: Levels, from: Frame, to: Frame, at: nat,
                   npage: Frame, lb: nat)
    requires Valid(Pte(m, from, at)) && IsRoot(lv, from) && IsRoot(lv, to) && from != to && User(at) && User(lb)
    requires CopyStep(m, lv, n, nlv, to, at, Ppn(Pte(m, from, at)), npage, UserBits(Pte(m, from, at)))
    requires SameSpace(z, m, from) && Page(lb) == Page(at)
    ensures Copied(z, n, from, to, lb)
  {
    hide Pte, Structure, Counted;
    SamePageSameWalk(m, from, at, lb);
    assert SameAt(z, m, from, lb) by { assert Pte(m, from, lb) == Pte(m, from, lb); }
    PageOf(m, lv, from, at);
    var w := Pte(m, from, at);
    assert Pte(n, to, lb) == PteCreate(npage, UserBits(w));
    assert UserBits(w) % 2 == 1;
  }

  /** Walks read only the tables. */
  lemma SameTables(m: Memory, n: Memory)
    requires n.tables == m.tables
    ensures forall q, lb :: Walk(n, q, lb) == Walk(m, q, lb) && Pte(n, q, lb) == Pte(m, q, lb)
  {
  }

  /** Filling a frame that is taken and not a table keeps the accounts. */
  lemma FillFrame(m: Memory, lv: Levels, f: Frame, bytes: seq<nat>)
    requires Ok(m, lv) && |bytes| == PGSIZE
    ensures Ok(m.(data := m.data[f := bytes]), lv) && Conserved(m, lv, m.(data := m.data[f := bytes]), lv)
  {
    var n := m.(data := m.data[f := bytes]);
    assert forall g :: g in lv ==> IsTable(m, lv, g);
    assert forall g :: g in lv ==> IsTable(n, lv, g);
    SameNamers(m, n, lv);
  }

  /** Handing back a frame nobody names keeps the accounts. */
  lemma ReturnFrame(m: Memory, lv: Levels, f: Frame)
    requires Ok(m, lv) && Mappable(m, lv, f) && m.refs[f] == 0
    ensures Ok(m.(free := m.free + {f}, refs := m.refs[f := 0]), lv)
  {
    hide Namers;
    var n := m.(free := m.free + {f}, refs := m.refs[f := 0]);
    ReturnStructure(m, lv, f);
    SameNamers(m, n, lv);
    assert Namers(m, lv, f) == {};
    forall s | LeafSlot(n, lv, s) ensures PointsToData(n, lv, s) {
      assert PointsToData(m, lv, s);
      NamersIs(m, lv, f, s);
    }
  }

  lemma ReturnStructure(m: Memory, lv: Levels, f: Frame)
    requires Structure(m, lv) && Mappable(m, lv, f)
    ensures Structure(m.(free := m.free + {f}, refs := m.refs[f := 0]), lv)
  {
    var n := m.(free := m.free + {f}, refs := m.refs[f := 0]);
    assert forall g :: g in lv ==> IsTable(m, lv, g);
    assert forall g :: g in lv ==> IsTable(n, lv, g);
    assert forall s {:trigger DirSlot(n, lv, s)} :: DirSlot(n, lv, s) ==> DirSlot(m, lv, s) && PointsDown(m, lv, s);
    forall t | t in lv && lv[t] < 2 ensures Reached(n, lv, t) {
      assert Reached(m, lv, t);
      var s :| DirSlot(m, lv, s) && Ppn(Entry(m, s)) == t;
      assert DirSlot(n, lv, s);
    }
  }

  lemma StepFrom(m: Memory, lv: Levels, g: Memory, glv: Levels, n: Memory, to: Frame, at: nat, src: Frame,
                 npage: Frame, perm: nat)
    requires Ok(m, lv) && Ok(g, glv) && Ok(n, glv) && Grown(m, lv, g, glv) && perm < 1024 && IsRoot(lv, to) && User(at)
    requires npage in g.free && npage in g.refs && HasBytes(g, src)
    requires Inserted(g.(free := g.free - {npage}, data := g.data[npage := g.data[src]]), glv, n, glv, to, at, npage, perm)
    ensures CopyStep(m, lv, n, glv, to, at, src, npage, perm)
  {
    hide Pte, Walk, Structure, Counted, Namers;
    var t := g.(free := g.free - {npage}, data := g.data[npage := g.data[src]]);
    SameTables(g, t);
    NoNamers(g, glv, npage);
    PageOf(g, glv, to, at);
    assert Pte(g, to, at) == Pte(m, to, at);
    forall q: Frame, lb: nat | IsRoot(lv, q) && User(lb)
      ensures && Pte(n, q, lb) == (if q == to && Page(lb) == Page(at) then PteCreate(npage, perm) else Pte(m, q, lb))
              && (Walk(m, q, lb).Some? ==> Walk(n, q, lb) == Walk(m, q, lb))
    {
      assert IsRoot(glv, q);
      assert Pte(g, q, lb) == Pte(m, q, lb);
      assert Pte(n, q, lb) == Pte(n, q, lb);
    }
  }

  lemma TableSlot(m: Memory, lv: Levels, s: Slot)
    requires Structure(m, lv) && InTable(m, s) && s.table in lv
    ensures s.table !in m.free && OtherWords(m, lv, s, m)
  {
    assert IsTable(m, lv, s.table);
  }

  /** The four writes of the table-making block, one after the other. */
  lemma GrowSteps(m: Memory, s: Slot, t: Frame)
    requires InTable(m, s) && s.table != t
    ensures var a := m.(free := m.free - {t});
            var b := a.(refs := a.refs[t := 1]);
            var c := b.(tables := b.tables[t := Zeros()]);
            InTable(c, s) && SetWord(c, s, PteCreate(t, PTE_U + PTE_V)) == GrowTable(m, s, t)
  {
  }

  lemma TablesKept(m: Memory, lv: Levels, n: Memory, root: Frame, la: nat)
    requires Opened(m, lv, n, root, la, true, false) && IsRoot(lv, root) && User(la)
    ensures HasTable(n, root, la) == HasTable(m, root, la)
  {
    hide HasTable, HasDir;
    assert HasTable(n, root, la) == HasTable(n, root, la);
  }

  lemma GrowFacts(m: Memory, s: Slot, t: Frame)
    requires InTable(m, s) && s.table != t && t in m.free
    ensures var n := GrowTable(m, s, t);
            && InTable(n, s) && Entry(n, s) % 1024 == 17 && t in n.tables && n.tables[t] == Zeros()
            && t in n.refs && n.refs[t] == 1 && n.free == m.free - {t} && |n.free| == |m.free| - 1
  {
  }

  /** No word of a table but the one at s changed. */
  ghost predicate OtherWords(m: Memory, lv: Levels, s: Slot, n: Memory) {
    forall x {:trigger InTable(n, x)} {:trigger Entry(n, x)} ::
      InTable(m, x) && x.table in lv && x != s ==> InTable(n, x) && Entry(n, x) == Entry(m, x)
  }

  lemma OtherWordsGrow(m: Memory, lv: Levels, s: Slot, t: Frame)
    requires Structure(m, lv) && Growable(m, lv, s, t)
    ensures OtherWords(m, lv, s, GrowTable(m, s, t))
    ensures InTable(GrowTable(m, s, t), s) && Entry(GrowTable(m, s, t), s) == PteCreate(t, 17)
  {
    var n := GrowTable(m, s, t);
    GrowEntry(m, lv, s, t, s);
    assert forall f :: f in lv ==> IsTable(m, lv, f);
    forall x | InTable(m, x) && x.table in lv && x != s ensures InTable(n, x) && Entry(n, x) == Entry(m, x) {
      GrowEntry(m, lv, s, t, x);
    }
  }

  /** The page of la is unmapped; every other page is as it was. */
  ghost predicate OnlyPageOrNone(m: Memory, lv: Levels, n: Memory, root: Frame, la: nat) {
    forall q: Frame, lb: nat {:trigger Pte(n, q, lb)} {:trigger Walk(n, q, lb)} :: IsRoot(lv, q) && User(lb) ==>
      && Walk(n, q, lb) == Walk(m, q, lb)
      && (q == root && Page(lb) == Page(la) ==> Unmapped(m, n, q, lb))
      && (!(q == root && Page(lb) == Page(la)) ==> Pte(n, q, lb) == Pte(m, q, lb))
  }

  lemma RemovePage(m: Memory, lv: Levels, root: Frame, la: nat)
    requires Ok(m, lv) && IsRoot(lv, root) && User(la)
    ensures Walk(m, root, la).None? ==> FreedExactly(m, lv, m) && OnlyPageOrNone(m, lv, m, root, la)
    ensures Walk(m, root, la).Some? ==>
              var s := Walk(m, root, la).value;
              && Removable(m, s) && Ok(RemovedPte(m, s), lv) && RemovedPte(m, s).data == m.data
              && FreedExactly(m, lv, RemovedPte(m, s)) && OnlyPageOrNone(m, lv, RemovedPte(m, s), root, la)
  {
    hide Structure, Counted, Namers, Walk, OnlyPageOrNone, SetWord, RemovedPte, FreedExactly;
    PageOf(m, lv, root, la);
    RemoveNothing(m, lv);
    if !Valid(Pte(m, root, la)) {
      StaysOnly(m, lv, root, la);
    }
    if Walk(m, root, la).Some? {
      var s := Walk(m, root, la).value;
      RemoveOk(m, lv, s);
      if Valid(Entry(m, s)) {
        WrittenWalks(m, lv, s, 0, RemovedPte(m, s), root, la);
        ClearedOnly(m, lv, RemovedPte(m, s), root, la);
      }
    }
  }

  lemma RemoveNothing(m: Memory, lv: Levels)
    requires Ok(m, lv)
    ensures FreedExactly(m, lv, m)
  {
  }

  lemma ClearedOnly(m: Memory, lv: Levels, n: Memory, root: Frame, la: nat)
    requires OnlyPage(m, lv, n, root, la, 0) && Valid(Pte(m, root, la))
    ensures OnlyPageOrNone(m, lv, n, root, la)
  {
    hide Walk, Pte;
    forall q: Frame, lb: nat | IsRoot(lv, q) && User(lb)
      ensures Walk(n, q, lb) == Walk(m, q, lb)
      ensures q == root && Page(lb) == Page(la) ==> Unmapped(m, n, q, lb)
      ensures !(q == root && Page(lb) == Page(la)) ==> Pte(n, q, lb) == Pte(m, q, lb)
    {
      if q == root && Page(lb) == Page(la) {
        SamePageSameWalk(m, root, la, lb);
      }
      assert Pte(n, q, lb) == Pte(n, q, lb);
    }
  }

  lemma StaysOnly(m: Memory, lv: Levels, root: Frame, la: nat)
    requires !Valid(Pte(m, root, la))
    ensures OnlyPageOrNone(m, lv, m, root, la)
  {
    hide Walk, Pte;
    forall lb | Page(lb) == Page(la) ensures Unmapped(m, m, root, lb) {
      SamePageSameWalk(m, root, la, lb);
    }
  }

  lemma KeepsSame(m: Memory, a: Memory, lv: Levels, b: Memory, n: Memory)
    requires KeepsWalks(a, lv, b) && m.tables == a.tables && b.tables == n.tables
    ensures KeepsWalks(m, lv, n)
  {
    forall q: Frame, lb: nat | IsRoot(lv, q) && User(lb)
      ensures Pte(n, q, lb) == Pte(m, q, lb) && (Walk(m, q, lb).Some? ==> Walk(n, q, lb) == Walk(m, q, lb))
    {
      assert Pte(b, q, lb) == Pte(a, q, lb);
    }
  }

  lemma GrownMappable(m: Memory, lv: Levels, n: Memory, nlv: Levels, f: Frame)
    requires Grown(m, lv, n, nlv) && Mappable(m, lv, f) && m.refs[f] == 0
    ensures Mappable(n, nlv, f) && n.refs[f] == 0
  {
    hide KeepsWalks;
  }

  /** A page taken and given back when no table could be made for it: t is m without f, g is t
      with tables, n is g with f returned. */
  lemma PageReturned(m: Memory, t: Memory, lv: Levels, g: Memory, n: Memory, nlv: Levels, f: Frame)
    requires Grown(t, lv, g, nlv) && f !in Held(m, lv) && t == m.(free := m.free - {f})
    requires n == g.(free := g.free + {f}, refs := g.refs[f := 0]) && f in g.refs
    requires Held(t, lv) == Held(m, lv) + {f} && Held(g, nlv) == Held(t, lv) && Held(n, nlv) == Held(g, nlv) - {f}
    ensures n.data == m.data && KeepsRoots(lv, nlv) && KeepsWalks(m, lv, n) && Conserved(m, lv, n, nlv)
  {
    hide KeepsWalks, Held;
    SameTables(g, n);
    KeepsSame(m, t, lv, g, n);
  }

  function Min(a: nat, b: nat): nat {
    if a < b then a else b
  }

  /** The pages of [lo, hi) in root are unmapped; every other page is as it was. */
  ghost predicate UnmappedRange(m: Memory, lv: Levels, n: Memory, root: Frame, lo: nat, hi: nat) {
    forall q: Frame, lb: nat {:trigger Pte(n, q, lb)} {:trigger Walk(n, q, lb)} :: IsRoot(lv, q) && User(lb) ==>
      && Walk(n, q, lb) == Walk(m, q, lb)
      && (q == root && lo <= lb < hi ==> Unmapped(m, n, q, lb))
      && (!(q == root && lo <= lb < hi) ==> Pte(n, q, lb) == Pte(m, q, lb))
  }

  /** Roots and directories are as they were. */
  ghost predicate SameDirs(m: Memory, n: Memory, lv: Levels) {
    forall f {:trigger lv[f]} :: f in lv && lv[f] > 0 ==> f in m.tables && f in n.tables && n.tables[f] == m.tables[f]
  }

  lemma SameDirsRefl(m: Memory, lv: Levels)
    requires Ok(m, lv)
    ensures SameDirs(m, m, lv)
  {
    assert forall f :: f in lv ==> IsTable(m, lv, f);
  }

  lemma SameDirsTrans(m: Memory, n: Memory, o: Memory, lv: Levels)
    requires SameDirs(m, n, lv) && SameDirs(n, o, lv)
    ensures SameDirs(m, o, lv)
  {
  }

  /** Removing a leaf word touches no directory. */
  lemma RemoveSameDirs(m: Memory, lv: Levels, root: Frame, la: nat)
    requires Ok(m, lv) && IsRoot(lv, root) && User(la) && Walk(m, root, la).Some?
    ensures var s := Walk(m, root, la).value; Removable(m, s) ==> SameDirs(m, RemovedPte(m, s), lv)
  {
    WalkLeaf(m, lv, root, la);
    assert forall f :: f in lv ==> IsTable(m, lv, f);
  }

  lemma UnmapNone(m: Memory, lv: Levels, root: Frame, lo: nat)
    ensures UnmappedRange(m, lv, m, root, lo, lo)
  {
  }

  lemma UnmapStep(z: Memory, m: Memory, lv: Levels, n: Memory, root: Frame, lo: nat, at: nat, end: nat)
    requires UnmappedRange(z, lv, m, root, lo, at) && OnlyPageOrNone(m, lv, n, root, at)
    requires lo <= at < end && at % PGSIZE == 0 && end % PGSIZE == 0
    ensures UnmappedRange(z, lv, n, root, lo, Min(at + PGSIZE, end))
  {
    hide Walk, Pte;
    forall q: Frame, lb: nat | IsRoot(lv, q) && User(lb)
      ensures Walk(n, q, lb) == Walk(z, q, lb)
      ensures q == root && lo <= lb < at + PGSIZE ==> Unmapped(z, n, q, lb)
      ensures !(q == root && lo <= lb < at + PGSIZE) ==> Pte(n, q, lb) == Pte(z, q, lb)
    {
      PageSpan(at, lb);
      assert Pte(m, q, lb) == Pte(m, q, lb) && Pte(n, q, lb) == Pte(n, q, lb);
    }
  }

  lemma PageSpan(at: nat, lb: nat)
    requires at % PGSIZE == 0
    ensures Page(lb) == Page(at) <==> at <= lb < at + PGSIZE
  {
  }

  lemma UnmapSkip(z: Memory, m: Memory, lv: Levels, root: Frame, lo: nat, at: nat, end: nat)
    requires UnmappedRange(z, lv, m, root, lo, at) && Walk(m, root, at).None? && lo <= at < end
    ensures UnmappedRange(z, lv, m, root, lo, Min(NextTable(at), end))
  {
    NextTableBounds(at, at);
    forall q: Frame, lb: nat | IsRoot(lv, q) && User(lb) && q == root && at <= lb < NextTable(at)
      ensures Unmapped(z, m, q, lb)
    {
      SkipIsSafe(m, root, at, lb);
      assert Pte(m, q, lb) == Pte(z, q, lb);
    }
  }

  /** Roots stay roots. */
  ghost predicate KeepsRoots(lv: Levels, nlv: Levels) {
    forall q :: IsRoot(nlv, q) == IsRoot(lv, q)
  }

  /** Below hi the child has private copies; elsewhere it is as it was. */
  ghost predicate CopiedRange(m: Memory, n: Memory, from: Frame, to: Frame, lo: nat, hi: nat) {
    forall lb: nat {:trigger Pte(n, to, lb)} {:trigger Copied(m, n, from, to, lb)} {:trigger Kept(m, n, to, lb)} :: User(lb) ==>
      && (lo <= lb < hi ==> Copied(m, n, from, to, lb))
      && (!(lo <= lb < hi) || !Valid(Pte(m, from, lb)) ==> Kept(m, n, to, lb))
  }

  /** Outside [lo, hi) root q maps what it mapped. */
  ghost predicate OutsideKept(m: Memory, n: Memory, q: Frame, lo: nat, hi: nat) {
    forall lb: nat {:trigger Pte(n, q, lb)} :: User(lb) && !(lo <= lb < hi) ==> Pte(n, q, lb) == Pte(m, q, lb)
  }

  lemma OutsideWiden(m: Memory, n: Memory, q: Frame, lo: nat, at: nat, hi: nat)
    requires OutsideKept(m, n, q, lo, at) && at <= hi
    ensures OutsideKept(m, n, q, lo, hi)
  {
  }

  /** A copy that stops for want of frames has moved nothing behind the page it stopped at. */
  lemma CopyStops(z: Memory, m: Memory, lv: Levels, n: Memory, nlv: Levels, from: Frame, to: Frame, lo: nat, at: nat)
    requires CopiedRange(z, m, from, to, lo, at) && Grown(m, lv, n, nlv) && IsRoot(lv, to)
    ensures OutsideKept(z, n, to, lo, at)
  {
    hide Pte, Walk;
    forall lb: nat | User(lb) && !(lo <= lb < at) ensures Pte(n, to, lb) == Pte(z, to, lb) {
      assert Kept(z, m, to, lb);
      assert Pte(n, to, lb) == Pte(m, to, lb);
    }
  }

  lemma CopyStart(m: Memory, lv: Levels, from: Frame, to: Frame, lo: nat)
    requires Ok(m, lv) && IsRoot(lv, to)
    ensures CopiedRange(m, m, from, to, lo, lo)
    ensures forall q :: IsRoot(lv, q) ==> SameSpace(m, m, q)
  {
    forall q | IsRoot(lv, q) ensures SameSpace(m, m, q) {
      forall lb: nat | User(lb) ensures SameAt(m, m, q, lb) {
        PageOf(m, lv, q, lb);
      }
    }
    forall lb: nat | User(lb) ensures Kept(m, m, to, lb) {
      KeptRefl(m, lv, to, lb);
    }
  }

  /** Where the parent has no valid entry there is nothing to copy. */
  lemma CopyNothing(z: Memory, m: Memory, from: Frame, to: Frame, lo: nat, at: nat, hi: nat)
    requires CopiedRange(z, m, from, to, lo, at) && SameSpace(z, m, from) && lo <= at <= hi
    requires forall lb: nat {:trigger Pte(m, from, lb)} :: User(lb) && at <= lb < hi ==> !Valid(Pte(m, from, lb))
    ensures CopiedRange(z, m, from, to, lo, hi)
  {
    hide Pte;
    forall lb: nat | User(lb)
      ensures lo <= lb < hi ==> Copied(z, m, from, to, lb)
      ensures !(lo <= lb < hi) || !Valid(Pte(z, from, lb)) ==> Kept(z, m, to, lb)
    {
      assert Pte(m, to, lb) == Pte(m, to, lb) && Pte(m, from, lb) == Pte(m, from, lb);
      assert SameAt(z, m, from, lb);
    }
  }

  lemma CopySkip(z: Memory, m: Memory, lv: Levels, from: Frame, to: Frame, lo: nat, at: nat, end: nat)
    requires CopiedRange(z, m, from, to, lo, at) && SameSpace(z, m, from) && Walk(m, from, at).None? && lo <= at < end
    ensures CopiedRange(z, m, from, to, lo, Min(NextTable(at), end))
  {
    NextTableBounds(at, at);
    forall lb: nat | User(lb) && at <= lb < NextTable(at) ensures !Valid(Pte(m, from, lb)) {
      SkipIsSafe(m, from, at, lb);
    }
    CopyNothing(z, m, from, to, lo, at, Min(NextTable(at), end));
  }

  lemma CopyInvalid(z: Memory, m: Memory, lv: Levels, from: Frame, to: Frame, lo: nat, at: nat)
    requires CopiedRange(z, m, from, to, lo, at) && SameSpace(z, m, from) && !Valid(Pte(m, from, at)) && lo <= at
    requires at % PGSIZE == 0
    ensures CopiedRange(z, m, from, to, lo, at + PGSIZE)
  {
    forall lb: nat | User(lb) && at <= lb < at + PGSIZE ensures !Valid(Pte(m, from, lb)) {
      PageSpan(at, lb);
      SamePageSameWalk(m, from, at, lb);
    }
    CopyNothing(z, m, from, to, lo, at, at + PGSIZE);
  }

  /** One step of copy_range carries the copied range one page up. */
  lemma CopyExtends(z: Memory, m: Memory, lv: Levels, n: Memory, nlv: Levels, from: Frame, to: Frame, lo: nat,
                    at: nat, npage: Frame)
    requires CopiedRange(z, m, from, to, lo, at) && SameSpace(z, m, from) && Valid(Pte(m, from, at)) && lo <= at
    requires at % PGSIZE == 0
    requires IsRoot(lv, from) && IsRoot(lv, to) && from != to && User(at)
    requires CopyStep(m, lv, n, nlv, to, at, Ppn(Pte(m, from, at)), npage, UserBits(Pte(m, from, at)))
    ensures CopiedRange(z, n, from, to, lo, at + PGSIZE)
  {
    hide Pte, Walk, Structure, Counted, Kept;
    forall lb: nat | User(lb)
      ensures lo <= lb < at + PGSIZE ==> Copied(z, n, from, to, lb)
      ensures !(lo <= lb < at + PGSIZE) || !Valid(Pte(z, from, lb)) ==> Kept(z, n, to, lb)
    {
      PageSpan(at, lb);
      assert Pte(m, to, lb) == Pte(m, to, lb) && Pte(n, to, lb) == Pte(n, to, lb);
      assert SameAt(z, m, from, lb) by { assert Pte(m, from, lb) == Pte(m, from, lb); }
      if Page(lb) == Page(at) {
        SamePageSameWalk(m, from, at, lb);
        assert Valid(Pte(z, from, lb));
        StepCopies(z, m, lv, n, nlv, from, to, at, npage, lb);
      } else {
        StepKeeps(m, lv, n, nlv, to, at, Ppn(Pte(m, from, at)), npage, UserBits(Pte(m, from, at)), lb);
        if lo <= lb < at && Valid(Pte(z, from, lb)) {
          KeptCopy(z, m, n, from, to, lb);
        } else {
          KeptTrans(z, m, n, to, lb);
        }
      }
    }
  }

  /** Growing tables is invisible in every address space. */
  lemma GrownSpaces(z: Memory, m: Memory, lv: Levels, n: Memory, nlv: Levels, zlv: Levels, to: Frame)
    requires Ok(m, lv) && Grown(m, lv, n, nlv) && KeepsRoots(zlv, lv)
    requires forall q :: IsRoot(zlv, q) && q != to ==> SameSpace(z, m, q)
    ensures KeepsRoots(zlv, nlv)
    ensures forall q :: IsRoot(zlv, q) && q != to ==> SameSpace(z, n, q)
  {
    hide Structure, Counted, Pte, Walk;
    forall q | IsRoot(zlv, q) && q != to ensures SameSpace(z, n, q) {
      forall lb: nat | User(lb) ensures SameAt(m, n, q, lb) {
        PageOf(m, lv, q, lb);
        assert Pte(n, q, lb) == Pte(m, q, lb);
      }
      SpaceTrans(z, m, n, q);
    }
  }

  lemma StepSpaces(z: Memory, m: Memory, lv: Levels, n: Memory, nlv: Levels, zlv: Levels, to: Frame, at: nat,
                   src: Frame, npage: Frame, perm: nat)
    requires CopyStep(m, lv, n, nlv, to, at, src, npage, perm) && KeepsRoots(zlv, lv)
    requires forall q :: IsRoot(zlv, q) && q != to ==> SameSpace(z, m, q)
    ensures KeepsRoots(zlv, nlv)
    ensures forall q :: IsRoot(zlv, q) && q != to ==> SameSpace(z, n, q)
  {
    hide Structure, Counted, Pte, Walk, SameSpace, PtesInserted;
    forall q | IsRoot(zlv, q) && q != to ensures SameSpace(z, n, q) {
      StepSpace(m, lv, n, nlv, to, at, src, npage, perm, q);
      SpaceTrans(z, m, n, q);
    }
  }

  lemma NothingMissing(m: Memory, root: Frame, la: nat)
    requires Walk(m, root, la).Some?
    ensures Missing(m, root, la) == 0
  {
  }

  lemma ConservedRefl(m: Memory, lv: Levels)
    ensures Conserved(m, lv, m, lv)
  {
  }

  lemma ConservedTrans(m: Memory, lv: Levels, n: Memory, nlv: Levels, o: Memory, olv: Levels)
    requires Conserved(m, lv, n, nlv) && Conserved(n, nlv, o, olv)
    ensures Conserved(m, lv, o, olv)
  {
  }

  lemma PageNumber(at: nat, end: nat)
    requires at % PGSIZE == 0 && end % PGSIZE == 0 && at < end && end <= USERTOP
    ensures Addr(at / PGSIZE) == at && at / PGSIZE < USER_PAGES && at / PGSIZE < end / PGSIZE
    ensures (at + PGSIZE) / PGSIZE == at / PGSIZE + 1
  {
  }

  lemma SameWord(z: Memory, m: Memory, q: Frame, lb: nat)
    requires SameSpace(z, m, q) && User(lb)
    ensures Pte(m, q, lb) == Pte(z, q, lb)
  {
    hide Pte;
    assert Pte(m, q, lb) == Pte(m, q, lb);
    assert SameAt(z, m, q, lb);
  }

  lemma PagesNext(z: Memory, from: Frame, at: nat, end: nat)
    requires at % PGSIZE == 0 && end % PGSIZE == 0 && at < end && end <= USERTOP
    ensures MappedPages(z, from, at / PGSIZE, end / PGSIZE) ==
            var next := MappedPages(z, from, (at + PGSIZE) / PGSIZE, end / PGSIZE);
            if Valid(Pte(z, from, at)) then [at / PGSIZE] + next else next
  {
    hide Pte;
    PageNumber(at, end);
  }

  lemma SkipPages(z: Memory, m: Memory, from: Frame, at: nat, end: nat)
    requires SameSpace(z, m, from) && Walk(m, from, at).None?
    requires at % PGSIZE == 0 && end % PGSIZE == 0 && at < end && end <= USERTOP
    ensures MappedPages(z, from, NextTable(at) / PGSIZE, end / PGSIZE) == MappedPages(z, from, at / PGSIZE, end / PGSIZE)
  {
    hide Pte, Walk, SameSpace, NextTable;
    NextTableBounds(at, at);
    var next := if NextTable(at) < end then NextTable(at) else end;
    forall p: nat | at / PGSIZE <= p < next / PGSIZE ensures !Valid(Pte(z, from, Addr(p))) {
      SkipIsSafe(m, from, at, Addr(p));
      SameWord(z, m, from, Addr(p));
    }
    MappedSkip(z, from, at / PGSIZE, next / PGSIZE, end / PGSIZE);
  }

  lemma PagesEnd(m: Memory, z: Memory, from: Frame, to: Frame, cur: seq<nat>, at: nat, end: nat)
    requires at >= end
    ensures MappedPages(m, from, at / PGSIZE, end / PGSIZE) == []
    ensures Verdict(z, to, cur, []) == Done && cur + [] == cur
  {
  }

  // ----- the loops of unmap_range and copy_range on their way -----

  /** unmap_range has come from start to at, beginning in memory z. */
  ghost predicate Unmapping(z: Memory, lv: Levels, m: Memory, root: Frame, start: nat, at: nat) {
    && Ok(m, lv) && m.data == z.data && FreedExactly(z, lv, m) && SameDirs(z, m, lv)
    && UnmappedRange(z, lv, m, root, start, at)
  }

  lemma UnmappingStart(m: Memory, lv: Levels, root: Frame, start: nat)
    requires Ok(m, lv)
    ensures Unmapping(m, lv, m, root, start, start)
  {
    hide Ok, FreedExactly, SameDirs, UnmappedRange;
    SameDirsRefl(m, lv);
    RemoveNothing(m, lv);
    UnmapNone(m, lv, root, start);
  }

  lemma UnmappingOk(z: Memory, lv: Levels, m: Memory, root: Frame, start: nat, at: nat)
    requires Unmapping(z, lv, m, root, start, at)
    ensures Ok(m, lv) && m.data == z.data && FreedExactly(z, lv, m) && SameDirs(z, m, lv)
    ensures UnmappedRange(z, lv, m, root, start, at)
  {
  }

  lemma UnmappingStep(z: Memory, m: Memory, lv: Levels, n: Memory, root: Frame, start: nat, at: nat, end: nat)
    requires Unmapping(z, lv, m, root, start, at) && Ok(n, lv) && n.data == m.data && FreedExactly(m, lv, n)
    requires OnlyPageOrNone(m, lv, n, root, at) && SameDirs(m, n, lv)
    requires start <= at < end && at % PGSIZE == 0 && end % PGSIZE == 0
    ensures Unmapping(z, lv, n, root, start, Min(at + PGSIZE, end))
  {
    hide Ok, FreedExactly, SameDirs, UnmappedRange, OnlyPageOrNone;
    FreedExactlyTrans(z, lv, m, n);
    SameDirsTrans(z, m, n, lv);
    UnmapStep(z, m, lv, n, root, start, at, end);
  }

  lemma UnmappingSkip(z: Memory, m: Memory, lv: Levels, root: Frame, start: nat, at: nat, end: nat)
    requires Unmapping(z, lv, m, root, start, at) && Walk(m, root, at).None? && start <= at < end
    ensures Unmapping(z, lv, m, root, start, Min(NextTable(at), end))
  {
    hide Ok, FreedExactly, SameDirs, UnmappedRange, Walk;
    UnmapSkip(z, m, lv, root, start, at, end);
  }

  /** copy_range has come from lo to at, beginning in memory b; its frames are accounted for from
      memory z on, with the pages s mapped before b and the pages cur by now. */
  ghost predicate Copying(b: Memory, blv: Levels, m: Memory, lv: Levels, from: Frame, to: Frame, lo: nat, at: nat,
                          end: nat,
                          z: Memory, s: seq<nat>, cur: seq<nat>)
  {
    && Ok(m, lv) && KeepsRoots(blv, lv) && Conserved(b, blv, m, lv)
    && (forall q :: IsRoot(blv, q) && q != to ==> SameSpace(b, m, q))
    && CopiedRange(b, m, from, to, lo, Min(at, end)) && Ledger(z, m, to, cur)
    && s + MappedPages(b, from, lo / PGSIZE, end / PGSIZE) == cur + MappedPages(b, from, at / PGSIZE, end / PGSIZE)
    && Verdict(z, to, s, MappedPages(b, from, lo / PGSIZE, end / PGSIZE))
       == Verdict(z, to, cur, MappedPages(b, from, at / PGSIZE, end / PGSIZE))
  }

  lemma CopyingStart(m: Memory, lv: Levels, from: Frame, to: Frame, lo: nat, end: nat, z: Memory, s: seq<nat>)
    requires Ok(m, lv) && IsRoot(lv, to) && Ledger(z, m, to, s) && lo <= end
    ensures Copying(m, lv, m, lv, from, to, lo, lo, end, z, s, s)
  {
    hide Ok, CopiedRange, SameSpace, Ledger, Verdict, MappedPages, Conserved;
    CopyStart(m, lv, from, to, lo);
    ConservedRefl(m, lv);
  }

  lemma CopyingSkip(b: Memory, blv: Levels, m: Memory, lv: Levels, from: Frame, to: Frame, lo: nat, at: nat, end: nat,
                    z: Memory, s: seq<nat>, cur: seq<nat>)
    requires Copying(b, blv, m, lv, from, to, lo, at, end, z, s, cur) && IsRoot(blv, from) && from != to
    requires Walk(m, from, at).None? && lo <= at < end <= USERTOP && at % PGSIZE == 0 && end % PGSIZE == 0
    ensures Copying(b, blv, m, lv, from, to, lo, NextTable(at), end, z, s, cur)
  {
    hide Ok, CopiedRange, SameSpace, Ledger, Verdict, MappedPages, Conserved, Walk;
    CopySkip(b, m, blv, from, to, lo, at, end);
    SkipPages(b, m, from, at, end);
  }

  lemma CopyingInvalid(b: Memory, blv: Levels, m: Memory, lv: Levels, from: Frame, to: Frame, lo: nat, at: nat,
                       end: nat,
                       z: Memory, s: seq<nat>, cur: seq<nat>)
    requires Copying(b, blv, m, lv, from, to, lo, at, end, z, s, cur) && IsRoot(blv, from) && from != to
    requires !Valid(Pte(m, from, at)) && lo <= at < end <= USERTOP && at % PGSIZE == 0 && end % PGSIZE == 0
    ensures Copying(b, blv, m, lv, from, to, lo, at + PGSIZE, end, z, s, cur)
  {
    hide Ok, CopiedRange, SameSpace, Ledger, Verdict, MappedPages, Conserved, Pte;
    SameWord(b, m, from, at);
    CopyInvalid(b, m, blv, from, to, lo, at);
    PagesNext(b, from, at, end);
  }

  /** Before a valid entry: what is left begins with its page, and the frames decide. */
  lemma CopyingValid(b: Memory, blv: Levels, m: Memory, lv: Levels, from: Frame, to: Frame, lo: nat, at: nat, end: nat,
                     z: Memory, s: seq<nat>, cur: seq<nat>)
    requires Copying(b, blv, m, lv, from, to, lo, at, end, z, s, cur) && IsRoot(blv, from) && from != to
    requires Valid(Pte(m, from, at)) && lo <= at < end <= USERTOP && at % PGSIZE == 0 && end % PGSIZE == 0
    ensures var need := Missing(m, to, at);
            Verdict(z, to, s, MappedPages(b, from, lo / PGSIZE, end / PGSIZE)) ==
            if |m.free| < need then NoMem else if |m.free| == need then Panic
            else Verdict(z, to, cur + [at / PGSIZE], MappedPages(b, from, (at + PGSIZE) / PGSIZE, end / PGSIZE))
    ensures s + MappedPages(b, from, lo / PGSIZE, end / PGSIZE) ==
            (cur + [at / PGSIZE]) + MappedPages(b, from, (at + PGSIZE) / PGSIZE, end / PGSIZE)
  {
    hide Ok, CopiedRange, SameSpace, Ledger, Verdict, MappedPages, Conserved, Pte, Missing;
    PageNumber(at, end);
    SameWord(b, m, from, at);
    PagesNext(b, from, at, end);
    var rest := MappedPages(b, from, at / PGSIZE, end / PGSIZE);
    assert rest[0] == at / PGSIZE && rest[1..] == MappedPages(b, from, (at + PGSIZE) / PGSIZE, end / PGSIZE);
    VerdictNext(z, m, to, cur, rest);
  }

  lemma CopyingStep(b: Memory, blv: Levels, m: Memory, lv: Levels, n: Memory, nlv: Levels, from: Frame, to: Frame,
                    lo: nat,
                    at: nat, end: nat, z: Memory, s: seq<nat>, cur: seq<nat>)
    requires Copying(b, blv, m, lv, from, to, lo, at, end, z, s, cur) && IsRoot(blv, from) && IsRoot(blv, to)
    requires from != to
    requires Valid(Pte(m, from, at)) && lo <= at < end <= USERTOP && at % PGSIZE == 0 && end % PGSIZE == 0
    requires |m.free| > Missing(m, to, at) && Ok(n, nlv) && KeepsRoots(blv, nlv) && Conserved(m, lv, n, nlv)
    requires forall q :: IsRoot(blv, q) && q != to ==> SameSpace(b, n, q)
    requires CopiedRange(b, n, from, to, lo, at + PGSIZE) && exists f, w :: FramePut(m, lv, n, nlv, to, at, f, w)
    ensures Copying(b, blv, n, nlv, from, to, lo, at + PGSIZE, end, z, s, cur + [at / PGSIZE])
  {
    hide Ok, CopiedRange, SameSpace, Ledger, Verdict, MappedPages, Conserved, Pte, FramePut, Missing;
    CopyingValid(b, blv, m, lv, from, to, lo, at, end, z, s, cur);
    ConservedTrans(b, blv, m, lv, n, nlv);
    PageNumber(at, end);
    var f, w :| FramePut(m, lv, n, nlv, to, at, f, w);
    LedgerStep(z, m, lv, n, nlv, to, cur, at / PGSIZE, f, w);
  }

  lemma CopyingEnds(b: Memory, blv: Levels, m: Memory, lv: Levels, from: Frame, to: Frame, lo: nat, at: nat, end: nat,
                    z: Memory, s: seq<nat>, cur: seq<nat>)
    requires Copying(b, blv, m, lv, from, to, lo, at, end, z, s, cur)
    ensures Ok(m, lv) && KeepsRoots(blv, lv) && Conserved(b, blv, m, lv)
    ensures forall q :: IsRoot(blv, q) && q != to ==> SameSpace(b, m, q)
    ensures CopiedRange(b, m, from, to, lo, Min(at, end))
    ensures var ps := MappedPages(b, from, lo / PGSIZE, end / PGSIZE);
            at >= end ==> Verdict(z, to, s, ps) == Done && Ledger(z, m, to, s + ps)
  {
    hide Ok, CopiedRange, SameSpace, Ledger, Verdict, MappedPages, Conserved;
    if at >= end {
      PagesEnd(b, z, from, to, cur, at, end);
    }
  }
}
