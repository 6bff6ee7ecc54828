/** How many frames mapping fresh pages takes: the exact account behind the failures of
    get_pte, pgdir_alloc_page and copy_range in kern/mm/pmm.c. */
module PageBudget {
  import opened Sv39
  import opened PageTable
  import opened PageMap
  import opened Lists
  import opened Wrappers

  const USER_PAGES := 0x8_0000

  /** The frame mapped at la goes back to the allocator when something else is mapped there. */
  function Returned(m: Memory, root: Frame, la: nat): nat {
    var w := Pte(m, root, la);
    if Valid(w) && Ppn(w) in m.refs && m.refs[Ppn(w)] == 1 then 1 else 0
  }

  /** n is m after frame f, free before, was mapped at la as word w, with exact counts and an
      exact number of frames left. */
  ghost predicate FramePut(m: Memory, lv: Levels, n: Memory, nlv: Levels, root: Frame, la: nat, f: Frame, w: nat) {
    && f in m.free && Valid(w) && Ppn(w) == f && f in n.refs && n.refs[f] == 1 && n.refs.Keys == m.refs.Keys
    && PtesInserted(m, lv, n, root, la, w)
    && (forall t :: t in lv ==> t in nlv && nlv[t] == lv[t])
    && (forall t :: t in nlv && t !in lv ==> t in m.free && nlv[t] < 2)
    && (forall d :: d in m.refs && d !in nlv && d != f ==>
          n.refs[d] == m.refs[d] - (if Valid(Pte(m, root, la)) && Ppn(Pte(m, root, la)) == d then 1 else 0))
    && Opened(m, lv, n, root, la, true, true)
    && |n.free| == |m.free| - Missing(m, root, la) - 1 + Returned(m, root, la)
  }

  // ----- what get_pte and page_insert take -----

  lemma OpenedSame(m: Memory, lv: Levels, root: Frame, la: nat, tabs: bool)
    requires User(la) && HasDir(m, root, la) && (tabs ==> HasTable(m, root, la))
    ensures Opened(m, lv, m, root, la, true, tabs)
  {
    hide HasDir, HasTable;
    forall q: Frame, lb: nat | IsRoot(lv, q) && User(lb)
      ensures q == root && lb / PDSIZE == la / PDSIZE ==> HasDir(m, q, lb)
      ensures tabs && q == root && lb / PTSIZE == la / PTSIZE ==> HasTable(m, q, lb)
    {
      SharedTables(m, root, la, lb);
    }
  }

  lemma OpenedTrans(m: Memory, lv: Levels, g: Memory, glv: Levels, n: Memory, root: Frame, la: nat, tabs: bool)
    requires Opened(m, lv, g, root, la, true, tabs) && Opened(g, glv, n, root, la, true, true)
    requires forall q :: IsRoot(lv, q) ==> IsRoot(glv, q)
    ensures Opened(m, lv, n, root, la, true, true)
  {
    hide HasDir, HasTable;
    forall q: Frame, lb: nat | IsRoot(lv, q) && User(lb)
      ensures HasDir(n, q, lb) <==> HasDir(m, q, lb) || (q == root && lb / PDSIZE == la / PDSIZE)
      ensures HasTable(n, q, lb) <==> HasTable(m, q, lb) || (q == root && lb / PTSIZE == la / PTSIZE)
    {
      assert HasDir(g, q, lb) <==> HasDir(m, q, lb) || (q == root && lb / PDSIZE == la / PDSIZE);
      assert HasTable(g, q, lb) <==> HasTable(m, q, lb) || (tabs && q == root && lb / PTSIZE == la / PTSIZE);
    }
  }

  /** Which tables there are depends on the tables alone. */
  lemma OpenedTables(m: Memory, t: Memory, lv: Levels, n: Memory, root: Frame, la: nat)
    requires Opened(t, lv, n, root, la, true, true) && t.tables == m.tables
    ensures Opened(m, lv, n, root, la, true, true) && Missing(t, root, la) == Missing(m, root, la)
  {
    forall q: Frame, lb: nat ensures HasDir(t, q, lb) == HasDir(m, q, lb) && HasTable(t, q, lb) == HasTable(m, q, lb) {
    }
  }

  lemma MissingTables(m: Memory, t: Memory, root: Frame, la: nat)
    requires t.tables == m.tables
    ensures Missing(t, root, la) == Missing(m, root, la)
  {
  }

  /** Writing a leaf word opens and closes nothing. */
  lemma OpenedWritten(m: Memory, lv: Levels, g: Memory, glv: Levels, n: Memory, root: Frame, la: nat, s: Slot, w: nat)
    requires Opened(m, lv, g, root, la, true, true) && LeafWritten(g, glv, s, w, n) && OnlyPage(g, glv, n, root, la, w)
    requires forall q :: IsRoot(lv, q) ==> IsRoot(glv, q)
    ensures Opened(m, lv, n, root, la, true, true)
  {
    hide Pte;
    forall q: Frame, lb: nat | IsRoot(lv, q) && User(lb)
      ensures HasDir(n, q, lb) <==> HasDir(m, q, lb) || (q == root && lb / PDSIZE == la / PDSIZE)
      ensures HasTable(n, q, lb) <==> HasTable(m, q, lb) || (q == root && lb / PTSIZE == la / PTSIZE)
    {
      WrittenSlots(g, glv, s, w, n, Slot(q, Pdx1(lb)));
      DirsWritten(g, glv, s, w, n, q, lb);
      assert Walk(n, q, lb) == Walk(g, q, lb);
      assert HasTable(n, q, lb) == HasTable(g, q, lb);
    }
  }

  lemma DirsWritten(g: Memory, glv: Levels, s: Slot, w: nat, n: Memory, q: Frame, lb: nat)
    requires LeafWritten(g, glv, s, w, n) && q in glv && glv[q] == 2
    ensures HasDir(n, q, lb) == HasDir(g, q, lb)
  {
    WrittenSlots(g, glv, s, w, n, Slot(q, Pdx1(lb)));
  }

  /** The frame mapped at la goes back when another page is mapped there. */
  function ReturnedFor(m: Memory, root: Frame, la: nat, page: Frame): nat {
    if Ppn(Pte(m, root, la)) == page then 0 else Returned(m, root, la)
  }

  lemma InsertSpends(m: Memory, lv: Levels, g: Memory, glv: Levels, root: Frame, la: nat, s: Slot, page: Frame,
                     perm: nat)
    requires Ok(m, lv) && Ok(g, glv) && Grown(m, lv, g, glv) && IsRoot(lv, root) && User(la) && perm < 1024
    requires Mappable(m, lv, page) && Walk(g, root, la) == Some(s) && Opened(m, lv, g, root, la, true, true)
    ensures IsLeaf(g, glv, s) && Removable(g, s) && page in g.refs
    ensures Opened(m, lv, InsertedPte(g, s, page, perm), root, la, true, true)
    ensures |InsertedPte(g, s, page, perm).free| == |g.free| + ReturnedFor(m, root, la, page)
  {
    hide InsertedPte, SetWord, RemovedPte, DropRef, Structure, Counted, Walk, Namers, Pte, HasDir, HasTable, Opened;
    WalkLeaf(g, glv, root, la);
    NamedOnce(g, glv, s);
    var n, w := InsertedPte(g, s, page, perm), PteCreate(page, perm);
    InsertOk(g, glv, s, page, perm);
    InsertEffect(g, s, page, perm);
    WrittenWalks(g, glv, s, w, n, root, la);
    OpenedWritten(m, lv, g, glv, n, root, la, s, w);
    assert Pte(g, root, la) == Pte(m, root, la) == Entry(g, s);
    var d := Ppn(Entry(g, s));
    if ReturnedFor(m, root, la, page) == 1 {
      assert n.free == g.free + {d};
    } else {
      assert n.free == g.free;
    }
  }

  /** A frame just taken off the free list (and perhaps filled) was mapped: page first, as in
      pgdir_alloc_page, or tables first, as in copy_range. */
  lemma PutFresh(m: Memory, lv: Levels, g: Memory, glv: Levels, t: Memory, n: Memory, nlv: Levels, root: Frame, la: nat,
                 f: Frame, perm: nat)
    requires Ok(m, lv) && Ok(g, glv) && Grown(m, lv, g, glv) && IsRoot(lv, root) && User(la) && perm < 1024
    requires f in g.free && f in g.refs && t.tables == g.tables && t.refs == g.refs && t.free == g.free - {f}
    requires Inserted(t, glv, n, nlv, root, la, f, perm) && (Opened(m, lv, g, root, la, true, true) || g == m)
    requires Opened(t, glv, n, root, la, true, true)
    requires |n.free| == |t.free| - Missing(t, root, la) + ReturnedFor(t, root, la, f)
    requires |g.free| == |m.free| - Missing(m, root, la) + Missing(g, root, la)
    ensures FramePut(m, lv, n, nlv, root, la, f, PteCreate(f, perm)) && n.refs[f] == 1
  {
    hide Walk, Pte, Structure, Counted, Namers, HasDir, HasTable, Opened, PtesInserted, KeepsWalks, Inserted, Missing, Grown,
         Returned, ReturnedFor;
    PutOpened(m, lv, g, glv, t, n, root, la);
    PutCounts(m, lv, g, glv, t, n, nlv, root, la, f, perm);
    PutPtes(m, lv, g, glv, t, n, root, la, PteCreate(f, perm));
  }

  lemma PutCounts(m: Memory, lv: Levels, g: Memory, glv: Levels, t: Memory, n: Memory, nlv: Levels, root: Frame,
                  la: nat,
                  f: Frame, perm: nat)
    requires Ok(m, lv) && Ok(g, glv) && Grown(m, lv, g, glv) && IsRoot(lv, root) && User(la) && perm < 1024
    requires f in g.free && f in g.refs && t.tables == g.tables && t.refs == g.refs && t.free == g.free - {f}
    requires Inserted(t, glv, n, nlv, root, la, f, perm)
    ensures f in m.free && f in n.refs && n.refs[f] == 1 && n.refs.Keys == m.refs.Keys && |t.free| == |g.free| - 1
    ensures PtesInserted(t, glv, n, root, la, PteCreate(f, perm))
    ensures forall q :: q in lv ==> q in nlv && nlv[q] == lv[q]
    ensures forall q :: q in nlv && q !in lv ==> q in m.free && nlv[q] < 2
    ensures forall d :: d in m.refs && d !in nlv && d != f ==>
              n.refs[d] == m.refs[d] - (if Valid(Pte(m, root, la)) && Ppn(Pte(m, root, la)) == d then 1 else 0)
    ensures ReturnedFor(t, root, la, f) == Returned(m, root, la)
  {
    hide Walk, Pte, Structure, Counted, Namers, HasDir, HasTable, PtesInserted, KeepsWalks;
    NoNamers(g, glv, f);
    PtesTables(g, t, root, la);
    PageOf(m, lv, root, la);
    PageOf(g, glv, root, la);
    GrownPte(m, lv, g, glv, root, la);
  }

  lemma PtesTables(g: Memory, t: Memory, root: Frame, la: nat)
    requires t.tables == g.tables
    ensures Pte(t, root, la) == Pte(g, root, la) && Walk(t, root, la) == Walk(g, root, la)
  {
  }

  lemma GrownPte(m: Memory, lv: Levels, g: Memory, glv: Levels, q: Frame, lb: nat)
    requires Grown(m, lv, g, glv) && IsRoot(lv, q) && User(lb)
    ensures Pte(g, q, lb) == Pte(m, q, lb) && (Walk(m, q, lb).Some? ==> Walk(g, q, lb) == Walk(m, q, lb))
  {
    hide Pte, Walk;
    assert Pte(g, q, lb) == Pte(g, q, lb);
  }

  lemma PutOpened(m: Memory, lv: Levels, g: Memory, glv: Levels, t: Memory, n: Memory, root: Frame, la: nat)
    requires Grown(m, lv, g, glv) && t.tables == g.tables && (Opened(m, lv, g, root, la, true, true) || g == m)
    requires Opened(t, glv, n, root, la, true, true)
    ensures Opened(m, lv, n, root, la, true, true) && Missing(t, root, la) == Missing(g, root, la)
  {
    hide KeepsWalks, HasDir, HasTable, Missing;
    OpenedTables(g, t, glv, n, root, la);
    if g == m {
      FewerRoots(m, lv, glv, n, root, la);
    } else {
      OpenedTrans(m, lv, g, glv, n, root, la, true);
    }
  }

  lemma FewerRoots(m: Memory, lv: Levels, glv: Levels, n: Memory, root: Frame, la: nat)
    requires Opened(m, glv, n, root, la, true, true) && forall q :: IsRoot(lv, q) ==> IsRoot(glv, q)
    ensures Opened(m, lv, n, root, la, true, true)
  {
    hide HasDir, HasTable;
  }

  lemma PutPtes(m: Memory, lv: Levels, g: Memory, glv: Levels, t: Memory, n: Memory, root: Frame, la: nat, w: nat)
    requires Grown(m, lv, g, glv) && t.tables == g.tables && PtesInserted(t, glv, n, root, la, w)
    ensures PtesInserted(m, lv, n, root, la, w)
  {
    hide Pte, Walk;
    forall q, lb | IsRoot(lv, q) && User(lb)
      ensures && Pte(n, q, lb) == (if q == root && Page(lb) == Page(la) then w else Pte(m, q, lb))
              && (Walk(m, q, lb).Some? ==> Walk(n, q, lb) == Walk(m, q, lb))
    {
      PtesTables(g, t, q, lb);
      GrownPte(m, lv, g, glv, q, lb);
      assert IsRoot(glv, q);
      assert Pte(n, q, lb) == Pte(n, q, lb);
    }
  }

  // ----- mapping a sequence of pages -----

  /** The address of page number p. */
  function Addr(p: nat): nat {
    p * PGSIZE
  }

  predicate DirOpen(m: Memory, root: Frame, s: seq<nat>, p: nat) {
    HasDir(m, root, Addr(p)) || exists q :: q in s && q / 0x4_0000 == p / 0x4_0000
  }

  predicate TableOpen(m: Memory, root: Frame, s: seq<nat>, p: nat) {
    HasTable(m, root, Addr(p)) || exists q :: q in s && q / 512 == p / 512
  }

  /** Tables to make for page p once the pages s have been mapped since m. */
  function Need(m: Memory, root: Frame, s: seq<nat>, p: nat): nat {
    (if DirOpen(m, root, s, p) then 0 else 1) + (if TableOpen(m, root, s, p) then 0 else 1)
  }

  predicate NamesFrame(m: Memory, root: Frame, p: nat, d: Frame) {
    Valid(Pte(m, root, Addr(p))) && Ppn(Pte(m, root, Addr(p))) == d
  }

  /** How many of the pages s were mapped to frame d in m. */
  function Count(m: Memory, root: Frame, s: seq<nat>, d: Frame): nat {
    if s == [] then 0
    else
      var r, p := s[..|s| - 1], s[|s| - 1];
      Count(m, root, r, d) + (if p !in r && NamesFrame(m, root, p, d) then 1 else 0)
  }

  /** The frame that comes back when page p is mapped after the pages s. */
  function Back(m: Memory, root: Frame, s: seq<nat>, p: nat): nat {
    var w := Pte(m, root, Addr(p));
    if p in s || (Valid(w) && Ppn(w) in m.refs && m.refs[Ppn(w)] - Count(m, root, s, Ppn(w)) == 1) then 1 else 0
  }

  /** Frames left after fresh frames have been mapped at the pages s, in order. */
  function Avail(m: Memory, root: Frame, s: seq<nat>): int {
    if s == [] then |m.free|
    else
      var r, p := s[..|s| - 1], s[|s| - 1];
      Avail(m, root, r) - Need(m, root, r, p) - 1 + Back(m, root, r, p)
  }

  /** Mapping the pages ps after s: done, or short of a table, or of just the page. */
  function Verdict(m: Memory, root: Frame, s: seq<nat>, ps: seq<nat>): Outcome
    decreases |ps|
  {
    if ps == [] then Done
    else
      var left := Avail(m, root, s) - Need(m, root, s, ps[0]);
      if left < 0 then NoMem else if left == 0 then Panic else Verdict(m, root, s + [ps[0]], ps[1..])
  }

  // ----- the account and the memory -----

  predicate SoleMapped(m: Memory, root: Frame, p: nat) {
    var w := Pte(m, root, Addr(p));
    Valid(w) && Ppn(w) in m.refs && m.refs[Ppn(w)] == 1
  }

  predicate AsBefore(z: Memory, m: Memory, root: Frame, s: seq<nat>, p: nat) {
    var w := Pte(m, root, Addr(p));
    && w == Pte(z, root, Addr(p))
    && (Valid(w) ==> Ppn(w) in m.refs && Ppn(w) in z.refs && m.refs[Ppn(w)] == z.refs[Ppn(w)] - Count(z, root, s, Ppn(w)))
  }

  predicate LedgerAt(z: Memory, m: Memory, root: Frame, s: seq<nat>, p: nat) {
    && HasDir(m, root, Addr(p)) == DirOpen(z, root, s, p)
    && HasTable(m, root, Addr(p)) == TableOpen(z, root, s, p)
    && (if p in s then SoleMapped(m, root, p) else AsBefore(z, m, root, s, p))
  }

  /** m is z after fresh frames were mapped at the pages s of root. */
  ghost predicate Ledger(z: Memory, m: Memory, root: Frame, s: seq<nat>) {
    && |m.free| == Avail(z, root, s)
    && forall p: nat {:trigger LedgerAt(z, m, root, s, p)} :: p < USER_PAGES ==> LedgerAt(z, m, root, s, p)
  }

  lemma LedgerStart(m: Memory, lv: Levels, root: Frame)
    requires Ok(m, lv) && IsRoot(lv, root)
    ensures Ledger(m, m, root, [])
  {
    forall p: nat | p < USER_PAGES ensures LedgerAt(m, m, root, [], p) {
      PageOf(m, lv, root, Addr(p));
    }
  }

  lemma PageRegions(p: nat, q: nat)
    ensures Addr(q) / PDSIZE == Addr(p) / PDSIZE <==> q / 0x4_0000 == p / 0x4_0000
    ensures Addr(q) / PTSIZE == Addr(p) / PTSIZE <==> q / 512 == p / 512
    ensures Page(Addr(p)) == p && (p < USER_PAGES <==> User(Addr(p)))
  {
    AddrRegions(p);
    AddrRegions(q);
  }

  lemma AddrRegions(p: nat)
    ensures Addr(p) / PDSIZE == p / 0x4_0000 && Addr(p) / PTSIZE == p / 512
  {
  }

  /** What the account says about page p is what the memory says. */
  lemma LedgerNeed(z: Memory, m: Memory, root: Frame, s: seq<nat>, p: nat)
    requires Ledger(z, m, root, s) && p < USER_PAGES
    ensures Need(z, root, s, p) == Missing(m, root, Addr(p)) && Back(z, root, s, p) == Returned(m, root, Addr(p))
  {
    hide Pte, Avail;
    assert LedgerAt(z, m, root, s, p);
  }

  /** The tables after page p, page by page. */
  lemma OpenStep(z: Memory, m: Memory, lv: Levels, n: Memory, root: Frame, s: seq<nat>, p: nat, q: nat)
    requires IsRoot(lv, root) && p < USER_PAGES && q < USER_PAGES && LedgerAt(z, m, root, s, q)
    requires Opened(m, lv, n, root, Addr(p), true, true)
    ensures HasDir(n, root, Addr(q)) == DirOpen(z, root, s + [p], q)
    ensures HasTable(n, root, Addr(q)) == TableOpen(z, root, s + [p], q)
  {
    hide Pte, Walk, HasDir, HasTable, SoleMapped, AsBefore;
    PageRegions(p, q);
    var t := s + [p];
    assert p in t && forall x :: x in s ==> x in t;
    assert HasDir(n, root, Addr(q)) <==> HasDir(m, root, Addr(q)) || q / 0x4_0000 == p / 0x4_0000;
    assert HasTable(n, root, Addr(q)) <==> HasTable(m, root, Addr(q)) || q / 512 == p / 512;
  }

  /** A page mapped elsewhere keeps its frame, and its count goes down with page p's frame. */
  lemma OtherPage(m: Memory, lv: Levels, n: Memory, nlv: Levels, root: Frame, p: nat, f: Frame, w: nat, q: nat)
    requires Ok(m, lv) && IsRoot(lv, root) && p < USER_PAGES && q < USER_PAGES && p != q
    requires FramePut(m, lv, n, nlv, root, Addr(p), f, w)
    ensures Pte(n, root, Addr(q)) == Pte(m, root, Addr(q))
    ensures Valid(Pte(m, root, Addr(q))) ==>
              var d := Ppn(Pte(m, root, Addr(q)));
              && d in m.refs && d in n.refs && (SoleMapped(m, root, q) ==> !NamesFrame(m, root, p, d))
              && n.refs[d] == m.refs[d] - (if NamesFrame(m, root, p, d) then 1 else 0)
  {
    hide Pte, Walk, Structure, Counted, Opened, Missing;
    PageRegions(p, q);
    PageRegions(q, p);
    PageOf(m, lv, root, Addr(q));
    assert Pte(n, root, Addr(q)) == Pte(m, root, Addr(q));
    if SoleMapped(m, root, q) && NamesFrame(m, root, p, Ppn(Pte(m, root, Addr(q)))) {
      SoleOwner(m, lv, root, Addr(q), root, Addr(p));
    }
  }

  lemma SoleElsewhere(m: Memory, lv: Levels, root: Frame, p: nat, q: nat)
    requires Ok(m, lv) && IsRoot(lv, root) && p < USER_PAGES && q < USER_PAGES && p != q && SoleMapped(m, root, p)
    ensures Valid(Pte(m, root, Addr(q))) ==> !NamesFrame(m, root, p, Ppn(Pte(m, root, Addr(q))))
  {
    hide Pte, Structure, Counted;
    PageRegions(p, q);
    PageRegions(q, p);
    if Valid(Pte(m, root, Addr(q))) && NamesFrame(m, root, p, Ppn(Pte(m, root, Addr(q)))) {
      SoleOwner(m, lv, root, Addr(p), root, Addr(q));
    }
  }

  lemma LedgerStepAt(z: Memory, m: Memory, lv: Levels, n: Memory, nlv: Levels, root: Frame, s: seq<nat>, p: nat,
                     f: Frame, w: nat, q: nat)
    requires Ok(m, lv) && IsRoot(lv, root) && p < USER_PAGES && q < USER_PAGES && Ledger(z, m, root, s)
    requires FramePut(m, lv, n, nlv, root, Addr(p), f, w)
    ensures LedgerAt(z, n, root, s + [p], q)
  {
    hide Pte, Walk, Structure, Counted, HasDir, HasTable, Opened, Missing, Avail, DirOpen, TableOpen;
    assert LedgerAt(z, m, root, s, q) && LedgerAt(z, m, root, s, p);
    OpenStep(z, m, lv, n, root, s, p, q);
    var t := s + [p];
    assert t[..|t| - 1] == s;
    PageRegions(p, q);
    PageRegions(q, p);
    if q == p {
      assert Pte(n, root, Addr(p)) == w;
    } else {
      OtherPage(m, lv, n, nlv, root, p, f, w, q);
      if p in s {
        SoleElsewhere(m, lv, root, p, q);
      }
    }
  }

  /** Mapping one more fresh page carries the account on. */
  lemma LedgerStep(z: Memory, m: Memory, lv: Levels, n: Memory, nlv: Levels, root: Frame, s: seq<nat>, p: nat,
                   f: Frame, w: nat)
    requires Ok(m, lv) && IsRoot(lv, root) && p < USER_PAGES && Ledger(z, m, root, s)
    requires FramePut(m, lv, n, nlv, root, Addr(p), f, w)
    ensures Ledger(z, n, root, s + [p])
  {
    hide Pte, Walk, Structure, Counted, LedgerAt, Need, Back, Missing, Returned, Opened;
    LedgerNeed(z, m, root, s, p);
    var t := s + [p];
    assert t[..|t| - 1] == s;
    forall q: nat | q < USER_PAGES ensures LedgerAt(z, n, root, t, q) {
      LedgerStepAt(z, m, lv, n, nlv, root, s, p, f, w, q);
    }
  }

  /** The account reads tables, counts and the free set, not the contents. */
  lemma LedgerFill(z: Memory, m: Memory, n: Memory, root: Frame, s: seq<nat>)
    requires Ledger(z, m, root, s) && n.tables == m.tables && n.refs == m.refs && n.free == m.free
    ensures Ledger(z, n, root, s)
  {
    hide Avail, DirOpen, TableOpen, Count;
    forall p: nat | p < USER_PAGES ensures LedgerAt(z, n, root, s, p) {
      assert LedgerAt(z, m, root, s, p);
    }
  }

  /** The next page goes well, or is short of a table, or of itself, as the memory says. */
  lemma VerdictNext(z: Memory, m: Memory, root: Frame, s: seq<nat>, ps: seq<nat>)
    requires Ledger(z, m, root, s) && ps != [] && ps[0] < USER_PAGES
    ensures var need := Missing(m, root, Addr(ps[0]));
            Verdict(z, root, s, ps) ==
            if |m.free| < need then NoMem else if |m.free| == need then Panic
            else Verdict(z, root, s + [ps[0]], ps[1..])
  {
    hide Need, Missing, Avail;
    LedgerNeed(z, m, root, s, ps[0]);
  }

  // ----- closed forms where nothing was mapped before -----

  ghost predicate Blank(m: Memory, root: Frame, s: seq<nat>) {
    forall p {:trigger Pte(m, root, Addr(p))} :: p in s ==> !Valid(Pte(m, root, Addr(p)))
  }

  /** The tables that mapping the pages s makes. */
  function Tables(m: Memory, root: Frame, s: seq<nat>): nat {
    if s == [] then 0 else Tables(m, root, s[..|s| - 1]) + Need(m, root, s[..|s| - 1], s[|s| - 1])
  }

  /** The frames that mapping the pages s takes. */
  function Frames(m: Memory, root: Frame, s: seq<nat>): nat {
    |s| + Tables(m, root, s)
  }

  lemma FramesNext(m: Memory, root: Frame, s: seq<nat>, p: nat)
    ensures Frames(m, root, s + [p]) == Frames(m, root, s) + Need(m, root, s, p) + 1
  {
    hide Need;
    var t := s + [p];
    assert t[..|t| - 1] == s;
  }

  lemma {:induction false} FramesGrow(m: Memory, root: Frame, s: seq<nat>, ps: seq<nat>, k: nat)
    requires k < |ps|
    ensures Frames(m, root, s + ps[..k]) < Frames(m, root, s + ps)
    decreases |ps|
  {
    hide Frames;
    var l := |ps| - 1;
    assert s + ps == (s + ps[..l]) + [ps[l]];
    FramesNext(m, root, s + ps[..l], ps[l]);
    if k < l {
      FramesGrow(m, root, s, ps[..l], k);
      assert ps[..l][..k] == ps[..k];
    }
  }

  lemma {:induction false} AvailBlank(m: Memory, root: Frame, s: seq<nat>)
    requires Blank(m, root, s) && Distinct(s)
    ensures Avail(m, root, s) == |m.free| - Frames(m, root, s)
  {
    hide Pte, Need;
    if s != [] {
      var r, p := s[..|s| - 1], s[|s| - 1];
      assert s == r + [p];
      AvailBlank(m, root, r);
    }
  }

  /** With nothing mapped before, the frames needed decide: enough of them for all pages, or
      one short of some page, or short of a table. */
  lemma {:induction false} VerdictBlank(m: Memory, root: Frame, s: seq<nat>, ps: seq<nat>)
    requires Blank(m, root, s + ps) && Distinct(s + ps) && |m.free| >= Frames(m, root, s)
    ensures Verdict(m, root, s, ps) == Done <==> |m.free| >= Frames(m, root, s + ps)
    ensures Verdict(m, root, s, ps) == Panic <==>
              exists k :: 0 < k <= |ps| && |m.free| + 1 == Frames(m, root, s + ps[..k])
    decreases |ps|
  {
    hide Pte, Need, Frames, Avail, Distinct, Blank;
    if ps == [] {
      assert s + ps == s;
    } else {
      var p, t := ps[0], s + [ps[0]];
      assert t + ps[1..] == s + ps;
      PrefixBlank(m, root, s, ps);
      AvailBlank(m, root, s);
      FramesNext(m, root, s, p);
      assert s + ps[..1] == t;
      if |m.free| >= Frames(m, root, t) {
        VerdictBlank(m, root, t, ps[1..]);
        ShortLater(m, root, s, ps);
      } else {
        ShortNow(m, root, s, ps);
      }
    }
  }

  lemma PrefixBlank(m: Memory, root: Frame, s: seq<nat>, ps: seq<nat>)
    requires Blank(m, root, s + ps) && Distinct(s + ps)
    ensures Blank(m, root, s) && Distinct(s)
  {
    var t := s + ps;
    assert forall i :: 0 <= i < |s| ==> s[i] == t[i];
  }

  lemma ShortLater(m: Memory, root: Frame, s: seq<nat>, ps: seq<nat>)
    requires ps != [] && |m.free| >= Frames(m, root, s + [ps[0]])
    ensures (exists k :: 0 < k <= |ps| && |m.free| + 1 == Frames(m, root, s + ps[..k])) <==>
            (exists k :: 0 < k <= |ps[1..]| && |m.free| + 1 == Frames(m, root, (s + [ps[0]]) + ps[1..][..k]))
  {
    hide Frames;
    assert s + ps[..1] == s + [ps[0]];
    forall k | 0 < k <= |ps[1..]| ensures (s + [ps[0]]) + ps[1..][..k] == s + ps[..k + 1] {
    }
    if k :| 0 < k <= |ps| && |m.free| + 1 == Frames(m, root, s + ps[..k]) {
      assert k > 1;
      assert (s + [ps[0]]) + ps[1..][..k - 1] == s + ps[..k];
    }
  }

  lemma ShortNow(m: Memory, root: Frame, s: seq<nat>, ps: seq<nat>)
    requires ps != [] && |m.free| < Frames(m, root, s + [ps[0]])
    ensures |m.free| < Frames(m, root, s + ps)
    ensures (exists k :: 0 < k <= |ps| && |m.free| + 1 == Frames(m, root, s + ps[..k])) <==>
            |m.free| + 1 == Frames(m, root, s + [ps[0]])
  {
    hide Frames;
    assert s + ps[..1] == s + [ps[0]] && ps[..|ps|] == ps;
    forall k | 1 < k <= |ps| ensures Frames(m, root, s + [ps[0]]) < Frames(m, root, s + ps[..k]) {
      FramesGrow(m, root, s, ps[..k], 1);
      assert ps[..k][..1] == ps[..1];
    }
  }

  function Region(p: nat, size: nat): nat
    requires size > 0
  {
    p / size
  }

  /** The regions of `size` pages that s touches. */
  function Touched(s: seq<nat>, size: nat): set<nat>
    requires size > 0
  {
    set p | p in s :: Region(p, size)
  }

  /** Under a root without user directories, a table is made for each 2 MB region touched
      and a directory for each 1 GB region. */
  lemma {:induction false} TablesFresh(m: Memory, root: Frame, s: seq<nat>)
    requires forall p :: p in s ==> p < USER_PAGES && !HasDir(m, root, Addr(p))
    ensures Tables(m, root, s) == |Touched(s, 512)| + |Touched(s, 0x4_0000)|
  {
    hide HasDir, HasTable;
    if s != [] {
      var r, p := s[..|s| - 1], s[|s| - 1];
      assert s == r + [p];
      assert forall x :: x in r ==> x in s;
      TablesFresh(m, root, r);
      assert !HasTable(m, root, Addr(p)) by { NoDirNoTable(m, root, p); }
      TouchedNext(r, p, 512);
      TouchedNext(r, p, 0x4_0000);
    }
  }

  /** Frames that mapping the pages of s under a fresh root takes: the pages, a table for each
      2 MB region and a directory for each 1 GB region of them. */
  function FreshFrames(s: seq<nat>): nat {
    |s| + |Touched(s, 512)| + |Touched(s, 0x4_0000)|
  }

  /** A root under which nothing was ever mapped for the user. */
  ghost predicate FreshRoot(m: Memory, root: Frame) {
    forall la {:trigger Pte(m, root, la)} {:trigger HasDir(m, root, la)} :: User(la) ==>
      Pte(m, root, la) == 0 && !HasDir(m, root, la)
  }

  /** Under a fresh root what counts is the number of frames. */
  lemma VerdictFresh(m: Memory, root: Frame, ps: seq<nat>)
    requires FreshRoot(m, root) && Distinct(ps) && forall p :: p in ps ==> p < USER_PAGES
    ensures Verdict(m, root, [], ps) == Done <==> |m.free| >= FreshFrames(ps)
    ensures Verdict(m, root, [], ps) == Panic <==> exists k :: 0 < k <= |ps| && |m.free| + 1 == FreshFrames(ps[..k])
  {
    hide Verdict, FreshRoot, Frames, FreshFrames, Blank, HasDir;
    FreshPages(m, root, ps);
    NoPages(m, root);
    assert [] + ps == ps;
    VerdictBlank(m, root, [], ps);
    forall k | 0 <= k <= |ps| ensures [] + ps[..k] == ps[..k] && Frames(m, root, ps[..k]) == FreshFrames(ps[..k]) {
      forall p | p in ps[..k] ensures p in ps {
      }
      FramesFresh(m, root, ps[..k]);
    }
    assert ps[..|ps|] == ps;
  }

  lemma FreshPages(m: Memory, root: Frame, ps: seq<nat>)
    requires FreshRoot(m, root) && forall p :: p in ps ==> p < USER_PAGES
    ensures Blank(m, root, ps) && forall p :: p in ps ==> !HasDir(m, root, Addr(p))
  {
    hide Pte, HasDir;
    forall p | p in ps ensures !HasDir(m, root, Addr(p)) && !Valid(Pte(m, root, Addr(p))) {
      PageRegions(p, p);
    }
  }

  lemma FramesFresh(m: Memory, root: Frame, ps: seq<nat>)
    requires forall p :: p in ps ==> p < USER_PAGES && !HasDir(m, root, Addr(p))
    ensures Frames(m, root, ps) == FreshFrames(ps)
  {
    hide HasDir, Touched, Tables;
    TablesFresh(m, root, ps);
  }

  lemma NoPages(m: Memory, root: Frame)
    ensures Frames(m, root, []) == 0
  {
  }

  lemma NoDirNoTable(m: Memory, root: Frame, p: nat)
    ensures HasTable(m, root, Addr(p)) ==> HasDir(m, root, Addr(p))
  {
  }

  lemma TouchedNext(r: seq<nat>, p: nat, size: nat)
    requires size > 0
    ensures |Touched(r + [p], size)| ==
            |Touched(r, size)| + (if exists q :: q in r && Region(q, size) == Region(p, size) then 0 else 1)
  {
    hide Region;
    assert forall x :: x in r + [p] <==> x in r || x == p;
    assert Touched(r + [p], size) == Touched(r, size) + {Region(p, size)};
  }

  // ----- the pages of a range -----

  /** The pages of [lo, hi) that root maps. */
  function MappedPages(m: Memory, root: Frame, lo: nat, hi: nat): seq<nat>
    decreases hi - lo
  {
    if lo >= hi then []
    else (if Valid(Pte(m, root, Addr(lo))) then [lo] else []) + MappedPages(m, root, lo + 1, hi)
  }

  function PageRange(lo: nat, hi: nat): (r: seq<nat>)
    ensures |r| == if lo < hi then hi - lo else 0
    ensures forall i :: 0 <= i < |r| ==> r[i] == lo + i
  {
    if lo < hi then seq(hi - lo, i requires 0 <= i => lo + i) else []
  }

  lemma {:induction false} MappedMember(m: Memory, root: Frame, lo: nat, hi: nat, p: nat)
    ensures p in MappedPages(m, root, lo, hi) <==> lo <= p < hi && Valid(Pte(m, root, Addr(p)))
    decreases hi - lo
  {
    hide Pte;
    if lo < hi {
      MappedMember(m, root, lo + 1, hi, p);
    }
  }

  lemma {:induction false} MappedDistinct(m: Memory, root: Frame, lo: nat, hi: nat)
    ensures Distinct(MappedPages(m, root, lo, hi))
    decreases hi - lo
  {
    hide Pte;
    if lo < hi {
      MappedDistinct(m, root, lo + 1, hi);
      MappedMember(m, root, lo + 1, hi, lo);
      if Valid(Pte(m, root, Addr(lo))) {
        DistinctCons(lo, MappedPages(m, root, lo + 1, hi));
      }
    }
  }

  /** A stretch that maps nothing adds nothing. */
  lemma {:induction false} MappedSkip(m: Memory, root: Frame, lo: nat, at: nat, hi: nat)
    requires lo <= at <= hi && forall p :: lo <= p < at ==> !Valid(Pte(m, root, Addr(p)))
    ensures MappedPages(m, root, lo, hi) == MappedPages(m, root, at, hi)
    decreases at - lo
  {
    hide Pte;
    if lo < at {
      MappedSkip(m, root, lo + 1, at, hi);
    }
  }

  lemma {:induction false} MappedSame(m: Memory, n: Memory, root: Frame, lo: nat, hi: nat)
    requires forall p :: lo <= p < hi ==> Pte(n, root, Addr(p)) == Pte(m, root, Addr(p))
    ensures MappedPages(n, root, lo, hi) == MappedPages(m, root, lo, hi)
    decreases hi - lo
  {
    hide Pte;
    if lo < hi {
      MappedSame(m, n, root, lo + 1, hi);
    }
  }

  /** Two stretches of pages one after the other. */
  lemma {:induction false} VerdictConcat(m: Memory, root: Frame, s: seq<nat>, ps: seq<nat>, qs: seq<nat>)
    ensures Verdict(m, root, s, ps + qs) ==
            if Verdict(m, root, s, ps) == Done then Verdict(m, root, s + ps, qs) else Verdict(m, root, s, ps)
    decreases |ps|
  {
    hide Avail, Need;
    if ps == [] {
      assert ps + qs == qs && s + ps == s;
    } else {
      assert (ps + qs)[1..] == ps[1..] + qs && (s + [ps[0]]) + ps[1..] == s + ps;
      VerdictConcat(m, root, s + [ps[0]], ps[1..], qs);
    }
  }
}
