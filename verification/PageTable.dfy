/** Page tables in physical memory: tables are frames holding 512 words, three levels deep,
    shared by nobody; leaf words name data frames that carry reference counts. The model
    covers user addresses, so only the first two words of a root count. */
module PageTable {
  import opened Sv39
  import opened Wrappers

  type Frame = nat

  /** Physical memory: the frames used as tables, Page.ref of every frame, the frames the
      allocator holds, and the contents of the other frames. */
  datatype Memory = Memory(tables: map<Frame, seq<nat>>, refs: map<Frame, int>, free: set<Frame>, data: map<Frame, seq<nat>>)

  /** Which frames are tables, and of which level: 2 for roots, 0 for leaf tables. */
  type Levels = map<Frame, nat>

  datatype Slot = Slot(table: Frame, index: nat)

  predicate IsTable(m: Memory, lv: Levels, f: Frame) {
    f in lv && lv[f] <= 2 && f in m.tables && |m.tables[f]| == 512 && f !in m.free && f in m.refs
  }

  predicate InTable(m: Memory, s: Slot) {
    s.table in m.tables && s.index < |m.tables[s.table]|
  }

  function Entry(m: Memory, s: Slot): nat
    requires InTable(m, s)
  {
    m.tables[s.table][s.index]
  }

  /** A valid directory word that user addresses can reach. */
  predicate DirSlot(m: Memory, lv: Levels, s: Slot) {
    && InTable(m, s) && s.table in lv && lv[s.table] > 0 && (lv[s.table] == 2 ==> s.index < 2)
    && Valid(Entry(m, s))
  }

  /** A valid leaf word. */
  predicate LeafSlot(m: Memory, lv: Levels, s: Slot) {
    InTable(m, s) && s.table in lv && lv[s.table] == 0 && Valid(Entry(m, s))
  }

  predicate PointsDown(m: Memory, lv: Levels, s: Slot)
    requires DirSlot(m, lv, s)
  {
    var t := Ppn(Entry(m, s));
    t in lv && lv[t] == lv[s.table] - 1
  }

  predicate HasBytes(m: Memory, d: Frame) {
    d in m.data && |m.data[d]| == PGSIZE
  }

  predicate PointsToData(m: Memory, lv: Levels, s: Slot)
    requires LeafSlot(m, lv, s)
  {
    var d := Ppn(Entry(m, s));
    d !in lv && d in m.refs && d !in m.free && HasBytes(m, d)
  }

  /** Some directory word leads to table t. */
  ghost predicate Reached(m: Memory, lv: Levels, t: Frame) {
    exists s :: DirSlot(m, lv, s) && Ppn(Entry(m, s)) == t
  }

  /** Directory words lead one level down, exactly one of them to each table. */
  ghost predicate Structure(m: Memory, lv: Levels) {
    && (forall f :: f in lv ==> IsTable(m, lv, f))
    && (forall s {:trigger DirSlot(m, lv, s)} :: DirSlot(m, lv, s) ==> PointsDown(m, lv, s))
    && (forall s, t {:trigger DirSlot(m, lv, s), DirSlot(m, lv, t)} ::
          DirSlot(m, lv, s) && DirSlot(m, lv, t) && Ppn(Entry(m, s)) == Ppn(Entry(m, t)) ==> s == t)
    && (forall t {:trigger Reached(m, lv, t)} :: t in lv && lv[t] < 2 ==> Reached(m, lv, t))
    && (forall f :: f in m.free ==> f in m.refs && HasBytes(m, f))
  }

  /** The valid leaf words naming frame d. */
  ghost function Namers(m: Memory, lv: Levels, d: Frame): set<Slot> {
    set f, i | f in lv && 0 <= i < 512 && LeafSlot(m, lv, Slot(f, i)) && Ppn(Entry(m, Slot(f, i))) == d :: Slot(f, i)
  }

  /** Reference counting: no leaf names a free frame or a table, and every other frame's
      reference count is the number of leaves naming it. */
  ghost predicate Counted(m: Memory, lv: Levels) {
    && (forall s {:trigger LeafSlot(m, lv, s)} :: LeafSlot(m, lv, s) ==> PointsToData(m, lv, s))
    && (forall d :: d in m.refs && d !in lv ==> m.refs[d] == |Namers(m, lv, d)|)
  }

  ghost predicate Ok(m: Memory, lv: Levels) {
    Structure(m, lv) && Counted(m, lv)
  }

  // ----- walking -----

  predicate IsRoot(lv: Levels, root: Frame) {
    root in lv && lv[root] == 2
  }

  /** get_pte without creation: the leaf slot for la, if both directories are there. */
  function Walk(m: Memory, root: Frame, la: nat): Option<Slot> {
    var s1 := Slot(root, Pdx1(la));
    if !InTable(m, s1) || !Valid(Entry(m, s1)) then None
    else
      var s0 := Slot(Ppn(Entry(m, s1)), Pdx0(la));
      if !InTable(m, s0) || !Valid(Entry(m, s0)) then None
      else Some(Slot(Ppn(Entry(m, s0)), Ptx(la)))
  }

  /** The leaf word for la, 0 where there is no leaf table. */
  function Pte(m: Memory, root: Frame, la: nat): nat {
    match Walk(m, root, la)
    case None => 0
    case Some(s) => if InTable(m, s) then Entry(m, s) else 0
  }

  /** The directory word of the root for la is there. */
  predicate HasDir(m: Memory, root: Frame, la: nat) {
    InTable(m, Slot(root, Pdx1(la))) && Valid(Entry(m, Slot(root, Pdx1(la))))
  }

  /** The leaf table for la is there. */
  predicate HasTable(m: Memory, root: Frame, la: nat) {
    Walk(m, root, la).Some?
  }

  /** How many tables a mapping of la still lacks: 0, 1 or 2. */
  function Missing(m: Memory, root: Frame, la: nat): nat {
    (if HasDir(m, root, la) then 0 else 1) + (if HasTable(m, root, la) then 0 else 1)
  }

  predicate User(la: nat) {
    la < USERTOP
  }

  /** A successful walk ends in a leaf table. */
  lemma WalkLeaf(m: Memory, lv: Levels, root: Frame, la: nat)
    requires Structure(m, lv) && IsRoot(lv, root) && User(la)
    ensures InTable(m, Slot(root, Pdx1(la)))
    ensures var s1 := Slot(root, Pdx1(la));
            Valid(Entry(m, s1)) ==>
              var s0 := Slot(Ppn(Entry(m, s1)), Pdx0(la));
              && s0.table in lv && lv[s0.table] == 1 && InTable(m, s0) && DirSlot(m, lv, s1)
              && (Valid(Entry(m, s0)) ==> DirSlot(m, lv, s0) && Walk(m, root, la).Some?)
    ensures Walk(m, root, la).Some? ==>
              var s := Walk(m, root, la).value;
              InTable(m, s) && s.table in lv && lv[s.table] == 0 && s.index < 512 && Pte(m, root, la) == Entry(m, s)
  {
    var s1 := Slot(root, Pdx1(la));
    assert IsTable(m, lv, root);
    if Valid(Entry(m, s1)) {
      assert DirSlot(m, lv, s1) && PointsDown(m, lv, s1);
      var s0 := Slot(Ppn(Entry(m, s1)), Pdx0(la));
      assert IsTable(m, lv, s0.table);
      if Valid(Entry(m, s0)) {
        assert DirSlot(m, lv, s0) && PointsDown(m, lv, s0);
        assert IsTable(m, lv, Ppn(Entry(m, s0)));
      }
    }
  }

  /** Different roots or different pages never share a leaf slot. */
  lemma WalksSeparate(m: Memory, lv: Levels, r: Frame, la: nat, q: Frame, lb: nat)
    requires Structure(m, lv) && IsRoot(lv, r) && IsRoot(lv, q) && User(la) && User(lb)
    requires Walk(m, r, la).Some? && Walk(m, q, lb).Some? && Walk(m, r, la) == Walk(m, q, lb)
    ensures r == q && Page(la) == Page(lb)
  {
    WalkLeaf(m, lv, r, la);
    WalkLeaf(m, lv, q, lb);
    var a1, b1 := Slot(r, Pdx1(la)), Slot(q, Pdx1(lb));
    var a0, b0 := Slot(Ppn(Entry(m, a1)), Pdx0(la)), Slot(Ppn(Entry(m, b1)), Pdx0(lb));
    assert DirSlot(m, lv, a0) && DirSlot(m, lv, b0);
    assert a0 == b0;
    assert DirSlot(m, lv, a1) && DirSlot(m, lv, b1);
    assert a1 == b1;
    SameIndices(la, lb);
  }

  lemma SamePageSameWalk(m: Memory, r: Frame, la: nat, lb: nat)
    requires Page(la) == Page(lb)
    ensures Walk(m, r, la) == Walk(m, r, lb) && Pte(m, r, la) == Pte(m, r, lb)
  {
    SamePage(la, lb);
  }

  /** Where the walk finds no leaf table, the whole 2 MB region is unmapped. */
  lemma SkipIsSafe(m: Memory, r: Frame, start: nat, la: nat)
    requires Walk(m, r, start).None? && start <= la < NextTable(start)
    ensures Walk(m, r, la).None? && Pte(m, r, la) == 0
  {
    NextTableBounds(start, la);
    SameTable(start, la);
  }

  // ----- the writes -----

  /** *slot = w. */
  function SetWord(m: Memory, s: Slot, w: nat): Memory
    requires InTable(m, s)
  {
    var row: seq<nat> := m.tables[s.table][s.index := w];
    m.(tables := m.tables[s.table := row])
  }

  lemma SetWordEntry(m: Memory, s: Slot, w: nat, t: Slot)
    requires InTable(m, s)
    ensures InTable(SetWord(m, s, w), t) == InTable(m, t)
    ensures InTable(m, t) ==> Entry(SetWord(m, s, w), t) == if t == s then w else Entry(m, t)
  {
  }

  function Zeros(): (z: seq<nat>)
    ensures |z| == 512 && forall i :: 0 <= i < 512 ==> z[i] == 0
  {
    seq(512, _ => 0)
  }

  /** The block of get_pte that takes frame t as a zeroed table and links it at slot s. */
  function GrowTable(m: Memory, s: Slot, t: Frame): Memory
    requires InTable(m, s) && s.table != t
  {
    SetWord(m.(tables := m.tables[t := Zeros()], refs := m.refs[t := 1], free := m.free - {t}), s, PteCreate(t, PTE_U + PTE_V))
  }

  /** What growing tables leaves as it was: contents, mappings, every other frame. */
  ghost predicate Grown(m: Memory, lv: Levels, n: Memory, nlv: Levels) {
    && n.data == m.data && n.refs.Keys == m.refs.Keys && n.free == m.free - nlv.Keys
    && (forall f :: f in lv ==> f in nlv && nlv[f] == lv[f])
    && (forall f :: f in nlv && f !in lv ==> f in m.free && nlv[f] < 2)
    && (forall f :: f in m.refs && f !in nlv ==> n.refs[f] == m.refs[f])
    && KeepsWalks(m, lv, n)
  }

  ghost predicate KeepsWalks(m: Memory, lv: Levels, n: Memory) {
    forall q, lb {:trigger Walk(n, q, lb)} {:trigger Pte(n, q, lb)} :: IsRoot(lv, q) && User(lb) ==>
      Pte(n, q, lb) == Pte(m, q, lb) && (Walk(m, q, lb).Some? ==> Walk(n, q, lb) == Walk(m, q, lb))
  }

  lemma GrownRefl(m: Memory, lv: Levels)
    requires Structure(m, lv)
    ensures Grown(m, lv, m, lv)
  {
    assert forall f :: f in lv ==> IsTable(m, lv, f);
    assert m.free == m.free - lv.Keys;
  }

  lemma GrownTrans(m: Memory, lv: Levels, n: Memory, nlv: Levels, o: Memory, olv: Levels)
    requires Grown(m, lv, n, nlv) && Grown(n, nlv, o, olv)
    ensures Grown(m, lv, o, olv)
  {
    forall q, lb | IsRoot(lv, q) && User(lb)
      ensures Pte(o, q, lb) == Pte(m, q, lb) && (Walk(m, q, lb).Some? ==> Walk(o, q, lb) == Walk(m, q, lb))
    {
      assert Pte(n, q, lb) == Pte(m, q, lb);
    }
  }

  /** A directory slot that may be filled: below a root only the two user words count. */
  predicate Growable(m: Memory, lv: Levels, s: Slot, t: Frame) {
    && InTable(m, s) && s.table in lv && lv[s.table] > 0 && (lv[s.table] == 2 ==> s.index < 2)
    && !Valid(Entry(m, s)) && t in m.free && t != s.table
  }

  lemma GrowEntry(m: Memory, lv: Levels, s: Slot, t: Frame, x: Slot)
    requires Structure(m, lv) && Growable(m, lv, s, t)
    ensures var n := GrowTable(m, s, t);
            && (InTable(m, x) && x.table != t ==> InTable(n, x) && Entry(n, x) == if x == s then PteCreate(t, 17) else Entry(m, x))
            && (x.table == t ==> InTable(n, x) == (x.index < 512))
            && (x.table == t && x.index < 512 ==> Entry(n, x) == 0)
            && (InTable(n, x) && x.table != t ==> InTable(m, x))
  {
  }

  lemma GrowDirSlots(m: Memory, lv: Levels, s: Slot, t: Frame, x: Slot)
    requires Structure(m, lv) && Growable(m, lv, s, t)
    ensures var n, nlv := GrowTable(m, s, t), lv[t := lv[s.table] - 1];
            && DirSlot(n, nlv, x) == (x == s || DirSlot(m, lv, x))
            && LeafSlot(n, nlv, x) == LeafSlot(m, lv, x)
            && (x != s && (DirSlot(m, lv, x) || LeafSlot(m, lv, x)) ==> InTable(m, x) && Entry(n, x) == Entry(m, x))
            && Entry(n, s) == PteCreate(t, 17)
  {
    GrowEntry(m, lv, s, t, x);
    GrowEntry(m, lv, s, t, s);
  }

  lemma GrowStructure(m: Memory, lv: Levels, s: Slot, t: Frame)
    requires Structure(m, lv) && Growable(m, lv, s, t)
    ensures Structure(GrowTable(m, s, t), lv[t := lv[s.table] - 1])
  {
    var n, nlv := GrowTable(m, s, t), lv[t := lv[s.table] - 1];
    forall f | f in nlv ensures IsTable(n, nlv, f) {
      assert f != t ==> IsTable(m, lv, f);
    }
    forall x | DirSlot(n, nlv, x) ensures PointsDown(n, nlv, x) {
      GrowDirSlots(m, lv, s, t, x);
      assert x != s ==> PointsDown(m, lv, x) && IsTable(m, lv, Ppn(Entry(m, x)));
    }
    forall u | u in nlv && nlv[u] < 2 ensures Reached(n, nlv, u) {
      GrowDirSlots(m, lv, s, t, s);
      if u != t {
        assert Reached(m, lv, u);
        var x :| DirSlot(m, lv, x) && Ppn(Entry(m, x)) == u;
        GrowDirSlots(m, lv, s, t, x);
        assert DirSlot(n, nlv, x) && Ppn(Entry(n, x)) == u;
      }
    }
    forall x, y | DirSlot(n, nlv, x) && DirSlot(n, nlv, y) && Ppn(Entry(n, x)) == Ppn(Entry(n, y)) ensures x == y {
      GrowDirSlots(m, lv, s, t, x);
      GrowDirSlots(m, lv, s, t, y);
      assert x != s ==> PointsDown(m, lv, x) && IsTable(m, lv, Ppn(Entry(m, x)));
      assert y != s ==> PointsDown(m, lv, y) && IsTable(m, lv, Ppn(Entry(m, y)));
    }
  }

  lemma GrowCounted(m: Memory, lv: Levels, s: Slot, t: Frame)
    requires Ok(m, lv) && Growable(m, lv, s, t)
    ensures Counted(GrowTable(m, s, t), lv[t := lv[s.table] - 1])
  {
    var n, nlv := GrowTable(m, s, t), lv[t := lv[s.table] - 1];
    forall x | LeafSlot(n, nlv, x) ensures PointsToData(n, nlv, x) {
      GrowDirSlots(m, lv, s, t, x);
      assert PointsToData(m, lv, x);
    }
    forall d | d in n.refs && d !in nlv ensures n.refs[d] == |Namers(n, nlv, d)| {
      forall x ensures x in Namers(n, nlv, d) <==> x in Namers(m, lv, d) {
        GrowDirSlots(m, lv, s, t, x);
        NamersIs(n, nlv, d, x);
        NamersIs(m, lv, d, x);
      }
      assert Namers(n, nlv, d) == Namers(m, lv, d);
    }
  }

  lemma NamersIs(m: Memory, lv: Levels, d: Frame, x: Slot)
    requires forall f :: f in lv ==> IsTable(m, lv, f)
    ensures x in Namers(m, lv, d) <==> LeafSlot(m, lv, x) && Ppn(Entry(m, x)) == d
  {
    if LeafSlot(m, lv, x) {
      assert IsTable(m, lv, x.table);
      assert x == Slot(x.table, x.index);
    }
  }

  /** Growing tables moves no mapping. */
  lemma GrowKeepsWalks(m: Memory, lv: Levels, s: Slot, t: Frame)
    requires Structure(m, lv) && Growable(m, lv, s, t)
    ensures KeepsWalks(m, lv, GrowTable(m, s, t))
  {
    var n := GrowTable(m, s, t);
    forall q, lb | IsRoot(lv, q) && User(lb)
      ensures Pte(n, q, lb) == Pte(m, q, lb) && (Walk(m, q, lb).Some? ==> Walk(n, q, lb) == Walk(m, q, lb))
    {
      GrowKeepsWalk(m, lv, s, t, q, lb);
    }
  }

  lemma GrowKeepsWalk(m: Memory, lv: Levels, s: Slot, t: Frame, q: Frame, lb: nat)
    requires Structure(m, lv) && Growable(m, lv, s, t) && IsRoot(lv, q) && User(lb)
    ensures var n := GrowTable(m, s, t);
            Pte(n, q, lb) == Pte(m, q, lb) && (Walk(m, q, lb).Some? ==> Walk(n, q, lb) == Walk(m, q, lb))
  {
    WalkLeaf(m, lv, q, lb);
    var n := GrowTable(m, s, t);
    var s1 := Slot(q, Pdx1(lb));
    GrowEntry(m, lv, s, t, s1);
    assert IsTable(m, lv, q);
    if s1 == s {
      GrowEntry(m, lv, s, t, Slot(t, Pdx0(lb)));
    } else if Valid(Entry(m, s1)) {
      var s0 := Slot(Ppn(Entry(m, s1)), Pdx0(lb));
      assert IsTable(m, lv, s0.table);
      GrowEntry(m, lv, s, t, s0);
      if s0 == s {
        GrowEntry(m, lv, s, t, Slot(t, Ptx(lb)));
      } else if Valid(Entry(m, s0)) {
        assert IsTable(m, lv, Ppn(Entry(m, s0)));
        GrowEntry(m, lv, s, t, Slot(Ppn(Entry(m, s0)), Ptx(lb)));
      }
    }
  }

  /** From m to n, root gained the directory (if dirs) and the leaf table (if tabs) for la;
      no other address space gained or lost a table. */
  ghost predicate Opened(m: Memory, lv: Levels, n: Memory, root: Frame, la: nat, dirs: bool, tabs: bool) {
    forall q: Frame, lb: nat {:trigger HasDir(n, q, lb)} {:trigger HasTable(n, q, lb)} :: IsRoot(lv, q) && User(lb) ==>
      && (HasDir(n, q, lb) <==> HasDir(m, q, lb) || (dirs && q == root && lb / PDSIZE == la / PDSIZE))
      && (HasTable(n, q, lb) <==> HasTable(m, q, lb) || (tabs && q == root && lb / PTSIZE == la / PTSIZE))
  }

  /** Slot s is the word get_pte fills for la: in the root, or in the directory below it. */
  predicate FilledFor(m: Memory, s: Slot, root: Frame, la: nat, tabs: bool) {
    if tabs then HasDir(m, root, la) && s == Slot(Ppn(Entry(m, Slot(root, Pdx1(la)))), Pdx0(la))
    else s == Slot(root, Pdx1(la))
  }

  lemma GrowOpens(m: Memory, lv: Levels, s: Slot, t: Frame, root: Frame, la: nat, tabs: bool, q: Frame, lb: nat)
    requires Structure(m, lv) && Growable(m, lv, s, t) && FilledFor(m, s, root, la, tabs)
    requires IsRoot(lv, root) && User(la) && IsRoot(lv, q) && User(lb)
    ensures var n := GrowTable(m, s, t);
            && (HasDir(n, q, lb) <==> HasDir(m, q, lb) || (q == root && lb / PDSIZE == la / PDSIZE))
            && (HasTable(n, q, lb) <==> HasTable(m, q, lb) || (tabs && q == root && lb / PTSIZE == la / PTSIZE))
  {
    Regions(la, lb);
    WalkLeaf(m, lv, q, lb);
    WalkLeaf(m, lv, root, la);
    var s1, r1 := Slot(q, Pdx1(lb)), Slot(root, Pdx1(la));
    GrowEntry(m, lv, s, t, s1);
    assert IsTable(m, lv, q) && IsTable(m, lv, root);
    if s1 == s {
      GrowEntry(m, lv, s, t, Slot(t, Pdx0(lb)));
    } else if Valid(Entry(m, s1)) {
      var s0 := Slot(Ppn(Entry(m, s1)), Pdx0(lb));
      assert IsTable(m, lv, s0.table);
      GrowEntry(m, lv, s, t, s0);
      assert DirSlot(m, lv, s1);
      assert tabs ==> DirSlot(m, lv, r1);
      if tabs && s0.table == s.table {
        assert s1 == r1;
      }
    }
  }

  lemma GrowOpened(m: Memory, lv: Levels, s: Slot, t: Frame, root: Frame, la: nat, tabs: bool)
    requires Structure(m, lv) && Growable(m, lv, s, t) && FilledFor(m, s, root, la, tabs)
    requires IsRoot(lv, root) && User(la)
    ensures Opened(m, lv, GrowTable(m, s, t), root, la, true, tabs)
  {
    var n := GrowTable(m, s, t);
    forall q: Frame, lb: nat | IsRoot(lv, q) && User(lb)
      ensures HasDir(n, q, lb) <==> HasDir(m, q, lb) || (q == root && lb / PDSIZE == la / PDSIZE)
      ensures HasTable(n, q, lb) <==> HasTable(m, q, lb) || (tabs && q == root && lb / PTSIZE == la / PTSIZE)
    {
      GrowOpens(m, lv, s, t, root, la, tabs, q, lb);
    }
  }

  /** Addresses of one region share their tables. */
  lemma SharedTables(m: Memory, root: Frame, la: nat, lb: nat)
    requires User(la) && User(lb)
    ensures lb / PDSIZE == la / PDSIZE ==> HasDir(m, root, lb) == HasDir(m, root, la)
    ensures lb / PTSIZE == la / PTSIZE ==> HasTable(m, root, lb) == HasTable(m, root, la)
    ensures HasTable(m, root, la) ==> HasDir(m, root, la)
  {
    Regions(la, lb);
  }

  /** The table-making block of get_pte keeps everything in order and moves no mapping. */
  lemma NewTable(m: Memory, lv: Levels, s: Slot, t: Frame)
    requires Ok(m, lv) && Growable(m, lv, s, t)
    ensures var n, nlv := GrowTable(m, s, t), lv[t := lv[s.table] - 1];
            Ok(n, nlv) && Grown(m, lv, n, nlv)
  {
    GrowStructure(m, lv, s, t);
    GrowCounted(m, lv, s, t);
    GrowKeepsWalks(m, lv, s, t);
    assert forall f :: f in lv ==> IsTable(m, lv, f);
    assert lv[s.table] <= 2 by { assert IsTable(m, lv, s.table); }
    assert GrowTable(m, s, t).free == m.free - lv[t := lv[s.table] - 1].Keys;
  }

  // ----- new roots -----

  /** boot_page_table_sv39: only the last word is set, a 1 GB leaf for the kernel. */
  function BootRoot(): (b: seq<nat>)
    ensures |b| == 512 && b[511] == 0x2000_00CF && forall i :: 0 <= i < 511 ==> b[i] == 0
  {
    seq(511, _ => 0) + [PteCreate(0x80000, 0xcf)]
  }

  const KERNBASE := 0xFFFF_FFFF_C020_0000
  const KERNTOP := KERNBASE + 0x7E0_0000
  const PHYSICAL_MEMORY_OFFSET := 0xFFFF_FFFF_4000_0000

  /** The last word of a root table is a readable, writable and executable 1 GB leaf, closed to
      the user: through it a kernel address reaches the physical memory it stands for. */
  lemma KernelWindow(ka: nat)
    requires KERNBASE <= ka < KERNTOP
    ensures var w := BootRoot()[Pdx1(ka)];
            && Valid(w) && w % 16 == 15 && (w / PTE_U) % 2 == 0
            && Ppn(w) * PGSIZE + ka % PDSIZE == ka - PHYSICAL_MEMORY_OFFSET
  {
    assert ka / PDSIZE == 0xFFFF_FFFF_C000_0000 / PDSIZE;
  }

  /** setup_pgdir: a free frame becomes a root, a copy of the boot root. */
  function AddRoot(m: Memory, t: Frame): Memory {
    m.(free := m.free - {t}, tables := m.tables[t := BootRoot()])
  }

  lemma RootSlots(m: Memory, lv: Levels, t: Frame, x: Slot)
    requires Structure(m, lv) && t in m.free
    ensures t !in lv
    ensures DirSlot(AddRoot(m, t), lv[t := 2], x) == DirSlot(m, lv, x)
    ensures LeafSlot(AddRoot(m, t), lv[t := 2], x) == LeafSlot(m, lv, x)
    ensures x.table != t ==> InTable(AddRoot(m, t), x) == InTable(m, x)
    ensures x.table != t && InTable(m, x) ==> Entry(AddRoot(m, t), x) == Entry(m, x)
  {
    assert t in lv ==> IsTable(m, lv, t);
  }

  /** A new root maps nothing for the user and moves no mapping. */
  lemma NewRoot(m: Memory, lv: Levels, t: Frame)
    requires Ok(m, lv) && t in m.free
    ensures var n, nlv := AddRoot(m, t), lv[t := 2];
            && Ok(n, nlv) && IsRoot(nlv, t) && KeepsWalks(m, lv, n)
            && (forall la {:trigger Pte(n, t, la)} {:trigger HasDir(n, t, la)} :: User(la) ==>
                  Pte(n, t, la) == 0 && !HasDir(n, t, la))
  {
    var n, nlv := AddRoot(m, t), lv[t := 2];
    RootStructure(m, lv, t);
    forall d | d in n.refs && d !in nlv ensures n.refs[d] == |Namers(n, nlv, d)| {
      forall x ensures x in Namers(n, nlv, d) <==> x in Namers(m, lv, d) {
        RootSlots(m, lv, t, x);
        NamersIs(n, nlv, d, x);
        NamersIs(m, lv, d, x);
      }
      assert Namers(n, nlv, d) == Namers(m, lv, d);
    }
    forall x | LeafSlot(n, nlv, x) ensures PointsToData(n, nlv, x) {
      RootSlots(m, lv, t, x);
      assert PointsToData(m, lv, x);
    }
    forall q, lb | IsRoot(lv, q) && User(lb)
      ensures Pte(n, q, lb) == Pte(m, q, lb) && (Walk(m, q, lb).Some? ==> Walk(n, q, lb) == Walk(m, q, lb))
    {
      RootKeepsWalk(m, lv, t, q, lb);
    }
  }

  lemma RootStructure(m: Memory, lv: Levels, t: Frame)
    requires Structure(m, lv) && t in m.free
    ensures Structure(AddRoot(m, t), lv[t := 2])
  {
    var n, nlv := AddRoot(m, t), lv[t := 2];
    forall f | f in nlv ensures IsTable(n, nlv, f) {
      assert f != t ==> IsTable(m, lv, f);
    }
    forall x | DirSlot(n, nlv, x) ensures PointsDown(n, nlv, x) {
      RootSlots(m, lv, t, x);
      assert PointsDown(m, lv, x) && IsTable(m, lv, Ppn(Entry(m, x)));
    }
    forall u | u in nlv && nlv[u] < 2 ensures Reached(n, nlv, u) {
      assert Reached(m, lv, u);
      var x :| DirSlot(m, lv, x) && Ppn(Entry(m, x)) == u;
      RootSlots(m, lv, t, x);
      assert DirSlot(n, nlv, x) && Ppn(Entry(n, x)) == u;
    }
    forall x, y | DirSlot(n, nlv, x) && DirSlot(n, nlv, y) && Ppn(Entry(n, x)) == Ppn(Entry(n, y)) ensures x == y {
      RootSlots(m, lv, t, x);
      RootSlots(m, lv, t, y);
    }
  }

  lemma RootKeepsWalk(m: Memory, lv: Levels, t: Frame, q: Frame, lb: nat)
    requires Structure(m, lv) && t in m.free && IsRoot(lv, q) && User(lb)
    ensures var n := AddRoot(m, t);
            Pte(n, q, lb) == Pte(m, q, lb) && Walk(n, q, lb) == Walk(m, q, lb)
  {
    WalkLeaf(m, lv, q, lb);
    var s1 := Slot(q, Pdx1(lb));
    RootSlots(m, lv, t, s1);
    if Valid(Entry(m, s1)) {
      var s0 := Slot(Ppn(Entry(m, s1)), Pdx0(lb));
      RootSlots(m, lv, t, s0);
      if Valid(Entry(m, s0)) {
        RootSlots(m, lv, t, Slot(Ppn(Entry(m, s0)), Ptx(lb)));
      }
    }
  }

  /** Before any table exists, with no frame referenced, the accounts are in order. */
  lemma StartOk(m: Memory)
    requires m.tables == map[] && forall f :: f in m.free ==> f in m.refs && HasBytes(m, f)
    requires forall f :: f in m.refs ==> m.refs[f] == 0
    ensures Ok(m, map[])
  {
    forall d | d in m.refs ensures Namers(m, map[], d) == {} {
    }
  }
}
