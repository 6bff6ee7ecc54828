/** exit_range of kern/mm/pmm.c and put_pgdir: giving back the page tables of an address space
    in which nothing is mapped any more, and the tables that get lost on the way. */
module PageExit {
  import opened Sv39
  import opened PageTable
  import opened PageMap
  import opened PageBudget
  import opened PageCopy
  import opened Mmu
  import opened Vmm

  // ----- an account that knows of lost tables -----

  /** As Ok, but for the frames `lost`: former tables that nothing leads to and nobody frees. */
  ghost predicate Accounted(m: Memory, lv: Levels, lost: set<Frame>) {
    && Structure(m, lv)
    && (forall s {:trigger LeafSlot(m, lv, s)} :: LeafSlot(m, lv, s) ==> PointsToData(m, lv, s) && Ppn(Entry(m, s)) !in lost)
    && (forall d :: d in m.refs && d !in lv && d !in lost ==> m.refs[d] == |Namers(m, lv, d)|)
    && lost !! lv.Keys && lost !! m.free && lost <= m.refs.Keys
  }

  lemma NothingLost(m: Memory, lv: Levels)
    ensures Accounted(m, lv, {}) <==> Ok(m, lv)
  {
  }

  /** free_page of a table; what it held does not matter any more. */
  function FreeTable(m: Memory, t: Frame): Memory {
    Memory(m.tables - {t}, m.refs[t := 0], m.free + {t}, m.data[t := ZeroPage()])
  }

  /** free_page of the table that slot s leads to, and the slot cleared. */
  function Cut(m: Memory, s: Slot, t: Frame): Memory
    requires InTable(m, s) && s.table != t
  {
    SetWord(FreeTable(m, t), s, 0)
  }

  /** xs is table t with the tables below it, none of which has a valid leaf word. */
  ghost predicate Branch(m: Memory, lv: Levels, t: Frame, xs: set<Frame>) {
    && t in xs && (forall x :: x in xs ==> x in lv && lv[x] < 2)
    && (forall r {:trigger DirSlot(m, lv, r)} :: DirSlot(m, lv, r) ==>
          (Ppn(Entry(m, r)) in xs <==> r.table in xs || Ppn(Entry(m, r)) == t))
    && (forall r {:trigger LeafSlot(m, lv, r)} :: LeafSlot(m, lv, r) ==> r.table !in xs)
  }

  ghost predicate Cuttable(m: Memory, lv: Levels, s: Slot, t: Frame, xs: set<Frame>) {
    Structure(m, lv) && DirSlot(m, lv, s) && t == Ppn(Entry(m, s)) && Branch(m, lv, t, xs) && s.table !in xs
  }

  lemma CutEntry(m: Memory, lv: Levels, s: Slot, t: Frame, xs: set<Frame>, r: Slot)
    requires Cuttable(m, lv, s, t, xs)
    ensures s.table != t && InTable(m, s)
    ensures var n, nlv := Cut(m, s, t), lv - xs;
            && (r.table != t ==> InTable(n, r) == InTable(m, r) && (InTable(m, r) ==> Entry(n, r) == if r == s then 0 else Entry(m, r)))
            && DirSlot(n, nlv, r) == (DirSlot(m, lv, r) && r != s && r.table !in xs)
            && LeafSlot(n, nlv, r) == LeafSlot(m, lv, r)
            && (DirSlot(n, nlv, r) || LeafSlot(n, nlv, r) ==> Entry(n, r) == Entry(m, r))
  {
  }

  lemma CutIs(m: Memory, lv: Levels, s: Slot, t: Frame, xs: set<Frame>)
    requires Cuttable(m, lv, s, t, xs)
    ensures s.table != t && InTable(m, s) && InTable(FreeTable(m, t), s)
    ensures Cut(m, s, t) == SetWord(FreeTable(m, t), s, 0)
  {
  }

  lemma CutStructure(m: Memory, lv: Levels, s: Slot, t: Frame, xs: set<Frame>)
    requires Cuttable(m, lv, s, t, xs)
    ensures s.table != t && Structure(Cut(m, s, t), lv - xs)
  {
    CutEntry(m, lv, s, t, xs, s);
    var n, nlv := Cut(m, s, t), lv - xs;
    forall f | f in nlv ensures IsTable(n, nlv, f) {
      assert IsTable(m, lv, f);
    }
    forall r | DirSlot(n, nlv, r) ensures PointsDown(n, nlv, r) {
      CutEntry(m, lv, s, t, xs, r);
      assert PointsDown(m, lv, r);
    }
    forall u | u in nlv && nlv[u] < 2 ensures Reached(n, nlv, u) {
      assert Reached(m, lv, u);
      var r :| DirSlot(m, lv, r) && Ppn(Entry(m, r)) == u;
      CutEntry(m, lv, s, t, xs, r);
      assert DirSlot(n, nlv, r) && Ppn(Entry(n, r)) == u;
    }
    forall x, y | DirSlot(n, nlv, x) && DirSlot(n, nlv, y) && Ppn(Entry(n, x)) == Ppn(Entry(n, y)) ensures x == y {
      CutEntry(m, lv, s, t, xs, x);
      CutEntry(m, lv, s, t, xs, y);
    }
  }

  /** Cutting a branch off frees its top table and loses the tables below. */
  lemma CutAccounted(m: Memory, lv: Levels, lost: set<Frame>, s: Slot, t: Frame, xs: set<Frame>)
    requires Accounted(m, lv, lost) && Cuttable(m, lv, s, t, xs)
    ensures s.table != t && Accounted(Cut(m, s, t), lv - xs, lost + (xs - {t}))
  {
    hide Namers;
    CutStructure(m, lv, s, t, xs);
    var n, nlv := Cut(m, s, t), lv - xs;
    assert forall f :: f in lv ==> IsTable(m, lv, f);
    forall r | LeafSlot(n, nlv, r)
      ensures PointsToData(n, nlv, r) && Ppn(Entry(n, r)) !in lost + (xs - {t})
    {
      CutEntry(m, lv, s, t, xs, r);
      assert PointsToData(m, lv, r);
    }
    forall d | d in n.refs && d !in nlv && d !in lost + (xs - {t}) ensures n.refs[d] == |Namers(n, nlv, d)| {
      CutNamers(m, lv, s, t, xs, d);
      if d == t {
        TableNoNamers(m, lv, lost, t);
      }
    }
  }

  lemma CutNamers(m: Memory, lv: Levels, s: Slot, t: Frame, xs: set<Frame>, d: Frame)
    requires Cuttable(m, lv, s, t, xs)
    ensures s.table != t && Namers(Cut(m, s, t), lv - xs, d) == Namers(m, lv, d)
  {
    hide Namers;
    CutStructure(m, lv, s, t, xs);
    var n, nlv := Cut(m, s, t), lv - xs;
    forall r ensures r in Namers(n, nlv, d) <==> r in Namers(m, lv, d) {
      CutEntry(m, lv, s, t, xs, r);
      NamersIs(n, nlv, d, r);
      NamersIs(m, lv, d, r);
    }
  }

  lemma TableNoNamers(m: Memory, lv: Levels, lost: set<Frame>, t: Frame)
    requires Accounted(m, lv, lost) && t in lv
    ensures Namers(m, lv, t) == {}
  {
    hide Namers;
    forall r ensures r !in Namers(m, lv, t) {
      NamersIs(m, lv, t, r);
      assert LeafSlot(m, lv, r) ==> PointsToData(m, lv, r);
    }
  }

  /** Slot s is a directory word of root, or one in a directory of root. */
  ghost predicate Under(m: Memory, lv: Levels, root: Frame, s: Slot) {
    s.table == root || exists r :: DirSlot(m, lv, r) && r.table == root && Ppn(Entry(m, r)) == s.table
  }

  /** Other roots keep their walks and words. */
  lemma CutKeeps(m: Memory, lv: Levels, s: Slot, t: Frame, xs: set<Frame>, root: Frame, q: Frame, lb: nat)
    requires Cuttable(m, lv, s, t, xs) && Under(m, lv, root, s) && IsRoot(lv, root)
    requires IsRoot(lv, q) && q != root && User(lb)
    ensures s.table != t
    ensures var n := Cut(m, s, t); IsRoot(lv - xs, q) && Walk(n, q, lb) == Walk(m, q, lb) && Pte(n, q, lb) == Pte(m, q, lb)
  {
    WalkLeaf(m, lv, q, lb);
    var s1 := Slot(q, Pdx1(lb));
    assert IsTable(m, lv, q);
    CutEntry(m, lv, s, t, xs, s1);
    if Valid(Entry(m, s1)) {
      var s0 := Slot(Ppn(Entry(m, s1)), Pdx0(lb));
      NotInBranch(m, lv, s, t, xs, root, s1);
      CutEntry(m, lv, s, t, xs, s0);
      if Valid(Entry(m, s0)) {
        NotInBranch(m, lv, s, t, xs, root, s0);
        CutEntry(m, lv, s, t, xs, Slot(Ppn(Entry(m, s0)), Ptx(lb)));
      }
    }
  }

  /** From a word outside the branch one comes to a table outside it, unless by slot s. */
  lemma NotInBranch(m: Memory, lv: Levels, s: Slot, t: Frame, xs: set<Frame>, root: Frame, r: Slot)
    requires Cuttable(m, lv, s, t, xs) && DirSlot(m, lv, r) && r != s && r.table !in xs
    ensures Ppn(Entry(m, r)) !in xs
  {
  }

  // ----- one address space on its way out -----

  predicate DirAt(m: Memory, root: Frame, k: nat) {
    InTable(m, Slot(root, k)) && Valid(Entry(m, Slot(root, k)))
  }

  function DirOf(m: Memory, root: Frame, k: nat): Frame
    requires DirAt(m, root, k)
  {
    Ppn(Entry(m, Slot(root, k)))
  }

  /** Directory k of root has a leaf table at word j. */
  predicate LeafAt(m: Memory, root: Frame, k: nat, j: nat) {
    && DirAt(m, root, k) && InTable(m, Slot(DirOf(m, root, k), j)) && Valid(Entry(m, Slot(DirOf(m, root, k), j)))
  }

  ghost function Slots(m: Memory, root: Frame, k: nat): set<nat> {
    set j: nat | 0 <= j < 512 && LeafAt(m, root, k, j)
  }

  /** No user page of root is mapped. */
  ghost predicate Bare(m: Memory, root: Frame) {
    forall lb: nat {:trigger Pte(m, root, lb)} :: User(lb) ==> !Valid(Pte(m, root, lb))
  }

  lemma BareLeaf(m: Memory, lv: Levels, root: Frame, k: nat, j: nat, i: nat)
    requires Structure(m, lv) && IsRoot(lv, root) && Bare(m, root) && k < 2 && j < 512 && i < 512
    requires LeafAt(m, root, k, j)
    ensures var t := Ppn(Entry(m, Slot(DirOf(m, root, k), j)));
            && t in lv && lv[t] == 0 && InTable(m, Slot(t, i)) && !Valid(Entry(m, Slot(t, i)))
  {
    var lb := k * PDSIZE + j * PTSIZE + i * PGSIZE;
    PartsOf(k, j, i);
    WalkLeaf(m, lv, root, lb);
    var t := Ppn(Entry(m, Slot(DirOf(m, root, k), j)));
    assert Walk(m, root, lb).Some? && Walk(m, root, lb).value == Slot(t, i);
    assert !Valid(Pte(m, root, lb));
  }

  lemma PartsOf(k: nat, j: nat, i: nat)
    requires k < 2 && j < 512 && i < 512
    ensures var lb := k * PDSIZE + j * PTSIZE + i * PGSIZE; User(lb) && Pdx1(lb) == k && Pdx0(lb) == j && Ptx(lb) == i
  {
    var lb := k * PDSIZE + j * PTSIZE + i * PGSIZE;
    assert lb / PTSIZE == k * 512 + j && lb / PGSIZE == (k * 512 + j) * 512 + i && lb / PDSIZE == k;
  }

  /** From (z, zlv), whose tables were all in order, to (m, lv): tables of root were freed or
      lost, nothing else happened. */
  ghost predicate Leaving(z: Memory, zlv: Levels, m: Memory, lv: Levels, root: Frame, lost: set<Frame>) {
    && Accounted(m, lv, lost) && IsRoot(lv, root) && Bare(m, root) && m.refs.Keys == z.refs.Keys
    && (forall f :: f in lv ==> f in zlv && lv[f] == zlv[f]) && lost <= zlv.Keys - lv.Keys
    && m.free == z.free + (zlv.Keys - lv.Keys - lost)
    && (forall d :: d in z.refs && d !in zlv ==> m.refs[d] == z.refs[d])
    && (forall q :: IsRoot(zlv, q) ==> IsRoot(lv, q))
    && (forall q :: IsRoot(zlv, q) && q != root ==> SameSpace(z, m, q))
    && (forall r {:trigger DirSlot(m, lv, r)} :: DirSlot(m, lv, r) ==> DirSlot(z, zlv, r) && Entry(m, r) == Entry(z, r))
  }

  lemma LeavingStart(m: Memory, lv: Levels, root: Frame)
    requires Ok(m, lv) && IsRoot(lv, root) && Bare(m, root)
    ensures Leaving(m, lv, m, lv, root, {})
  {
    hide Structure, Counted, Pte;
    NothingLost(m, lv);
    forall q | IsRoot(lv, q) ensures SameSpace(m, m, q) {
      forall lb: nat | User(lb) ensures SameAt(m, m, q, lb) {
        PageOf(m, lv, q, lb);
      }
    }
  }

  /** The words of root after a cut below it: as before, or gone. */
  lemma CutOwn(m: Memory, lv: Levels, s: Slot, t: Frame, xs: set<Frame>, root: Frame, lb: nat)
    requires Cuttable(m, lv, s, t, xs) && IsRoot(lv, root) && User(lb)
    ensures s.table != t && (Pte(Cut(m, s, t), root, lb) == Pte(m, root, lb) || Pte(Cut(m, s, t), root, lb) == 0)
  {
    WalkLeaf(m, lv, root, lb);
    var s1 := Slot(root, Pdx1(lb));
    assert IsTable(m, lv, root);
    CutEntry(m, lv, s, t, xs, s1);
    if Valid(Entry(m, s1)) && s1 != s {
      var s0 := Slot(Ppn(Entry(m, s1)), Pdx0(lb));
      NotInBranch(m, lv, s, t, xs, root, s1);
      CutEntry(m, lv, s, t, xs, s0);
      if Valid(Entry(m, s0)) && s0 != s {
        NotInBranch(m, lv, s, t, xs, root, s0);
        CutEntry(m, lv, s, t, xs, Slot(Ppn(Entry(m, s0)), Ptx(lb)));
      }
    }
  }

  lemma CutLeaving(z: Memory, zlv: Levels, m: Memory, lv: Levels, root: Frame, lost: set<Frame>, s: Slot, t: Frame,
                   xs: set<Frame>)
    requires Leaving(z, zlv, m, lv, root, lost) && Cuttable(m, lv, s, t, xs) && Under(m, lv, root, s)
    ensures s.table != t && Leaving(z, zlv, Cut(m, s, t), lv - xs, root, lost + (xs - {t}))
  {
    hide Structure, Pte, Walk, Cut, SameSpace, Namers;
    CutAccounted(m, lv, lost, s, t, xs);
    var n, nlv := Cut(m, s, t), lv - xs;
    CutFacts(m, lv, s, t, xs);
    forall lb: nat | User(lb) ensures !Valid(Pte(n, root, lb)) {
      CutOwn(m, lv, s, t, xs, root, lb);
      assert !Valid(Pte(m, root, lb));
    }
    forall q | IsRoot(zlv, q) && q != root ensures SameSpace(z, n, q) {
      CutSpace(m, lv, lost, s, t, xs, root, q);
      SpaceTrans(z, m, n, q);
    }
    forall r | DirSlot(n, nlv, r) ensures DirSlot(z, zlv, r) && Entry(n, r) == Entry(z, r) {
      CutEntry(m, lv, s, t, xs, r);
    }
  }

  lemma CutFacts(m: Memory, lv: Levels, s: Slot, t: Frame, xs: set<Frame>)
    requires Cuttable(m, lv, s, t, xs)
    ensures s.table != t && t in lv && t in m.refs
    ensures var n := Cut(m, s, t); n.free == m.free + {t} && n.refs.Keys == m.refs.Keys
    ensures forall d :: d in m.refs && d != t ==> Cut(m, s, t).refs[d] == m.refs[d]
    ensures forall q :: IsRoot(lv, q) ==> IsRoot(lv - xs, q)
  {
    assert IsTable(m, lv, t);
  }

  lemma CutSpace(m: Memory, lv: Levels, lost: set<Frame>, s: Slot, t: Frame, xs: set<Frame>, root: Frame, q: Frame)
    requires Accounted(m, lv, lost) && Cuttable(m, lv, s, t, xs) && Under(m, lv, root, s) && IsRoot(lv, root)
    requires IsRoot(lv, q) && q != root
    ensures s.table != t && SameSpace(m, Cut(m, s, t), q)
  {
    hide Structure, Walk, Namers;
    CutFacts(m, lv, s, t, xs);
    forall lb: nat | User(lb) ensures SameAt(m, Cut(m, s, t), q, lb) {
      CutKeeps(m, lv, s, t, xs, root, q, lb);
      WalkLeaf(m, lv, q, lb);
      if Valid(Pte(m, q, lb)) {
        assert LeafSlot(m, lv, Walk(m, q, lb).value);
        assert PointsToData(m, lv, Walk(m, q, lb).value);
      }
    }
  }

  // ----- the two kinds of cuts -----

  /** What a cut does to the tables in view. */
  lemma CutView(m: Memory, lv: Levels, root: Frame, s: Slot, t: Frame, xs: set<Frame>, k: nat)
    requires Cuttable(m, lv, s, t, xs) && IsRoot(lv, root) && k < 2
    ensures s.table != t
    ensures var n := Cut(m, s, t);
            && (DirAt(n, root, k) <==> DirAt(m, root, k) && s != Slot(root, k))
            && (DirAt(n, root, k) ==> DirOf(n, root, k) == DirOf(m, root, k))
            && (DirAt(n, root, k) ==> forall j: nat :: j < 512 ==>
                  (LeafAt(n, root, k, j) <==> LeafAt(m, root, k, j) && s != Slot(DirOf(m, root, k), j)))
  {
    var n := Cut(m, s, t);
    CutEntry(m, lv, s, t, xs, Slot(root, k));
    if DirAt(m, root, k) && s != Slot(root, k) {
      assert DirSlot(m, lv, Slot(root, k));
      NotInBranch(m, lv, s, t, xs, root, Slot(root, k));
      forall j: nat | j < 512
        ensures LeafAt(n, root, k, j) <==> LeafAt(m, root, k, j) && s != Slot(DirOf(m, root, k), j)
      {
        CutEntry(m, lv, s, t, xs, Slot(DirOf(m, root, k), j));
      }
    }
  }

  /** A leaf table is a branch of its own. */
  lemma LeafBranch(m: Memory, lv: Levels, root: Frame, k: nat, j: nat)
    requires Structure(m, lv) && IsRoot(lv, root) && Bare(m, root) && k < 2 && j < 512 && LeafAt(m, root, k, j)
    ensures var s := Slot(DirOf(m, root, k), j);
            Cuttable(m, lv, s, Ppn(Entry(m, s)), {Ppn(Entry(m, s))}) && Under(m, lv, root, s)
  {
    var d := Slot(root, k);
    assert IsTable(m, lv, root) && DirSlot(m, lv, d) && PointsDown(m, lv, d);
    var s := Slot(DirOf(m, root, k), j);
    assert DirSlot(m, lv, s) && PointsDown(m, lv, s);
    var t := Ppn(Entry(m, s));
    assert IsTable(m, lv, t);
    forall r | LeafSlot(m, lv, r) ensures r.table != t {
      if r.table == t {
        BareLeaf(m, lv, root, k, j, r.index);
      }
    }
  }

  ghost function LeavesOf(m: Memory, root: Frame, k: nat): set<Frame> {
    set j: nat | 0 <= j < 512 && LeafAt(m, root, k, j) :: Ppn(Entry(m, Slot(DirOf(m, root, k), j)))
  }

  /** A directory with its leaf tables is a branch. */
  lemma DirBranch(m: Memory, lv: Levels, root: Frame, k: nat)
    requires Structure(m, lv) && IsRoot(lv, root) && Bare(m, root) && k < 2 && DirAt(m, root, k)
    ensures var t := DirOf(m, root, k);
            && Cuttable(m, lv, Slot(root, k), t, {t} + LeavesOf(m, root, k)) && Under(m, lv, root, Slot(root, k))
            && t !in LeavesOf(m, root, k) && (LeavesOf(m, root, k) == {} <==> Slots(m, root, k) == {})
  {
    var s, t := Slot(root, k), DirOf(m, root, k);
    assert IsTable(m, lv, root) && DirSlot(m, lv, s) && PointsDown(m, lv, s) && IsTable(m, lv, t);
    var leaves := LeavesOf(m, root, k);
    forall x | x in leaves ensures x in lv && lv[x] == 0 {
      var j: nat :| j < 512 && LeafAt(m, root, k, j) && x == Ppn(Entry(m, Slot(t, j)));
      BareLeaf(m, lv, root, k, j, 0);
    }
    forall r | DirSlot(m, lv, r) ensures Ppn(Entry(m, r)) in {t} + leaves <==> r.table in {t} + leaves || Ppn(Entry(m, r)) == t {
      DirBranchAt(m, lv, root, k, r);
    }
    forall r | LeafSlot(m, lv, r) ensures r.table !in {t} + leaves {
      DirBranchLeaf(m, lv, root, k, r);
    }
    if j: nat :| j in Slots(m, root, k) {
      assert Ppn(Entry(m, Slot(t, j))) in leaves;
    }
    if x :| x in leaves {
      var j: nat :| j < 512 && LeafAt(m, root, k, j) && x == Ppn(Entry(m, Slot(t, j)));
      assert j in Slots(m, root, k);
    }
    assert lv[t] == 1 && lv[root] == 2;
  }

  lemma DirBranchAt(m: Memory, lv: Levels, root: Frame, k: nat, r: Slot)
    requires Structure(m, lv) && IsRoot(lv, root) && k < 2 && DirAt(m, root, k) && DirSlot(m, lv, r)
    ensures var t, leaves := DirOf(m, root, k), LeavesOf(m, root, k);
            && (r.table == t ==> Ppn(Entry(m, r)) in leaves)
            && (Ppn(Entry(m, r)) in leaves ==> r.table == t)
            && r.table !in leaves
  {
    var s, t := Slot(root, k), DirOf(m, root, k);
    assert IsTable(m, lv, root) && DirSlot(m, lv, s) && PointsDown(m, lv, s) && IsTable(m, lv, t) && IsTable(m, lv, r.table);
    if r.table == t {
      assert LeafAt(m, root, k, r.index);
    }
    if Ppn(Entry(m, r)) in LeavesOf(m, root, k) {
      var j: nat :| j < 512 && LeafAt(m, root, k, j) && Ppn(Entry(m, r)) == Ppn(Entry(m, Slot(t, j)));
      assert DirSlot(m, lv, Slot(t, j));
    }
    forall j: nat | j < 512 && LeafAt(m, root, k, j) ensures Ppn(Entry(m, Slot(t, j))) != r.table {
      assert DirSlot(m, lv, Slot(t, j)) && PointsDown(m, lv, Slot(t, j));
    }
  }

  lemma DirBranchLeaf(m: Memory, lv: Levels, root: Frame, k: nat, r: Slot)
    requires Structure(m, lv) && IsRoot(lv, root) && Bare(m, root) && k < 2 && DirAt(m, root, k) && LeafSlot(m, lv, r)
    ensures r.table != DirOf(m, root, k) && r.table !in LeavesOf(m, root, k)
  {
    var s := Slot(root, k);
    assert IsTable(m, lv, root) && DirSlot(m, lv, s) && PointsDown(m, lv, s) && IsTable(m, lv, r.table);
    forall j: nat | j < 512 && LeafAt(m, root, k, j) ensures Ppn(Entry(m, Slot(DirOf(m, root, k), j))) != r.table {
      BareLeaf(m, lv, root, k, j, r.index);
    }
  }

  /** The directories of root other than the k-th look the same. */
  ghost predicate OthersSame(m: Memory, n: Memory, root: Frame, k: nat) {
    forall i: nat {:trigger Slots(n, root, i)} :: i < 2 && i != k ==>
      DirAt(n, root, i) == DirAt(m, root, i) && Slots(n, root, i) == Slots(m, root, i)
  }

  lemma LeafCutView(m: Memory, lv: Levels, root: Frame, k: nat, j: nat)
    requires Structure(m, lv) && IsRoot(lv, root) && Bare(m, root) && k < 2 && j < 512 && LeafAt(m, root, k, j)
    ensures var s := Slot(DirOf(m, root, k), j); var t := Ppn(Entry(m, s));
            && s.table != t
            && var n := Cut(m, s, t);
               && DirAt(n, root, k) && DirOf(n, root, k) == DirOf(m, root, k)
               && Slots(n, root, k) == Slots(m, root, k) - {j} && OthersSame(m, n, root, k)
  {
    hide Structure, Cut, Bare;
    var s := Slot(DirOf(m, root, k), j);
    var t := Ppn(Entry(m, s));
    LeafBranch(m, lv, root, k, j);
    DirsApart(m, lv, root, k, s.table);
    forall i: nat | i < 2 ensures s.table != t && DirAt(Cut(m, s, t), root, i) == DirAt(m, root, i)
                            ensures Slots(Cut(m, s, t), root, i) == if i == k then Slots(m, root, k) - {j} else Slots(m, root, i)
    {
      CutView(m, lv, root, s, t, {t}, i);
      DirsApart(m, lv, root, i, s.table);
    }
    CutView(m, lv, root, s, t, {t}, k);
  }

  /** A directory belongs to one word of the root, and is not the root. */
  lemma DirsApart(m: Memory, lv: Levels, root: Frame, k: nat, d: Frame)
    requires Structure(m, lv) && IsRoot(lv, root) && k < 2
    ensures DirAt(m, root, k) ==> DirOf(m, root, k) in lv && lv[DirOf(m, root, k)] == 1 && DirOf(m, root, k) != root
    ensures forall i: nat :: i < 2 && DirAt(m, root, i) && DirAt(m, root, k) && DirOf(m, root, i) == DirOf(m, root, k) ==> i == k
  {
    assert IsTable(m, lv, root);
    forall i: nat | i < 2 && DirAt(m, root, i) ensures DirSlot(m, lv, Slot(root, i)) && PointsDown(m, lv, Slot(root, i)) {
      assert DirSlot(m, lv, Slot(root, i));
    }
  }

  lemma DirCutView(m: Memory, lv: Levels, root: Frame, k: nat)
    requires Structure(m, lv) && IsRoot(lv, root) && Bare(m, root) && k < 2 && DirAt(m, root, k)
    ensures var s, t := Slot(root, k), DirOf(m, root, k);
            && root != t && !DirAt(Cut(m, s, t), root, k) && Slots(Cut(m, s, t), root, k) == {}
            && OthersSame(m, Cut(m, s, t), root, k)
  {
    hide Structure, Cut, Bare;
    var s, t := Slot(root, k), DirOf(m, root, k);
    DirBranch(m, lv, root, k);
    var xs := {t} + LeavesOf(m, root, k);
    CutView(m, lv, root, s, t, xs, k);
    forall i: nat | i < 2 && i != k
      ensures DirAt(Cut(m, s, t), root, i) == DirAt(m, root, i) && Slots(Cut(m, s, t), root, i) == Slots(m, root, i)
    {
      CutView(m, lv, root, s, t, xs, i);
      DirsApart(m, lv, root, i, root);
    }
  }

  // ----- exit_range seen from a 1 GB region -----

  /** A 1 GB region of an address space: whether there is a directory, the words of it that
      lead to leaf tables, and whether any table of the region was lost. */
  datatype Region = Region(dir: bool, slots: set<nat>, lost: bool)

  function Span(lo: nat, hi: nat): (s: set<nat>)
    ensures forall j :: j in s <==> lo <= j < hi
    decreases if lo < hi then hi - lo else 0
  {
    if lo >= hi then {} else {lo} + Span(lo + 1, hi)
  }

  /** What exit_range does to a region of which it visits the words lo .. hi: it frees their leaf
      tables, and the directory if each of them led to one. */
  function ExitRegion(g: Region, lo: nat, hi: nat): Region {
    if !g.dir || lo >= hi then g
    else if Span(lo, hi) <= g.slots then Region(false, {}, g.lost || g.slots - Span(lo, hi) != {})
    else g.(slots := g.slots - Span(lo, hi))
  }

  /** The words of region k that [start, end) visits. */
  function Lo(k: nat, start: nat): nat {
    if start / PTSIZE <= 512 * k then 0 else start / PTSIZE - 512 * k
  }

  function Hi(k: nat, end: nat): nat {
    var c := (end + PTSIZE - 1) / PTSIZE;
    if c <= 512 * k then 0 else if c - 512 * k < 512 then c - 512 * k else 512
  }

  ghost predicate Shows(m: Memory, root: Frame, lost: set<Frame>, g: seq<Region>) {
    && |g| == 2 && (lost == {} <==> !g[0].lost && !g[1].lost)
    && forall k {:trigger g[k]} :: 0 <= k < 2 ==> g[k].dir == DirAt(m, root, k) && g[k].slots == Slots(m, root, k)
  }

  // ----- the loops -----

  /** The loop over a leaf table: is every word of it invalid? */
  method ScanTable(s: AddressSpaces, t: Frame) returns (freePt: bool)
    requires t in s.m.tables && |s.m.tables[t]| == 512
    ensures freePt <==> forall i :: 0 <= i < 512 ==> !Valid(s.m.tables[t][i])
  {
    freePt := true;
    var i := 0;
    while i < 512
      invariant 0 <= i <= 512 && freePt && forall j :: 0 <= j < i ==> !Valid(s.m.tables[t][j])
    {
      if Valid(s.m.tables[t][i]) {
        freePt := false;
        break;
      }
      i := i + 1;
    }
  }

  /** The body of the inner loop: the leaf table at word j of directory pd0, if any, is freed. */
  method ExitLeaf(s: AddressSpaces, root: Frame, ghost k: nat, pd0: Frame, j: nat, ghost z: Memory, ghost zlv: Levels,
                  ghost lost: set<Frame>) returns (had: bool)
    requires Leaving(z, zlv, s.m, s.lv, root, lost) && k < 2 && j < 512
    requires DirAt(s.m, root, k) && pd0 == DirOf(s.m, root, k)
    modifies s
    ensures Leaving(z, zlv, s.m, s.lv, root, lost) && DirAt(s.m, root, k) && pd0 == DirOf(s.m, root, k)
    ensures had <==> j in old(Slots(s.m, root, k))
    ensures Slots(s.m, root, k) == old(Slots(s.m, root, k)) - {j} && OthersSame(old(s.m), s.m, root, k)
  {
    hide Leaving, Structure, Cut, Bare, OthersSame, Cuttable;
    LeavingFacts(z, zlv, s.m, s.lv, root, lost, k);
    OthersRefl(s.m, root, k);
    var pde0 := s.m.tables[pd0][j];
    had := Valid(pde0);
    if had {
      var pt := Ppn(pde0);
      assert LeafAt(s.m, root, k, j);
      LeafTable(s.m, s.lv, root, k, j);
      var freePt := ScanTable(s, pt);
      assert freePt;
      LeafBranch(s.m, s.lv, root, k, j);
      LeafCutView(s.m, s.lv, root, k, j);
      CutLeaving(z, zlv, s.m, s.lv, root, lost, Slot(pd0, j), pt, {pt});
      assert lost + ({pt} - {pt}) == lost;
      CutIs(s.m, s.lv, Slot(pd0, j), pt, {pt});
      s.m := FreeTable(s.m, pt);
      s.m := SetWord(s.m, Slot(pd0, j), 0);
      s.lv := s.lv - {pt};
    }
  }

  lemma LeavingFacts(z: Memory, zlv: Levels, m: Memory, lv: Levels, root: Frame, lost: set<Frame>, k: nat)
    requires Leaving(z, zlv, m, lv, root, lost) && k < 2
    ensures Accounted(m, lv, lost) && Structure(m, lv) && IsRoot(lv, root) && Bare(m, root)
    ensures root in m.tables && |m.tables[root]| == 512
    ensures DirAt(m, root, k) ==>
              var d := DirOf(m, root, k); d in m.tables && |m.tables[d]| == 512 && d in lv && lv[d] == 1
  {
    assert IsTable(m, lv, root);
    if DirAt(m, root, k) {
      assert DirSlot(m, lv, Slot(root, k)) && PointsDown(m, lv, Slot(root, k));
      assert IsTable(m, lv, DirOf(m, root, k));
    }
  }

  lemma OthersRefl(m: Memory, root: Frame, k: nat)
    ensures OthersSame(m, m, root, k)
  {
  }

  lemma OthersTrans(m: Memory, n: Memory, o: Memory, root: Frame, k: nat)
    requires OthersSame(m, n, root, k) && OthersSame(n, o, root, k)
    ensures OthersSame(m, o, root, k)
  {
    hide DirAt, Slots;
    forall i: nat | i < 2 && i != k
      ensures DirAt(o, root, i) == DirAt(m, root, i) && Slots(o, root, i) == Slots(m, root, i)
    {
      assert DirAt(n, root, i) == DirAt(m, root, i) && Slots(n, root, i) == Slots(m, root, i);
      assert DirAt(o, root, i) == DirAt(n, root, i) && Slots(o, root, i) == Slots(n, root, i);
    }
  }

  lemma LeafTable(m: Memory, lv: Levels, root: Frame, k: nat, j: nat)
    requires Structure(m, lv) && IsRoot(lv, root) && Bare(m, root) && k < 2 && j < 512 && LeafAt(m, root, k, j)
    ensures var t := Ppn(Entry(m, Slot(DirOf(m, root, k), j)));
            t in m.tables && |m.tables[t]| == 512 && forall i :: 0 <= i < 512 ==> !Valid(m.tables[t][i])
  {
    var t := Ppn(Entry(m, Slot(DirOf(m, root, k), j)));
    BareLeaf(m, lv, root, k, j, 0);
    assert IsTable(m, lv, t);
    forall i | 0 <= i < 512 ensures !Valid(m.tables[t][i]) {
      BareLeaf(m, lv, root, k, j, i);
    }
  }

  /** The inner loop, over the words of one directory. */
  method ScanDir(s: AddressSpaces, root: Frame, pd0: Frame, d1start: nat, start: nat, end: nat, ghost k: nat,
                 ghost z: Memory, ghost zlv: Levels, ghost lost: set<Frame>)
    returns (freePd0: bool)
    requires Leaving(z, zlv, s.m, s.lv, root, lost) && k < 2 && DirAt(s.m, root, k) && pd0 == DirOf(s.m, root, k)
    requires d1start == k * PDSIZE <= start < d1start + PDSIZE && start < end <= USERTOP && start % PTSIZE == 0
    modifies s
    ensures Leaving(z, zlv, s.m, s.lv, root, lost) && DirAt(s.m, root, k) && pd0 == DirOf(s.m, root, k)
    ensures var visited := Span(Lo(k, start), Hi(k, end));
            && (freePd0 <==> visited <= old(Slots(s.m, root, k)))
            && Slots(s.m, root, k) == old(Slots(s.m, root, k)) - visited
    ensures OthersSame(old(s.m), s.m, root, k)
  {
    hide Leaving, OthersSame, Slots, Lo, Hi;
    OthersRefl(s.m, root, k);
    freePd0 := true;
    var d0start := start;
    ghost var lo := Lo(k, start);
    ghost var j := lo;
    WordAt(k, start, start, end);
    assert Span(lo, lo) == {};
    while true
      invariant d1start <= d0start < d1start + PDSIZE && d0start < end && d0start % PTSIZE == 0
      invariant j == Lo(k, d0start) && lo <= j
      invariant Leaving(z, zlv, s.m, s.lv, root, lost) && DirAt(s.m, root, k) && pd0 == DirOf(s.m, root, k)
      invariant freePd0 <==> Span(lo, j) <= old(Slots(s.m, root, k))
      invariant Slots(s.m, root, k) == old(Slots(s.m, root, k)) - Span(lo, j) && OthersSame(old(s.m), s.m, root, k)
      decreases end - d0start
    {
      WordAt(k, start, d0start, end);
      ghost var before := s.m;
      var had := ExitLeaf(s, root, k, pd0, Pdx0(d0start), z, zlv, lost);
      OthersTrans(old(s.m), before, s.m, root, k);
      if !had {
        freePd0 := false;
      }
      assert Span(lo, j + 1) == Span(lo, j) + {j};
      d0start := d0start + PTSIZE;
      j := j + 1;
      if !(d0start != 0 && d0start < d1start + PDSIZE && d0start < end) {
        break;
      }
    }
  }

  lemma WordAt(k: nat, start: nat, at: nat, end: nat)
    requires k < 2 && k * PDSIZE <= at < (k + 1) * PDSIZE && at < end <= USERTOP && at % PTSIZE == 0
    ensures Lo(k, at) == Pdx0(at) && (at + PTSIZE < (k + 1) * PDSIZE ==> Lo(k, at + PTSIZE) == Lo(k, at) + 1)
    ensures !(at + PTSIZE < (k + 1) * PDSIZE && at + PTSIZE < end) ==> Hi(k, end) == Lo(k, at) + 1
  {
  }

  /** The body of the outer loop: one 1 GB region. */
  method ExitDir(s: AddressSpaces, root: Frame, d1start: nat, d0start: nat, end: nat, ghost k: nat, ghost z: Memory,
                 ghost zlv: Levels, ghost lost: set<Frame>, ghost g: seq<Region>)
    returns (ghost lost': set<Frame>, ghost g': seq<Region>)
    requires Leaving(z, zlv, s.m, s.lv, root, lost) && k < 2 && Shows(s.m, root, lost, g)
    requires d1start == k * PDSIZE <= d0start < d1start + PDSIZE && d0start < end <= USERTOP && d0start % PTSIZE == 0
    modifies s
    ensures Leaving(z, zlv, s.m, s.lv, root, lost') && Shows(s.m, root, lost', g')
    ensures g' == g[k := ExitRegion(g[k], Lo(k, d0start), Hi(k, end))]
  {
    hide Leaving, Structure, Cut, Bare, OthersSame, Cuttable, Slots, Lo, Hi, Span, DirAt;
    LeavingFacts(z, zlv, s.m, s.lv, root, lost, k);
    VisitsSome(k, d0start, end);
    RootWord(s.m, root, k, d1start);
    lost', g' := lost, g[k := ExitRegion(g[k], Lo(k, d0start), Hi(k, end))];
    ghost var m := s.m;
    var pde1 := s.m.tables[root][Pdx1(d1start)];
    if Valid(pde1) {
      var pd0 := Ppn(pde1);
      var freePd0 := ScanDir(s, root, pd0, d1start, d0start, end, k, z, zlv, lost);
      LeavingFacts(z, zlv, s.m, s.lv, root, lost, k);
      if freePd0 {
        DirBranch(s.m, s.lv, root, k);
        DirCutView(s.m, s.lv, root, k);
        ghost var xs := {pd0} + LeavesOf(s.m, root, k);
        CutLeaving(z, zlv, s.m, s.lv, root, lost, Slot(root, k), pd0, xs);
        assert xs - {pd0} == LeavesOf(s.m, root, k);
        lost' := lost + LeavesOf(s.m, root, k);
        ghost var mid := s.m;
        CutIs(s.m, s.lv, Slot(root, k), pd0, xs);
        s.m := FreeTable(s.m, pd0);
        s.m := SetWord(s.m, Slot(root, Pdx1(d1start)), 0);
        s.lv := s.lv - xs;
        OthersTrans(m, mid, s.m, root, k);
      }
      ShowsNext(m, s.m, root, lost, lost', g, g', k);
    }
  }

  lemma RootWord(m: Memory, root: Frame, k: nat, d1start: nat)
    requires k < 2 && d1start == k * PDSIZE && root in m.tables && |m.tables[root]| == 512
    ensures Pdx1(d1start) == k && (DirAt(m, root, k) <==> Valid(m.tables[root][k]))
    ensures DirAt(m, root, k) ==> DirOf(m, root, k) == Ppn(m.tables[root][k])
  {
  }

  lemma VisitsSome(k: nat, at: nat, end: nat)
    requires k < 2 && k * PDSIZE <= at < (k + 1) * PDSIZE && at < end
    ensures Lo(k, at) < Hi(k, end)
  {
  }

  lemma ShowsNext(m: Memory, n: Memory, root: Frame, lost: set<Frame>, lost': set<Frame>, g: seq<Region>,
                  g': seq<Region>,
                  k: nat)
    requires Shows(m, root, lost, g) && k < 2 && |g'| == 2 && g' == g[k := g'[k]] && OthersSame(m, n, root, k)
    requires g'[k].dir == DirAt(n, root, k) && g'[k].slots == Slots(n, root, k)
    requires lost' == {} <==> lost == {} && (g'[k].lost ==> g[k].lost)
    requires g[k].lost ==> g'[k].lost
    ensures Shows(n, root, lost', g')
  {
    forall i | 0 <= i < 2 ensures g'[i].dir == DirAt(n, root, i) && g'[i].slots == Slots(n, root, i) {
      assert g[i].dir == DirAt(m, root, i);
      assert i != k ==> Slots(n, root, i) == Slots(m, root, i);
    }
  }

  /** exit_range over an address space in which nothing is mapped: of each 1 GB region it frees
      and loses exactly what ExitRegion says. */
  method ExitRange(s: AddressSpaces, root: Frame, start: nat, end: nat, ghost z: Memory, ghost zlv: Levels,
                   ghost lost: set<Frame>, ghost g: seq<Region>)
    returns (ghost lost': set<Frame>, ghost g': seq<Region>)
    requires Leaving(z, zlv, s.m, s.lv, root, lost) && Shows(s.m, root, lost, g) && UserAccess(start, end)
    modifies s
    ensures Leaving(z, zlv, s.m, s.lv, root, lost') && Shows(s.m, root, lost', g')
    ensures |g'| == 2 && forall k: nat :: k < 2 ==> g'[k] == ExitRegion(g[k], Lo(k, start), Hi(k, end))
  {
    hide Leaving, Shows, ExitRegion, Lo, Hi;
    ShowsBoth(s.m, root, lost, g);
    var d1start := start - start % PDSIZE;
    var d0start := start - start % PTSIZE;
    ghost var k := start / PDSIZE;
    lost', g' := lost, g;
    FirstRegion(start, end);
    assert forall i: nat {:trigger Lo(i, start)} :: i < k ==> ExitRegion(g[i], Lo(i, start), Hi(i, end)) == g[i] by {
      forall i: nat | i < k ensures ExitRegion(g[i], Lo(i, start), Hi(i, end)) == g[i] {
        Untouched(g[i], i, start, end);
      }
    }
    while true
      invariant k < 2 && d1start == k * PDSIZE <= d0start < d1start + PDSIZE && d0start < end && d0start % PTSIZE == 0
      invariant Lo(k, d0start) == Lo(k, start) && start < (k + 1) * PDSIZE
      invariant Leaving(z, zlv, s.m, s.lv, root, lost') && Shows(s.m, root, lost', g') && |g'| == 2
      invariant forall i: nat :: i < 2 ==> g'[i] == if i < k then ExitRegion(g[i], Lo(i, start), Hi(i, end)) else g[i]
      decreases end - d1start
    {
      lost', g' := ExitDir(s, root, d1start, d0start, end, k, z, zlv, lost', g');
      ShowsBoth(s.m, root, lost', g');
      NextRegion(k, start, end);
      d1start := d1start + PDSIZE;
      d0start := d1start;
      k := k + 1;
      if !(d1start != 0 && d1start < end) {
        break;
      }
    }
    forall i: nat | i < 2 ensures g'[i] == ExitRegion(g[i], Lo(i, start), Hi(i, end)) {
      if i >= k {
        Untouched(g[i], i, start, end);
      }
    }
  }

  lemma ShowsBoth(m: Memory, root: Frame, lost: set<Frame>, g: seq<Region>)
    requires Shows(m, root, lost, g)
    ensures |g| == 2
  {
  }

  lemma FirstRegion(start: nat, end: nat)
    requires start < end <= USERTOP
    ensures var k, d0 := start / PDSIZE, start - start % PTSIZE;
            && k < 2 && start - start % PDSIZE == k * PDSIZE <= d0 < (k + 1) * PDSIZE && d0 < end && d0 % PTSIZE == 0
            && Lo(k, d0) == Lo(k, start) && start < (k + 1) * PDSIZE
  {
  }

  lemma NextRegion(k: nat, start: nat, end: nat)
    requires start < (k + 1) * PDSIZE && end <= USERTOP
    ensures (k + 1) * PDSIZE % PTSIZE == 0 && Lo(k + 1, (k + 1) * PDSIZE) == Lo(k + 1, start) == 0
    ensures (k + 1) * PDSIZE < end ==> k + 1 < 2
  {
  }

  lemma Untouched(g: Region, i: nat, start: nat, end: nat)
    ensures start / PDSIZE > i || end <= i * PDSIZE ==> ExitRegion(g, Lo(i, start), Hi(i, end)) == g
  {
  }

  // ----- the second loop of exit_mmap, and put_pgdir -----

  /** exit_range over the areas, one after the other. */
  function ExitAreas(g: Region, k: nat, areas: seq<Vma>): Region {
    if areas == [] then g
    else
      var v := areas[|areas| - 1];
      ExitRegion(ExitAreas(g, k, areas[..|areas| - 1]), Lo(k, v.start), Hi(k, v.end))
  }

  /** What the region looks like when exit_range begins. */
  ghost function RegionOf(m: Memory, root: Frame, k: nat): Region {
    Region(DirAt(m, root, k), Slots(m, root, k), false)
  }

  /** The areas free every table of the region. */
  predicate Clean(g: Region, k: nat, areas: seq<Vma>) {
    var e := ExitAreas(g, k, areas);
    !e.dir && !e.lost
  }

  /** The second loop of exit_mmap. */
  method ExitTables(s: AddressSpaces, mm: Mm) returns (ghost lost: set<Frame>, ghost g: seq<Region>)
    requires Ok(s.m, s.lv) && IsRoot(s.lv, mm.pgdir) && Bare(s.m, mm.pgdir) && UserAreas(mm.vmas)
    modifies s
    ensures Leaving(old(s.m), old(s.lv), s.m, s.lv, mm.pgdir, lost) && Shows(s.m, mm.pgdir, lost, g)
    ensures forall k: nat :: k < 2 ==> g[k] == ExitAreas(RegionOf(old(s.m), mm.pgdir, k), k, mm.vmas)
  {
    hide Leaving, Shows, Ok, Bare, ExitRegion, Lo, Hi, RegionOf;
    ghost var root := mm.pgdir;
    LeavingStart(s.m, s.lv, root);
    lost, g := {}, [RegionOf(s.m, root, 0), RegionOf(s.m, root, 1)];
    ShowsStart(s.m, root);
    var i := 0;
    assert mm.vmas[..0] == [];
    while i < |mm.vmas|
      invariant 0 <= i <= |mm.vmas| && |g| == 2
      invariant Leaving(old(s.m), old(s.lv), s.m, s.lv, root, lost) && Shows(s.m, root, lost, g)
      invariant forall k: nat :: k < 2 ==> g[k] == ExitAreas(RegionOf(old(s.m), root, k), k, mm.vmas[..i])
    {
      var v := mm.vmas[i];
      assert mm.vmas[..i + 1][..i] == mm.vmas[..i];
      lost, g := ExitRange(s, mm.pgdir, v.start, v.end, old(s.m), old(s.lv), lost, g);
      i := i + 1;
    }
    assert mm.vmas[..i] == mm.vmas;
  }

  lemma ShowsStart(m: Memory, root: Frame)
    ensures Shows(m, root, {}, [RegionOf(m, root, 0), RegionOf(m, root, 1)])
  {
  }

  /** The tables of an address space. */
  ghost function TablesOf(m: Memory, root: Frame): set<Frame> {
    {root} + (if DirAt(m, root, 0) then {DirOf(m, root, 0)} + LeavesOf(m, root, 0) else {})
    + (if DirAt(m, root, 1) then {DirOf(m, root, 1)} + LeavesOf(m, root, 1) else {})
  }

  /** The tables of a root lead to each other only, and nothing else leads to them. */
  lemma TablesBranch(m: Memory, lv: Levels, root: Frame)
    requires Structure(m, lv) && IsRoot(lv, root) && Bare(m, root)
    ensures var xs := TablesOf(m, root);
            && (forall x :: x in xs ==> x in lv && (lv[x] == 2 ==> x == root))
            && (forall r {:trigger DirSlot(m, lv, r)} :: DirSlot(m, lv, r) ==> (Ppn(Entry(m, r)) in xs <==> r.table in xs))
            && (forall r {:trigger LeafSlot(m, lv, r)} :: LeafSlot(m, lv, r) ==> r.table !in xs)
  {
    hide Bare;
    var xs := TablesOf(m, root);
    forall k: nat | k < 2 && DirAt(m, root, k) ensures Branch(m, lv, DirOf(m, root, k), {DirOf(m, root, k)} + LeavesOf(m, root, k)) {
      DirBranch(m, lv, root, k);
    }
    assert IsTable(m, lv, root);
    forall r | DirSlot(m, lv, r) ensures Ppn(Entry(m, r)) in xs <==> r.table in xs {
      assert PointsDown(m, lv, r) && IsTable(m, lv, r.table);
      if r.table == root {
        assert DirAt(m, root, r.index);
      }
      forall k: nat | k < 2 && DirAt(m, root, k) ensures DirSlot(m, lv, Slot(root, k)) {
      }
    }
  }

  lemma RootFreed(m: Memory, lv: Levels, lost: set<Frame>, root: Frame)
    requires Accounted(m, lv, lost) && IsRoot(lv, root) && Bare(m, root)
    ensures var xs := TablesOf(m, root);
            Accounted(FreeTable(m, root), lv - xs, lost + (xs - {root}))
  {
    hide Namers, Bare, TablesOf;
    TablesBranch(m, lv, root);
    var n, xs := FreeTable(m, root), TablesOf(m, root);
    var nlv := lv - xs;
    RootInTables(m, root);
    assert forall f :: f in lv ==> IsTable(m, lv, f);
    forall f | f in nlv ensures IsTable(n, nlv, f) {
    }
    forall r ensures DirSlot(n, nlv, r) <==> DirSlot(m, lv, r) && r.table !in xs
      ensures LeafSlot(n, nlv, r) <==> LeafSlot(m, lv, r)
    {
    }
    RootFreedStructure(m, lv, root);
    forall r | LeafSlot(n, nlv, r) ensures PointsToData(n, nlv, r) && Ppn(Entry(n, r)) !in lost + (xs - {root}) {
      assert PointsToData(m, lv, r);
    }
    forall d | d in n.refs && d !in nlv && d !in lost + (xs - {root}) ensures n.refs[d] == |Namers(n, nlv, d)| {
      forall r ensures r in Namers(n, nlv, d) <==> r in Namers(m, lv, d) {
        NamersIs(n, nlv, d, r);
        NamersIs(m, lv, d, r);
      }
      assert Namers(n, nlv, d) == Namers(m, lv, d);
      if d == root {
        TableNoNamers(m, lv, lost, root);
      }
    }
  }

  lemma RootInTables(m: Memory, root: Frame)
    ensures root in TablesOf(m, root)
  {
  }

  lemma RootFreedStructure(m: Memory, lv: Levels, root: Frame)
    requires Structure(m, lv) && IsRoot(lv, root) && Bare(m, root)
    ensures Structure(FreeTable(m, root), lv - TablesOf(m, root))
  {
    hide Bare, TablesOf;
    TablesBranch(m, lv, root);
    RootInTables(m, root);
    var n, nlv := FreeTable(m, root), lv - TablesOf(m, root);
    assert forall f :: f in lv ==> IsTable(m, lv, f);
    forall r | DirSlot(n, nlv, r) ensures PointsDown(n, nlv, r) {
      assert DirSlot(m, lv, r) && PointsDown(m, lv, r);
    }
    forall u | u in nlv && nlv[u] < 2 ensures Reached(n, nlv, u) {
      assert Reached(m, lv, u);
      var r :| DirSlot(m, lv, r) && Ppn(Entry(m, r)) == u;
      assert DirSlot(n, nlv, r) && Ppn(Entry(n, r)) == u;
    }
    forall x, y | DirSlot(n, nlv, x) && DirSlot(n, nlv, y) && Ppn(Entry(n, x)) == Ppn(Entry(n, y)) ensures x == y {
      assert DirSlot(m, lv, x) && DirSlot(m, lv, y);
    }
  }

  // ----- when every table is freed -----

  /** The words of region k the areas visit. */
  function Visited(k: nat, areas: seq<Vma>): set<nat> {
    if areas == [] then {}
    else Visited(k, areas[..|areas| - 1]) + Words(k, areas[|areas| - 1])
  }

  function Words(k: nat, v: Vma): set<nat> {
    Span(Lo(k, v.start), Hi(k, v.end))
  }

  /** Area i visits the region and finds a leaf table at every word it visits. */
  predicate FindsAll(g: Region, k: nat, areas: seq<Vma>, i: nat)
    requires i < |areas|
  {
    Words(k, areas[i]) != {} && Words(k, areas[i]) <= g.slots - Visited(k, areas[..i])
  }

  predicate FirstFinds(g: Region, k: nat, areas: seq<Vma>, i: nat)
    requires i < |areas|
  {
    FindsAll(g, k, areas, i) && forall j :: 0 <= j < i ==> !FindsAll(g, k, areas, j)
  }

  lemma {:induction false} ExitAreasIs(g: Region, k: nat, areas: seq<Vma>)
    requires g.dir && !g.lost
    ensures var e := ExitAreas(g, k, areas);
            && (e.dir <==> forall i :: 0 <= i < |areas| ==> !FindsAll(g, k, areas, i))
            && (e.dir ==> e.slots == g.slots - Visited(k, areas) && !e.lost)
            && (!e.dir ==> e.slots == {})
            && forall i :: 0 <= i < |areas| && FirstFinds(g, k, areas, i) ==> (e.lost <==> !(g.slots <= Visited(k, areas[..i + 1])))
  {
    hide FindsAll, Words, Visited;
    if areas != [] {
      var n := |areas| - 1;
      var r := areas[..n];
      ExitAreasIs(g, k, r);
      FindsPrefix(g, k, areas);
      VisitedLast(k, areas);
      WordsSome(k, areas[n]);
      assert areas[..n + 1] == areas;
      var er := ExitAreas(g, k, r);
      assert er.dir ==> (FindsAll(g, k, areas, n) <==> Words(k, areas[n]) != {} && Words(k, areas[n]) <= er.slots);
      assert FirstFinds(g, k, areas, n) <==> FindsAll(g, k, areas, n) && er.dir;
    } else {
      VisitedNone(k);
    }
  }

  /** What the last area adds to the search for areas that find everything. */
  lemma FindsPrefix(g: Region, k: nat, areas: seq<Vma>)
    requires areas != []
    ensures var n := |areas| - 1; var r := areas[..n];
            && (FindsAll(g, k, areas, n) <==> Words(k, areas[n]) != {} && Words(k, areas[n]) <= g.slots - Visited(k, r))
            && (FirstFinds(g, k, areas, n) <==>
                  FindsAll(g, k, areas, n) && forall i :: 0 <= i < n ==> !FindsAll(g, k, r, i))
            && forall i :: 0 <= i < n ==>
                 && FindsAll(g, k, areas, i) == FindsAll(g, k, r, i)
                 && FirstFinds(g, k, areas, i) == FirstFinds(g, k, r, i) && areas[..i + 1] == r[..i + 1]
  {
    hide Words, Visited;
    var n := |areas| - 1;
    var r := areas[..n];
    forall i | 0 <= i < n ensures FindsAll(g, k, areas, i) == FindsAll(g, k, r, i) && areas[..i + 1] == r[..i + 1] {
      assert areas[..i] == r[..i];
    }
  }

  lemma VisitedNone(k: nat)
    ensures Visited(k, []) == {}
  {
  }

  lemma VisitedLast(k: nat, areas: seq<Vma>)
    requires areas != []
    ensures Visited(k, areas) == Visited(k, areas[..|areas| - 1]) + Words(k, areas[|areas| - 1])
  {
  }

  lemma WordsSome(k: nat, v: Vma)
    ensures Words(k, v) == Span(Lo(k, v.start), Hi(k, v.end)) && (Words(k, v) == {} <==> Lo(k, v.start) >= Hi(k, v.end))
  {
    assert Lo(k, v.start) < Hi(k, v.end) ==> Lo(k, v.start) in Words(k, v);
  }

  /** A region with a directory is freed exactly when some area finds a leaf table at every word
      it visits, and the first to do so leaves no leaf table behind. */
  lemma CleanIff(g: Region, k: nat, areas: seq<Vma>)
    requires g.dir && !g.lost
    ensures Clean(g, k, areas) <==>
              exists i :: 0 <= i < |areas| && FirstFinds(g, k, areas, i) && g.slots <= Visited(k, areas[..i + 1])
  {
    hide ExitAreas, FindsAll, Visited;
    ExitAreasIs(g, k, areas);
    if !ExitAreas(g, k, areas).dir {
      var i: nat :| i < |areas| && FindsAll(g, k, areas, i);
      var f := FirstOf(g, k, areas, i);
    }
  }

  lemma {:induction false} FirstOf(g: Region, k: nat, areas: seq<Vma>, i: nat) returns (f: nat)
    requires i < |areas| && FindsAll(g, k, areas, i)
    ensures f < |areas| && FirstFinds(g, k, areas, f)
  {
    hide FindsAll;
    f := i;
    if j: nat :| j < i && FindsAll(g, k, areas, j) {
      f := FirstOf(g, k, areas, j);
    }
  }

  /** One 2 MB region with a leaf table, and the first area to visit the 1 GB region visits
      nothing else: everything is freed. */
  lemma OneTableClean(g: Region, k: nat, areas: seq<Vma>, i: nat, j: nat)
    requires g.dir && !g.lost && g.slots == {j} && i < |areas| && Words(k, areas[i]) == {j}
    requires Visited(k, areas[..i]) == {}
    ensures Clean(g, k, areas)
  {
    hide ExitAreas, Words, Visited, Clean;
    CleanIff(g, k, areas);
    assert FindsAll(g, k, areas, i);
    forall n | 0 <= n < i ensures !FindsAll(g, k, areas, n) {
      NotVisited(k, areas, n, i);
    }
    assert areas[..i + 1][..i] == areas[..i] && FirstFinds(g, k, areas, i);
    VisitedLast(k, areas[..i + 1]);
  }

  lemma {:induction false} NotVisited(k: nat, areas: seq<Vma>, n: nat, i: nat)
    requires n < i <= |areas| && Visited(k, areas[..i]) == {}
    ensures Words(k, areas[n]) == {}
  {
    hide Words, Visited;
    assert areas[..i][..i - 1] == areas[..i - 1];
    VisitedLast(k, areas[..i]);
    if n < i - 1 {
      NotVisited(k, areas, n, i - 1);
    }
  }

  /** Two areas of one page in neighbouring 2 MB regions, both mapped: the directory goes with
      the first area, and the leaf table of the second is lost. */
  lemma SecondTableLost()
    ensures UserAreas(TwoAreas()) && !Clean(Region(true, {4, 5}, false), 0, TwoAreas())
    ensures ExitAreas(Region(true, {4, 5}, false), 0, TwoAreas()).lost
  {
    var a, b := TwoAreas()[0], TwoAreas()[1];
    assert TwoAreas() == [a, b];
    var g := Region(true, {4, 5}, false);
    assert Lo(0, a.start) == 4 && Hi(0, a.end) == 5 && Lo(0, b.start) == 5 && Hi(0, b.end) == 6;
    assert Span(4, 5) == {4} && 5 in g.slots - Span(4, 5);
    assert [a, b][..1] == [a] && [a][..0] == [];
    assert ExitAreas(g, 0, []) == g;
    assert ExitAreas(g, 0, [a]) == Region(false, {}, true);
    assert ExitAreas(g, 0, [a, b]) == Region(false, {}, true);
  }

  /** A table of root in z that is still a table is still one of root. */
  lemma StillBelow(z: Memory, zlv: Levels, m: Memory, lv: Levels, root: Frame, lost: set<Frame>, k: nat)
    requires Structure(z, zlv) && IsRoot(zlv, root) && Leaving(z, zlv, m, lv, root, lost) && k < 2 && DirAt(z, root, k)
    ensures var d := DirOf(z, root, k); d in zlv && (d in lv ==> DirAt(m, root, k) && DirOf(m, root, k) == d)
    ensures forall t :: t in LeavesOf(z, root, k) ==> t in zlv && (t in lv ==> DirAt(m, root, k) && t in LeavesOf(m, root, k))
  {
    hide Bare, SameSpace, Namers;
    var d := DirOf(z, root, k);
    assert IsTable(z, zlv, root);
    StillAt(z, zlv, m, lv, root, lost, Slot(root, k));
    forall t | t in LeavesOf(z, root, k)
      ensures t in zlv && (t in lv ==> DirAt(m, root, k) && t in LeavesOf(m, root, k))
    {
      var j: nat :| j < 512 && LeafAt(z, root, k, j) && t == Ppn(Entry(z, Slot(d, j)));
      StillAt(z, zlv, m, lv, root, lost, Slot(d, j));
      if t in lv {
        assert LeafAt(m, root, k, j);
      }
    }
  }

  /** If what word r led to is still a table, r still leads to it. */
  lemma StillAt(z: Memory, zlv: Levels, m: Memory, lv: Levels, root: Frame, lost: set<Frame>, r: Slot)
    requires Structure(z, zlv) && Leaving(z, zlv, m, lv, root, lost)
    ensures DirSlot(z, zlv, r) ==>
              var t := Ppn(Entry(z, r)); t in zlv && (t in lv ==> DirSlot(m, lv, r) && Entry(m, r) == Entry(z, r))
    ensures forall k: nat :: k < 2 && IsRoot(zlv, root) && DirAt(z, root, k) ==> DirSlot(z, zlv, Slot(root, k))
    ensures forall k: nat, j: nat :: k < 2 && IsRoot(zlv, root) && LeafAt(z, root, k, j) ==> DirSlot(z, zlv, Slot(DirOf(z, root, k), j))
  {
    hide Bare, SameSpace, Namers;
    forall k: nat | k < 2 && IsRoot(zlv, root) && DirAt(z, root, k) ensures DirSlot(z, zlv, Slot(root, k)) && PointsDown(z, zlv, Slot(root, k)) {
    }
    if DirSlot(z, zlv, r) {
      var t := Ppn(Entry(z, r));
      assert PointsDown(z, zlv, r) && IsTable(z, zlv, r.table);
      if t in lv {
        assert Reached(m, lv, t);
        var x :| DirSlot(m, lv, x) && Ppn(Entry(m, x)) == t;
        assert DirSlot(z, zlv, x);
      }
    }
  }

  lemma RootGone(z: Memory, zlv: Levels, m: Memory, lv: Levels, root: Frame, lost: set<Frame>)
    requires Ok(z, zlv) && Leaving(z, zlv, m, lv, root, lost)
    ensures var n, xs := FreeTable(m, root), TablesOf(m, root); var nlv, lost' := lv - xs, lost + (xs - {root});
            && Accounted(n, nlv, lost') && !IsRoot(nlv, root) && FreedTables(z, zlv, n, nlv, lost')
            && (forall q :: IsRoot(zlv, q) && q != root ==> IsRoot(nlv, q) && SameSpace(z, n, q))
            && (lost' == {} ==> forall t :: t in TablesOf(z, root) ==> t !in nlv && t in n.free)
  {
    hide Structure, Bare, SameSpace, Namers, Counted, DirSlot, LeafSlot, Leaving, Accounted, TablesOf, FreeTable;
    LeavingFacts(z, zlv, m, lv, root, lost, 0);
    RootFreed(m, lv, lost, root);
    RootFacts(z, zlv, m, lv, root, lost);
    var n, xs := FreeTable(m, root), TablesOf(m, root);
    forall q | IsRoot(zlv, q) && q != root ensures SameSpace(z, n, q) {
      RootSpace(m, lv, lost, root, q);
      SpaceTrans(z, m, n, q);
    }
    if lost + (xs - {root}) == {} {
      forall t | t in TablesOf(z, root) ensures t !in lv - xs && t in n.free {
        TableGone(z, zlv, m, lv, root, lost, t);
        TableFree(z, zlv, m, lv, root, lost, t);
      }
    }
  }

  /** Former tables that are not lost are free; frames that were no tables keep their count and
      their place on or off the free list. */
  ghost predicate FreedTables(z: Memory, zlv: Levels, n: Memory, nlv: Levels, lost: set<Frame>) {
    && n.refs.Keys == z.refs.Keys && n.free == z.free + (zlv.Keys - nlv.Keys - lost)
    && (forall f :: f in nlv ==> f in zlv) && lost <= zlv.Keys - nlv.Keys
    && forall d :: d in z.refs && d !in zlv ==> n.refs[d] == z.refs[d]
  }

  lemma RootFacts(z: Memory, zlv: Levels, m: Memory, lv: Levels, root: Frame, lost: set<Frame>)
    requires Leaving(z, zlv, m, lv, root, lost)
    ensures var n, xs := FreeTable(m, root), TablesOf(m, root);
            && root in xs && !IsRoot(lv - xs, root) && FreedTables(z, zlv, n, lv - xs, lost + (xs - {root}))
            && forall q :: IsRoot(zlv, q) && q != root ==> IsRoot(lv, q) && IsRoot(lv - xs, q) && SameSpace(z, m, q)
  {
    hide Structure, Bare, SameSpace, Namers, DirSlot, LeafSlot, TablesOf;
    LeavingFacts(z, zlv, m, lv, root, lost, 0);
    RootInTables(m, root);
    RootTable(m, lv, root);
    TablesBranch(m, lv, root);
  }

  lemma TableFree(z: Memory, zlv: Levels, m: Memory, lv: Levels, root: Frame, lost: set<Frame>, t: Frame)
    requires Leaving(z, zlv, m, lv, root, lost) && t in zlv && (t in lv ==> t == root) && lost == {}
    ensures t in FreeTable(m, root).free
  {
    hide Structure, Bare, SameSpace, Namers, DirSlot, LeafSlot, Accounted;
  }

  lemma RootTable(m: Memory, lv: Levels, root: Frame)
    requires Structure(m, lv) && IsRoot(lv, root)
    ensures root in m.refs
  {
    assert IsTable(m, lv, root);
  }

  lemma TableGone(z: Memory, zlv: Levels, m: Memory, lv: Levels, root: Frame, lost: set<Frame>, t: Frame)
    requires Ok(z, zlv) && Leaving(z, zlv, m, lv, root, lost) && t in TablesOf(z, root)
    ensures t in zlv && (t in lv ==> t in TablesOf(m, root))
  {
    hide Structure, Bare, SameSpace, Namers, Counted, DirSlot, LeafSlot, LeavesOf, Accounted;
    if DirAt(z, root, 0) {
      StillBelow(z, zlv, m, lv, root, lost, 0);
    }
    if DirAt(z, root, 1) {
      StillBelow(z, zlv, m, lv, root, lost, 1);
    }
  }

  /** Freeing the root does not touch the other address spaces. */
  lemma RootSpace(m: Memory, lv: Levels, lost: set<Frame>, root: Frame, q: Frame)
    requires Accounted(m, lv, lost) && IsRoot(lv, root) && Bare(m, root) && IsRoot(lv, q) && q != root
    ensures SameSpace(m, FreeTable(m, root), q)
  {
    hide Namers, Bare, TablesOf;
    TablesBranch(m, lv, root);
    RootInTables(m, root);
    var n := FreeTable(m, root);
    forall lb: nat | User(lb) ensures SameAt(m, n, q, lb) {
      WalkLeaf(m, lv, q, lb);
      assert IsTable(m, lv, q);
      var s1 := Slot(q, Pdx1(lb));
      if Valid(Entry(m, s1)) {
        var s0 := Slot(Ppn(Entry(m, s1)), Pdx0(lb));
        assert DirSlot(m, lv, s1);
        if Valid(Entry(m, s0)) {
          assert DirSlot(m, lv, s0);
        }
      }
      assert Walk(n, q, lb) == Walk(m, q, lb) && Pte(n, q, lb) == Pte(m, q, lb);
      if Valid(Pte(m, q, lb)) {
        assert LeafSlot(m, lv, Walk(m, q, lb).value) && PointsToData(m, lv, Walk(m, q, lb).value);
      }
    }
  }

  lemma ShowsRest(m: Memory, lv: Levels, root: Frame, lost: set<Frame>, g: seq<Region>)
    requires Structure(m, lv) && IsRoot(lv, root) && Shows(m, root, lost, g)
    ensures TablesOf(m, root) - {root} == {} <==> !g[0].dir && !g[1].dir
    ensures lost == {} <==> !g[0].lost && !g[1].lost
  {
    DirsApart(m, lv, root, 0, root);
    DirsApart(m, lv, root, 1, root);
    assert g[0].dir == DirAt(m, root, 0) && g[1].dir == DirAt(m, root, 1);
    if g[0].dir {
      assert DirOf(m, root, 0) in TablesOf(m, root) - {root};
    }
    if g[1].dir {
      assert DirOf(m, root, 1) in TablesOf(m, root) - {root};
    }
  }

  lemma RegionsClean(z: Memory, root: Frame, areas: seq<Vma>, g: seq<Region>)
    requires |g| == 2 && forall k: nat :: k < 2 ==> g[k] == ExitAreas(RegionOf(z, root, k), k, areas)
    ensures (forall k: nat :: k < 2 ==> RegionOf(z, root, k).dir ==> Clean(RegionOf(z, root, k), k, areas)) <==>
              !g[0].dir && !g[1].dir && !g[0].lost && !g[1].lost
  {
    hide ExitAreas, RegionOf;
    forall k: nat | k < 2
      ensures !g[k].dir && !g[k].lost <==> (RegionOf(z, root, k).dir ==> Clean(RegionOf(z, root, k), k, areas))
    {
      NoDirStays(RegionOf(z, root, k), k, areas);
      RegionStarts(z, root, k);
    }
  }

  lemma RegionStarts(z: Memory, root: Frame, k: nat)
    ensures !RegionOf(z, root, k).lost
  {
  }

  lemma {:induction false} NoDirStays(g: Region, k: nat, areas: seq<Vma>)
    ensures !g.dir ==> ExitAreas(g, k, areas) == g
  {
    if areas != [] {
      NoDirStays(g, k, areas[..|areas| - 1]);
    }
  }

  /** exit_mmap's second loop and put_pgdir: every table of the address space is freed, and the
      account is whole again, exactly when the areas free all tables of both regions. */
  method FreeSpace(s: AddressSpaces, mm: Mm) returns (ghost lost: set<Frame>)
    requires Ok(s.m, s.lv) && IsRoot(s.lv, mm.pgdir) && Bare(s.m, mm.pgdir) && UserAreas(mm.vmas)
    modifies s
    ensures Accounted(s.m, s.lv, lost) && !IsRoot(s.lv, mm.pgdir)
    ensures lost == {} <==> forall k: nat :: k < 2 ==>
              var g := RegionOf(old(s.m), mm.pgdir, k); g.dir ==> Clean(g, k, mm.vmas)
    ensures lost == {} ==> Ok(s.m, s.lv)
    ensures lost == {} ==> forall t :: t in TablesOf(old(s.m), mm.pgdir) ==> t !in s.lv && t in s.m.free
    ensures FreedTables(old(s.m), old(s.lv), s.m, s.lv, lost)
    ensures forall q :: IsRoot(old(s.lv), q) && q != mm.pgdir ==> IsRoot(s.lv, q) && SameSpace(old(s.m), s.m, q)
  {
    hide Structure, Bare, ExitAreas, Leaving, Shows, Accounted, TablesOf, SameSpace, FreeTable, FreedTables;
    ghost var z, zlv, root := s.m, s.lv, mm.pgdir;
    ghost var g;
    lost, g := ExitTables(s, mm);
    ghost var m, lv := s.m, s.lv;
    ghost var rest := TablesOf(m, root) - {root};
    RootGone(z, zlv, m, lv, root, lost);
    LeavingFacts(z, zlv, m, lv, root, lost, 0);
    ShowsRest(m, lv, root, lost, g);
    ShowsBoth(m, root, lost, g);
    s.m := FreeTable(s.m, mm.pgdir);
    s.lv := s.lv - TablesOf(m, root);
    lost := lost + rest;
    RegionsClean(z, root, mm.vmas, g);
    NothingLost(s.m, s.lv);
  }

  // ----- exit_mmap as a whole -----

  /** What root maps for the user lies in the areas. */
  ghost predicate MapsInside(m: Memory, root: Frame, areas: seq<Vma>) {
    forall lb: nat {:trigger Pte(m, root, lb)} :: User(lb) && Valid(Pte(m, root, lb)) ==> Covered(areas, lb)
  }

  lemma BareAfter(m: Memory, lv: Levels, n: Memory, root: Frame, areas: seq<Vma>)
    requires UnmappedAreas(m, lv, n, root, areas) && MapsInside(m, root, areas) && IsRoot(lv, root)
    ensures Bare(n, root)
  {
    hide Pte;
    forall lb: nat | User(lb) ensures !Valid(Pte(n, root, lb)) {
      assert Pte(n, root, lb) == Pte(n, root, lb) && Pte(m, root, lb) == Pte(m, root, lb);
    }
  }

  lemma RegionsKept(m: Memory, lv: Levels, n: Memory, root: Frame, k: nat)
    requires Structure(m, lv) && IsRoot(lv, root) && SameDirs(m, n, lv) && k < 2
    ensures RegionOf(n, root, k) == RegionOf(m, root, k)
    ensures DirAt(m, root, k) ==> DirOf(n, root, k) == DirOf(m, root, k) && LeavesOf(n, root, k) == LeavesOf(m, root, k)
  {
    DirsApart(m, lv, root, k, root);
    assert DirAt(n, root, k) == DirAt(m, root, k);
    assert forall j: nat :: LeafAt(n, root, k, j) == LeafAt(m, root, k, j);
    assert Slots(n, root, k) == Slots(m, root, k);
  }

  lemma TablesKept(m: Memory, lv: Levels, n: Memory, root: Frame)
    requires Structure(m, lv) && IsRoot(lv, root) && SameDirs(m, n, lv)
    ensures TablesOf(n, root) == TablesOf(m, root)
  {
    hide Structure, SameDirs, LeavesOf;
    RegionsKept(m, lv, n, root, 0);
    RegionsKept(m, lv, n, root, 1);
    assert RegionOf(n, root, 0).dir == DirAt(n, root, 0) && RegionOf(n, root, 1).dir == DirAt(n, root, 1);
    assert RegionOf(m, root, 0).dir == DirAt(m, root, 0) && RegionOf(m, root, 1).dir == DirAt(m, root, 1);
  }

  /** A child as fork leaves it. */
  lemma ForkedInside(m: Memory, n: Memory, from: Frame, to: Frame, areas: seq<Vma>)
    requires Forked(m, n, from, to, areas)
    ensures MapsInside(n, to, areas)
  {
    hide Pte;
  }

  /** exit_mmap and put_pgdir of an address space whose areas cover what it maps: every other
      address space keeps its pages, exactly the frames left without a name are freed, and the
      tables are all freed exactly when the areas are Clean in both regions. */
  method ExitSpace(s: AddressSpaces, mm: Mm) returns (ghost lost: set<Frame>)
    requires Ok(s.m, s.lv) && IsRoot(s.lv, mm.pgdir) && UserAreas(mm.vmas) && MapsInside(s.m, mm.pgdir, mm.vmas)
    modifies s
    ensures Accounted(s.m, s.lv, lost) && !IsRoot(s.lv, mm.pgdir)
    ensures lost == {} <==> forall k: nat :: k < 2 ==>
              var g := RegionOf(old(s.m), mm.pgdir, k); g.dir ==> Clean(g, k, mm.vmas)
    ensures lost == {} ==> Ok(s.m, s.lv)
    ensures lost == {} ==> forall t :: t in TablesOf(old(s.m), mm.pgdir) ==> t !in s.lv && t in s.m.free
    ensures forall q :: IsRoot(old(s.lv), q) && q != mm.pgdir ==> IsRoot(s.lv, q) && SameSpace(old(s.m), s.m, q)
    ensures forall d :: d in old(s.m).refs && d !in old(s.lv) ==>
              d in s.m.refs && (d in s.m.free <==> d in old(s.m).free || (old(s.m).refs[d] > 0 && s.m.refs[d] == 0))
    ensures old(s.m).free <= s.m.free
  {
    hide Structure, Counted, Bare, Clean, RegionOf, TablesOf, SameSpace, UnmappedAreas, MapsInside, Accounted, SameDirs,
         Conserved, FreedExactly;
    ghost var z, zlv, root := s.m, s.lv, mm.pgdir;
    ExitMmap(s, mm);
    BareAfter(z, zlv, s.m, root, mm.vmas);
    UnmappedSpaces(z, zlv, s.m, root, mm.vmas);
    RegionsKept(z, zlv, s.m, root, 0);
    RegionsKept(z, zlv, s.m, root, 1);
    TablesKept(z, zlv, s.m, root);
    FreeOnly(z, zlv, s.m);
    ghost var m := s.m;
    lost := FreeSpace(s, mm);
    forall q | IsRoot(zlv, q) && q != root ensures SameSpace(z, s.m, q) {
      SpaceTrans(z, m, s.m, q);
    }
  }

  lemma FreeOnly(m: Memory, lv: Levels, n: Memory)
    requires Ok(m, lv) && FreedExactly(m, lv, n)
    ensures m.free <= n.free
    ensures forall d :: d in m.refs && d !in lv ==>
              d in n.refs && (d in n.free <==> d in m.free || (m.refs[d] > 0 && n.refs[d] == 0))
  {
    assert forall f :: f in lv ==> IsTable(m, lv, f);
  }

  // ----- a process that loses a table -----

  /** A directory word that leads to a leaf table, seen from the addresses below it. */
  lemma LeafHasTable(m: Memory, root: Frame, k: nat, j: nat)
    requires k < 2 && j < 512
    ensures User(k * PDSIZE + j * PTSIZE)
    ensures LeafAt(m, root, k, j) <==> HasTable(m, root, k * PDSIZE + j * PTSIZE)
    ensures DirAt(m, root, k) <==> HasDir(m, root, k * PDSIZE)
  {
    PartsOf(k, j, 0);
    PartsOf(k, 0, 0);
  }

  /** After two pages under a fresh root, in neighbouring 2 MB regions. */
  lemma TwoTables(m: Memory, lv: Levels, n: Memory, nlv: Levels, o: Memory, olv: Levels, root: Frame, f: Frame,
                  g: Frame)
    requires FreshRoot(m, root) && IsRoot(lv, root)
    requires FramePut(m, lv, n, nlv, root, 0x80_0000, f, PteCreate(f, PTE_USER))
    requires FramePut(n, nlv, o, olv, root, 0xA0_0000, g, PteCreate(g, PTE_USER))
    ensures IsRoot(olv, root) && RegionOf(o, root, 0) == Region(true, {4, 5}, false)
    ensures MapsInside(o, root, TwoAreas())
  {
    hide Pte, Walk, HasDir, HasTable;
    forall lb: nat | User(lb)
      ensures HasDir(o, root, lb) <==> lb / PDSIZE == 0
      ensures HasTable(o, root, lb) <==> lb / PTSIZE == 4 || lb / PTSIZE == 5
      ensures Valid(Pte(o, root, lb)) ==> Page(lb) == 0x800 || Page(lb) == 0xA00
    {
      FreshTables(m, root, lb);
      assert HasDir(n, root, lb) <==> lb / PDSIZE == 0;
      assert Pte(n, root, lb) == if Page(lb) == 0x800 then PteCreate(f, PTE_USER) else 0;
    }
    forall j: nat | j < 512 ensures LeafAt(o, root, 0, j) <==> j == 4 || j == 5 {
      LeafHasTable(o, root, 0, j);
    }
    LeafHasTable(o, root, 0, 0);
    assert Slots(o, root, 0) == {4, 5};
    forall lb: nat | User(lb) && Valid(Pte(o, root, lb)) ensures Covered(TwoAreas(), lb) {
      assert Covers(TwoAreas()[if Page(lb) == 0x800 then 0 else 1], lb);
    }
  }

  lemma FreshTables(m: Memory, root: Frame, lb: nat)
    requires FreshRoot(m, root) && User(lb)
    ensures !HasDir(m, root, lb) && !HasTable(m, root, lb) && Pte(m, root, lb) == 0
  {
  }

  /** The areas of two one-page mappings in neighbouring 2 MB regions. */
  function TwoAreas(): seq<Vma> {
    [Vma(0x80_0000, 0x80_1000, VM_READ), Vma(0xA0_0000, 0xA0_1000, VM_READ)]
  }

  /** An address space of two mapped pages is built and torn down: a leaf table is lost. */
  method SecondTableLostRun() returns (s: AddressSpaces, ghost lost: set<Frame>)
    ensures Accounted(s.m, s.lv, lost) && lost != {}
  {
    hide Structure, Counted, Namers, Walk, Pte, HasDir, HasTable, NewMemory, FramePut, FreshRoot, MapsInside, RegionOf, Clean,
         Accounted, MapVerdict, TwoAreas, Sorted, Missing, TablesOf;
    s := new AddressSpaces(NewMemory(7), map[]);
    var root := s.SetupPgdir();
    ghost var m, lv := s.m, s.lv;
    var mm := MapTwo(root.value);
    TwoMissing(m, root.value);
    var p := s.PgdirAllocPage(root.value, 0x80_0000, PTE_USER);
    ghost var n, nlv := s.m, s.lv;
    OnePut(m, lv, n, nlv, root.value, p.value);
    var q := s.PgdirAllocPage(root.value, 0xA0_0000, PTE_USER);
    TwoTables(m, lv, n, nlv, s.m, s.lv, root.value, p.value, q.value);
    SecondTableLost();
    lost := ExitSpace(s, mm);
  }

  lemma TwoMissing(m: Memory, root: Frame)
    requires FreshRoot(m, root)
    ensures Missing(m, root, 0x80_0000) == 2
  {
    FreshTables(m, root, 0x80_0000);
  }

  lemma OnePut(m: Memory, lv: Levels, n: Memory, nlv: Levels, root: Frame, f: Frame)
    requires FreshRoot(m, root) && IsRoot(lv, root)
    requires FramePut(m, lv, n, nlv, root, 0x80_0000, f, PteCreate(f, PTE_USER))
    ensures |n.free| == |m.free| - 3 && IsRoot(nlv, root) && Missing(n, root, 0xA0_0000) == 1
  {
    hide Pte, Walk, HasDir, HasTable;
    FreshTables(m, root, 0x80_0000);
    FreshTables(m, root, 0xA0_0000);
    assert HasDir(n, root, 0xA0_0000) && !HasTable(n, root, 0xA0_0000);
  }

  method MapTwo(root: Frame) returns (mm: Mm)
    ensures mm.Valid() && mm.pgdir == root && mm.vmas == TwoAreas() && UserAreas(mm.vmas)
  {
    hide MapArea;
    mm := new Mm(root);
    TwoAreasAre(mm.vmas);
    assert UserAreas(mm.vmas);
    var a := mm.Map(0x80_0000, 0x1000, VM_READ, true);
    OneArea(mm.vmas, Vma(0x80_0000, 0x80_1000, VM_READ));
    assert mm.vmas[0] in mm.vmas;
    var b := mm.Map(0xA0_0000, 0x1000, VM_READ, true);
    TwoAreasAre(mm.vmas);
  }

  lemma TwoAreasAre(s: seq<Vma>)
    ensures MapArea(0x80_0000, 0x1000, VM_READ) == TwoAreas()[0] && MapArea(0xA0_0000, 0x1000, VM_READ) == TwoAreas()[1]
    ensures UserAreas(TwoAreas()) && Sorted(TwoAreas())
    ensures multiset(s) == multiset([TwoAreas()[0]]) + multiset{TwoAreas()[1]} && Sorted(s) ==> s == TwoAreas()
  {
    assert TwoAreas() == [TwoAreas()[0]] + [TwoAreas()[1]];
    if multiset(s) == multiset([TwoAreas()[0]]) + multiset{TwoAreas()[1]} && Sorted(s) {
      SortedUnique(s, TwoAreas());
    }
  }
}
