/** Mapping, unmapping and copying pages of user address spaces (kern/mm/pmm.c), with the
    reference counts that decide when a frame goes back to the allocator. */
module PageMap {
  import opened Sv39
  import opened PageTable
  import opened Wrappers

  datatype Outcome = Done | NoMem | Panic

  // ----- writing one leaf word -----

  /** page_ref_dec, and free_page when the count reaches 0. */
  function DropRef(m: Memory, d: Frame): Memory
    requires d in m.refs
  {
    var r := m.refs[d] - 1;
    m.(refs := m.refs[d := r], free := if r == 0 then m.free + {d} else m.free)
  }

  predicate Removable(m: Memory, s: Slot) {
    InTable(m, s) && (Valid(Entry(m, s)) ==> Ppn(Entry(m, s)) in m.refs)
  }

  /** page_remove_pte: an entry that is not valid stays. */
  function RemovedPte(m: Memory, s: Slot): Memory
    requires Removable(m, s)
  {
    if Valid(Entry(m, s)) then SetWord(DropRef(m, Ppn(Entry(m, s))), s, 0) else m
  }

  /** page_insert once the slot is found. */
  function InsertedPte(m: Memory, s: Slot, page: Frame, perm: nat): Memory
    requires Removable(m, s) && page in m.refs && perm < 1024
  {
    var up := m.(refs := m.refs[page := m.refs[page] + 1]);
    var cleared :=
      if !Valid(Entry(m, s)) then up
      else if Ppn(Entry(m, s)) == page then up.(refs := up.refs[page := up.refs[page] - 1])
      else RemovedPte(up, s);
    SetWord(cleared, s, PteCreate(page, perm))
  }

  predicate IsLeaf(m: Memory, lv: Levels, s: Slot) {
    InTable(m, s) && s.table in lv && lv[s.table] == 0 && s.index < 512
  }

  predicate Names(m: Memory, s: Slot, d: Frame)
    requires InTable(m, s)
  {
    Valid(Entry(m, s)) && Ppn(Entry(m, s)) == d
  }

  /** n is m with the leaf word at s replaced by w; counts and the free set may differ. */
  predicate LeafWritten(m: Memory, lv: Levels, s: Slot, w: nat, n: Memory) {
    IsLeaf(m, lv, s) && n.tables == SetWord(m, s, w).tables && n.refs.Keys == m.refs.Keys && n.data == m.data
  }

  lemma WrittenSlots(m: Memory, lv: Levels, s: Slot, w: nat, n: Memory, x: Slot)
    requires LeafWritten(m, lv, s, w, n)
    ensures DirSlot(n, lv, x) == DirSlot(m, lv, x)
    ensures x != s ==> LeafSlot(n, lv, x) == LeafSlot(m, lv, x)
    ensures LeafSlot(n, lv, s) == Valid(w) && Entry(n, s) == w
    ensures InTable(n, x) == InTable(m, x)
    ensures InTable(m, x) && x != s ==> Entry(n, x) == Entry(m, x)
  {
    SetWordEntry(m, s, w, x);
    SetWordEntry(m, s, w, s);
  }

  lemma WrittenStructure(m: Memory, lv: Levels, s: Slot, w: nat, n: Memory)
    requires Structure(m, lv) && LeafWritten(m, lv, s, w, n)
    requires forall f :: f in n.free ==> f in n.refs && HasBytes(n, f) && f !in lv
    ensures Structure(n, lv)
  {
    forall f | f in lv ensures IsTable(n, lv, f) {
      assert IsTable(m, lv, f);
    }
    forall x | DirSlot(n, lv, x) ensures PointsDown(n, lv, x) {
      WrittenSlots(m, lv, s, w, n, x);
      assert PointsDown(m, lv, x);
    }
    forall u | u in lv && lv[u] < 2 ensures Reached(n, lv, u) {
      assert Reached(m, lv, u);
      var x :| DirSlot(m, lv, x) && Ppn(Entry(m, x)) == u;
      WrittenSlots(m, lv, s, w, n, x);
      assert DirSlot(n, lv, x) && Ppn(Entry(n, x)) == u;
    }
    forall x, y | DirSlot(n, lv, x) && DirSlot(n, lv, y) && Ppn(Entry(n, x)) == Ppn(Entry(n, y)) ensures x == y {
      WrittenSlots(m, lv, s, w, n, x);
      WrittenSlots(m, lv, s, w, n, y);
    }
  }

  /** Replacing one leaf word moves at most one naming away and at most one in. */
  lemma NamersMoved(m: Memory, lv: Levels, s: Slot, w: nat, n: Memory, d: Frame)
    requires Structure(m, lv) && LeafWritten(m, lv, s, w, n)
    ensures |Namers(n, lv, d)| == |Namers(m, lv, d)| - (if Names(m, s, d) then 1 else 0) + (if Valid(w) && Ppn(w) == d then 1 else 0)
  {
    assert forall f :: f in lv ==> IsTable(m, lv, f);
    forall f | f in lv ensures IsTable(m, lv, f) && |n.tables[f]| == 512 {
    }
    var was, now := Namers(m, lv, d), Namers(n, lv, d);
    NamersIs(m, lv, d, s);
    forall x ensures x in now <==> (x in was && x != s) || (x == s && Valid(w) && Ppn(w) == d) {
      WrittenSlots(m, lv, s, w, n, x);
      NamersIs(m, lv, d, x);
      if x in now {
        assert LeafSlot(n, lv, x);
      }
      if LeafSlot(n, lv, x) && Ppn(Entry(n, x)) == d {
        assert IsTable(m, lv, x.table);
        assert x == Slot(x.table, x.index);
      }
    }
    assert now == (was - {s}) + (if Valid(w) && Ppn(w) == d then {s} else {});
  }

  /** The new counts are right when each moved by what the written word changed. */
  predicate CountsMoved(m: Memory, lv: Levels, s: Slot, w: nat, n: Memory)
    requires InTable(m, s) && n.refs.Keys == m.refs.Keys
  {
    forall d :: d in m.refs && d !in lv ==>
      n.refs[d] == m.refs[d] - (if Names(m, s, d) then 1 else 0) + (if Valid(w) && Ppn(w) == d then 1 else 0)
  }

  /** The free set may only gain a frame whose last reference went, and not the one named. */
  lemma WrittenOk(m: Memory, lv: Levels, s: Slot, w: nat, n: Memory)
    requires Ok(m, lv) && LeafWritten(m, lv, s, w, n) && CountsMoved(m, lv, s, w, n)
    requires Valid(w) ==> Ppn(w) !in lv && Ppn(w) in m.refs && Ppn(w) !in n.free && HasBytes(m, Ppn(w))
    requires forall f :: f in n.free <==> f in m.free || (f in n.refs && f !in lv && Names(m, s, f) && n.refs[f] == 0)
    ensures Ok(n, lv)
  {
    assert forall f :: f in lv ==> IsTable(m, lv, f);
    assert Valid(Entry(m, s)) ==> LeafSlot(m, lv, s) && PointsToData(m, lv, s);
    WrittenStructure(m, lv, s, w, n);
    forall d | d in n.refs && d !in lv ensures n.refs[d] == |Namers(n, lv, d)| {
      NamersMoved(m, lv, s, w, n, d);
    }
    forall x | LeafSlot(n, lv, x) ensures PointsToData(n, lv, x) {
      WrittenSlots(m, lv, s, w, n, x);
      if x != s {
        assert PointsToData(m, lv, x);
        NamersIs(n, lv, Ppn(Entry(n, x)), x);
      }
    }
  }

  /** In every root, only the page of la in root changed, and its word is now w. */
  ghost predicate OnlyPage(m: Memory, lv: Levels, n: Memory, root: Frame, la: nat, w: nat) {
    forall q, lb {:trigger Pte(n, q, lb)} {:trigger Walk(n, q, lb)} :: IsRoot(lv, q) && User(lb) ==>
      && Walk(n, q, lb) == Walk(m, q, lb)
      && Pte(n, q, lb) == if q == root && Page(lb) == Page(la) then w else Pte(m, q, lb)
  }

  lemma WrittenWalks(m: Memory, lv: Levels, s: Slot, w: nat, n: Memory, root: Frame, la: nat)
    requires Structure(m, lv) && LeafWritten(m, lv, s, w, n)
    requires IsRoot(lv, root) && User(la) && Walk(m, root, la) == Some(s)
    ensures OnlyPage(m, lv, n, root, la, w)
  {
    forall q, lb | IsRoot(lv, q) && User(lb)
      ensures && Walk(n, q, lb) == Walk(m, q, lb)
              && Pte(n, q, lb) == if q == root && Page(lb) == Page(la) then w else Pte(m, q, lb)
    {
      WrittenWalk(m, lv, s, w, n, root, la, q, lb);
    }
  }

  lemma WrittenWalk(m: Memory, lv: Levels, s: Slot, w: nat, n: Memory, root: Frame, la: nat, q: Frame, lb: nat)
    requires Structure(m, lv) && LeafWritten(m, lv, s, w, n)
    requires IsRoot(lv, root) && User(la) && Walk(m, root, la) == Some(s) && IsRoot(lv, q) && User(lb)
    ensures Walk(n, q, lb) == Walk(m, q, lb)
    ensures Pte(n, q, lb) == if q == root && Page(lb) == Page(la) then w else Pte(m, q, lb)
  {
    WalkLeaf(m, lv, q, lb);
    var s1 := Slot(q, Pdx1(lb));
    WrittenSlots(m, lv, s, w, n, s1);
    if Valid(Entry(m, s1)) {
      WrittenSlots(m, lv, s, w, n, Slot(Ppn(Entry(m, s1)), Pdx0(lb)));
    }
    assert Walk(n, q, lb) == Walk(m, q, lb);
    if Walk(m, q, lb).Some? {
      WrittenSlots(m, lv, s, w, n, Walk(m, q, lb).value);
      if Walk(m, q, lb) == Some(s) {
        WalksSeparate(m, lv, root, la, q, lb);
      }
    }
    if q == root && Page(lb) == Page(la) {
      SamePageSameWalk(m, root, la, lb);
    }
  }

  /** Frames in use that are neither tables nor mapped: what the rest of the kernel holds. An
      operation that leaves this set alone neither leaks a frame nor takes one away. */
  ghost function Held(m: Memory, lv: Levels): set<Frame> {
    set f | f in m.refs && f !in m.free && f !in lv && m.refs[f] == 0
  }

  /** The same frames, and none leaked or taken. */
  ghost predicate Conserved(m: Memory, lv: Levels, n: Memory, nlv: Levels) {
    n.refs.Keys == m.refs.Keys && Held(n, nlv) == Held(m, lv)
  }

  /** A frame that leaves a count of zero behind is freed, and no other frame is. */
  predicate FreedExactly(m: Memory, lv: Levels, n: Memory) {
    && n.refs.Keys == m.refs.Keys
    && (forall d :: d in m.refs && d !in lv ==> 0 <= n.refs[d] <= m.refs[d])
    && (forall d :: d in m.refs && d !in lv ==> (d in n.free <==> d in m.free || (m.refs[d] > 0 && n.refs[d] == 0)))
    && (forall d :: d in m.refs && d in lv ==> n.refs[d] == m.refs[d])
  }

  lemma FreedExactlyTrans(m: Memory, lv: Levels, n: Memory, o: Memory)
    requires FreedExactly(m, lv, n) && FreedExactly(n, lv, o)
    ensures FreedExactly(m, lv, o)
  {
  }

  /** page_remove_pte keeps the counts right and frees the frame exactly with its last name. */
  lemma RemoveOk(m: Memory, lv: Levels, s: Slot)
    requires Ok(m, lv) && IsLeaf(m, lv, s)
    ensures Removable(m, s) && Ok(RemovedPte(m, s), lv) && FreedExactly(m, lv, RemovedPte(m, s))
    ensures if Valid(Entry(m, s)) then LeafWritten(m, lv, s, 0, RemovedPte(m, s)) else RemovedPte(m, s) == m
  {
    if Valid(Entry(m, s)) {
      assert LeafSlot(m, lv, s) && PointsToData(m, lv, s);
      var d := Ppn(Entry(m, s));
      var n := RemovedPte(m, s);
      NamersIs(m, lv, d, s);
      assert s in Namers(m, lv, d) && |Namers(m, lv, d)| > 0;
      assert CountsMoved(m, lv, s, 0, n);
      WrittenOk(m, lv, s, 0, n);
    }
  }

  /** A frame that can be mapped: known, not free, not a page table. */
  predicate Mappable(m: Memory, lv: Levels, page: Frame) {
    page in m.refs && page !in m.free && page !in lv && HasBytes(m, page)
  }

  /** The frame a valid leaf word names has at least one reference. */
  lemma NamedOnce(m: Memory, lv: Levels, s: Slot)
    requires Ok(m, lv) && IsLeaf(m, lv, s)
    ensures Valid(Entry(m, s)) ==>
              Ppn(Entry(m, s)) in m.refs && Ppn(Entry(m, s)) !in lv && Ppn(Entry(m, s)) !in m.free && m.refs[Ppn(Entry(m, s))] >= 1
  {
    if Valid(Entry(m, s)) {
      assert LeafSlot(m, lv, s) && PointsToData(m, lv, s);
      NamersIs(m, lv, Ppn(Entry(m, s)), s);
      assert s in Namers(m, lv, Ppn(Entry(m, s)));
    }
  }

  /** page_insert writes one word, takes back the reference of the page it replaces, and
      counts one for the new page unless it was mapped there already. */
  lemma InsertEffect(m: Memory, s: Slot, page: Frame, perm: nat)
    requires Removable(m, s) && page in m.refs && perm < 1024
    ensures var n := InsertedPte(m, s, page, perm);
            && n.tables == SetWord(m, s, PteCreate(page, perm)).tables && n.data == m.data && n.refs.Keys == m.refs.Keys
            && (forall d :: d in m.refs ==>
                  n.refs[d] == m.refs[d] - (if Names(m, s, d) then 1 else 0) + (if d == page then 1 else 0))
            && (forall f :: f in n.free <==> f in m.free || (Names(m, s, f) && f != page && f in m.refs && m.refs[f] == 1))
  {
    var row := m.tables[s.table];
    assert row[s.index := 0][s.index := PteCreate(page, perm)] == row[s.index := PteCreate(page, perm)];
    var up := m.(refs := m.refs[page := m.refs[page] + 1]);
    assert Entry(up, s) == Entry(m, s);
  }

  lemma InsertOk(m: Memory, lv: Levels, s: Slot, page: Frame, perm: nat)
    requires Ok(m, lv) && IsLeaf(m, lv, s) && Mappable(m, lv, page) && perm < 1024
    ensures Removable(m, s)
    ensures Ok(InsertedPte(m, s, page, perm), lv)
    ensures LeafWritten(m, lv, s, PteCreate(page, perm), InsertedPte(m, s, page, perm))
  {
    hide InsertedPte, SetWord, RemovedPte, DropRef, Structure;
    NamedOnce(m, lv, s);
    InsertEffect(m, s, page, perm);
    var n := InsertedPte(m, s, page, perm);
    assert CountsMoved(m, lv, s, PteCreate(page, perm), n);
    WrittenOk(m, lv, s, PteCreate(page, perm), n);
  }

  // ----- the operations -----

  /** What page_insert promises about the state it leaves. */
  ghost predicate Inserted(m: Memory, lv: Levels, n: Memory, nlv: Levels, root: Frame, la: nat, page: Frame, perm: nat)
    requires page in m.refs && perm < 1024
  {
    var was := Pte(m, root, la);
    && n.refs.Keys == m.refs.Keys && n.data == m.data
    && (forall f :: f in lv ==> f in nlv && nlv[f] == lv[f])
    && (forall f :: f in nlv && f !in lv ==> f in m.free && nlv[f] < 2)
    && PtesInserted(m, lv, n, root, la, PteCreate(page, perm))
    && (forall d :: d in m.refs && d !in nlv ==>
          n.refs[d] == m.refs[d] - (if Valid(was) && Ppn(was) == d then 1 else 0) + (if d == page then 1 else 0))
    && (forall f :: f in n.free <==>
          (f in m.free && f !in nlv) || (Valid(was) && f == Ppn(was) && f != page && f in m.refs && m.refs[f] == 1))
  }

  ghost predicate PtesInserted(m: Memory, lv: Levels, n: Memory, root: Frame, la: nat, w: nat) {
    forall q, lb {:trigger Pte(n, q, lb)} :: IsRoot(lv, q) && User(lb) ==>
      && Pte(n, q, lb) == (if q == root && Page(lb) == Page(la) then w else Pte(m, q, lb))
      && (Walk(m, q, lb).Some? ==> Walk(n, q, lb) == Walk(m, q, lb))
  }

  lemma InsertAfterGrowth(m: Memory, lv: Levels, g: Memory, nlv: Levels, root: Frame, la: nat, s: Slot,
                          page: Frame, perm: nat)
    requires Ok(m, lv) && Ok(g, nlv) && Grown(m, lv, g, nlv) && IsRoot(lv, root) && User(la) && perm < 1024
    requires Mappable(m, lv, page) && Walk(g, root, la) == Some(s)
    ensures IsLeaf(g, nlv, s) && Removable(g, s) && page in g.refs
    ensures Ok(InsertedPte(g, s, page, perm), nlv)
    ensures Inserted(m, lv, InsertedPte(g, s, page, perm), nlv, root, la, page, perm)
  {
    hide InsertedPte, SetWord, RemovedPte, DropRef, Structure, Counted, Walk, Namers;
    WalkLeaf(g, nlv, root, la);
    NamedOnce(g, nlv, s);
    var n, w := InsertedPte(g, s, page, perm), PteCreate(page, perm);
    InsertOk(g, nlv, s, page, perm);
    InsertEffect(g, s, page, perm);
    WrittenWalks(g, nlv, s, w, n, root, la);
    assert Pte(g, root, la) == Pte(m, root, la) == Entry(g, s);
    InsertPtes(m, lv, g, nlv, n, root, la, w);
  }

  lemma InsertPtes(m: Memory, lv: Levels, g: Memory, nlv: Levels, n: Memory, root: Frame, la: nat, w: nat)
    requires Grown(m, lv, g, nlv) && OnlyPage(g, nlv, n, root, la, w)
    ensures PtesInserted(m, lv, n, root, la, w)
  {
    hide Pte, Walk;
    forall q, lb | IsRoot(lv, q) && User(lb)
      ensures && Pte(n, q, lb) == (if q == root && Page(lb) == Page(la) then w else Pte(m, q, lb))
              && (Walk(m, q, lb).Some? ==> Walk(n, q, lb) == Walk(m, q, lb))
    {
      assert IsRoot(nlv, q);
      assert Pte(g, q, lb) == Pte(m, q, lb);
    }
  }

  lemma TakeFrame(m: Memory, lv: Levels, f: Frame)
    requires Ok(m, lv) && f in m.free
    ensures Ok(m.(free := m.free - {f}), lv) && f in m.refs && m.refs[f] == 0 && f !in lv
  {
    var n := m.(free := m.free - {f});
    assert forall g :: g in lv ==> IsTable(m, lv, g);
    assert forall g :: g in lv ==> IsTable(n, lv, g);
    SameNamers(m, n, lv);
    NoNamers(m, lv, f);
  }

  /** The free set plays no part in what the tables say. */
  lemma SameNamers(m: Memory, n: Memory, lv: Levels)
    requires n.tables == m.tables
    ensures forall d :: Namers(n, lv, d) == Namers(m, lv, d)
    ensures forall s :: DirSlot(n, lv, s) == DirSlot(m, lv, s) && LeafSlot(n, lv, s) == LeafSlot(m, lv, s)
    ensures forall t :: Reached(m, lv, t) ==> Reached(n, lv, t)
  {
    forall d ensures Namers(n, lv, d) == Namers(m, lv, d) {
      assert forall s :: s in Namers(n, lv, d) <==> s in Namers(m, lv, d);
    }
    forall t | Reached(m, lv, t) ensures Reached(n, lv, t) {
      var x :| DirSlot(m, lv, x) && Ppn(Entry(m, x)) == t;
      assert DirSlot(n, lv, x) && Ppn(Entry(n, x)) == t;
    }
  }

  /** No valid entry names a free frame. */
  lemma NoNamers(m: Memory, lv: Levels, f: Frame)
    requires Ok(m, lv) && f in m.free
    ensures Namers(m, lv, f) == {} && f !in lv && f in m.refs && m.refs[f] == 0
  {
    assert forall g :: g in lv ==> IsTable(m, lv, g);
    forall s ensures s !in Namers(m, lv, f) {
      NamersIs(m, lv, f, s);
      assert LeafSlot(m, lv, s) ==> PointsToData(m, lv, s);
    }
  }

  /** A frame with one reference is named from one place. */
  lemma SoleNamer(m: Memory, lv: Levels, d: Frame, s: Slot, t: Slot)
    requires Ok(m, lv) && d in m.refs && d !in lv && m.refs[d] == 1
    requires LeafSlot(m, lv, s) && Ppn(Entry(m, s)) == d && LeafSlot(m, lv, t) && Ppn(Entry(m, t)) == d
    ensures s == t
  {
    NamersIs(m, lv, d, s);
    NamersIs(m, lv, d, t);
    var ns := Namers(m, lv, d);
    assert |ns - {s}| == 0;
    assert t in ns;
  }

  /** A valid user entry names a frame that is counted, in use and no table. */
  lemma PageOf(m: Memory, lv: Levels, root: Frame, la: nat)
    requires Ok(m, lv) && IsRoot(lv, root) && User(la)
    ensures Walk(m, root, la).Some? ==>
              IsLeaf(m, lv, Walk(m, root, la).value) && Entry(m, Walk(m, root, la).value) == Pte(m, root, la)
    ensures Walk(m, root, la).None? ==> Pte(m, root, la) == 0
    ensures var p := Pte(m, root, la);
            Valid(p) ==> Walk(m, root, la).Some? && Mappable(m, lv, Ppn(p)) && m.refs[Ppn(p)] >= 1
  {
    WalkLeaf(m, lv, root, la);
    if Walk(m, root, la).Some? {
      var s := Walk(m, root, la).value;
      NamedOnce(m, lv, s);
      assert LeafSlot(m, lv, s) ==> PointsToData(m, lv, s);
    }
  }

  lemma CountsNotNegative(m: Memory, lv: Levels)
    requires Ok(m, lv)
    ensures forall d :: d in m.refs && d !in lv ==> m.refs[d] >= 0
  {
  }

  /** Two user pages naming one frame with a single reference are the same page. */
  lemma SoleOwner(m: Memory, lv: Levels, r: Frame, la: nat, q: Frame, lb: nat)
    requires Ok(m, lv) && IsRoot(lv, r) && IsRoot(lv, q) && User(la) && User(lb)
    requires Valid(Pte(m, r, la)) && Valid(Pte(m, q, lb)) && Ppn(Pte(m, r, la)) == Ppn(Pte(m, q, lb))
    requires Ppn(Pte(m, r, la)) in m.refs && m.refs[Ppn(Pte(m, r, la))] == 1
    ensures r == q && Page(la) == Page(lb)
  {
    PageOf(m, lv, r, la);
    PageOf(m, lv, q, lb);
    SoleNamer(m, lv, Ppn(Pte(m, r, la)), Walk(m, r, la).value, Walk(m, q, lb).value);
    WalksSeparate(m, lv, r, la, q, lb);
  }
}
