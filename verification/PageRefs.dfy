/** What a reference count means to user programs: the number of pages, over all address
    spaces, that are mapped to the frame. */
module PageRefs {
  import opened Sv39
  import opened PageTable
  import opened PageMap
  import opened PageBudget
  import opened Wrappers

  /** Page number `page` of the address space with this root. */
  datatype Mapping = Mapping(root: Frame, page: nat)

  predicate MapsTo(m: Memory, x: Mapping, d: Frame) {
    var w := Pte(m, x.root, x.page * PGSIZE);
    Valid(w) && Ppn(w) == d
  }

  /** The user pages mapped to frame d. */
  ghost function Mappings(m: Memory, lv: Levels, d: Frame): set<Mapping> {
    set q, p | q in lv && 0 <= p < USER_PAGES && IsRoot(lv, q) && MapsTo(m, Mapping(q, p), d) :: Mapping(q, p)
  }

  lemma IsMapping(m: Memory, lv: Levels, d: Frame, x: Mapping)
    ensures x in Mappings(m, lv, d) <==> IsRoot(lv, x.root) && x.page < USER_PAGES && MapsTo(m, x, d)
  {
    assert x == Mapping(x.root, x.page);
  }

  ghost function SlotOf(m: Memory, x: Mapping): Slot {
    match Walk(m, x.root, x.page * PGSIZE)
    case Some(s) => s
    case None => Slot(0, 0)
  }

  /** The three indices of a user page, put together. */
  lemma Compose(a: nat, b: nat, c: nat)
    requires a < 2 && b < 512 && c < 512
    ensures var p := (a * 512 + b) * 512 + c;
            p < USER_PAGES && User(p * PGSIZE) && Pdx1(p * PGSIZE) == a && Pdx0(p * PGSIZE) == b && Ptx(p * PGSIZE) == c
  {
    var p := (a * 512 + b) * 512 + c;
    assert p * PGSIZE == a * PDSIZE + b * PTSIZE + c * PGSIZE;
  }

  /** Every slot of a leaf table is the slot of some user page: no table is out of reach. */
  lemma LeafIsReached(m: Memory, lv: Levels, s: Slot) returns (x: Mapping)
    requires Ok(m, lv) && LeafSlot(m, lv, s)
    ensures IsRoot(lv, x.root) && x.page < USER_PAGES && Walk(m, x.root, x.page * PGSIZE) == Some(s)
  {
    assert IsTable(m, lv, s.table) && Reached(m, lv, s.table);
    var s0 :| DirSlot(m, lv, s0) && Ppn(Entry(m, s0)) == s.table;
    assert PointsDown(m, lv, s0) && IsTable(m, lv, s0.table);
    assert Reached(m, lv, s0.table);
    var s1 :| DirSlot(m, lv, s1) && Ppn(Entry(m, s1)) == s0.table;
    assert PointsDown(m, lv, s1) && IsTable(m, lv, s1.table);
    Compose(s1.index, s0.index, s.index);
    x := Mapping(s1.table, (s1.index * 512 + s0.index) * 512 + s.index);
    assert Slot(s1.table, s1.index) == s1 && Slot(s0.table, s0.index) == s0;
  }

  lemma MappingSlot(m: Memory, lv: Levels, d: Frame, x: Mapping)
    requires Ok(m, lv) && x in Mappings(m, lv, d)
    ensures SlotOf(m, x) in Namers(m, lv, d)
  {
    IsMapping(m, lv, d, x);
    PageOf(m, lv, x.root, x.page * PGSIZE);
    NamersIs(m, lv, d, SlotOf(m, x));
  }

  lemma SlotsDiffer(m: Memory, lv: Levels, d: Frame, x: Mapping, y: Mapping)
    requires Ok(m, lv) && x in Mappings(m, lv, d) && y in Mappings(m, lv, d) && SlotOf(m, x) == SlotOf(m, y)
    ensures x == y
  {
    IsMapping(m, lv, d, x);
    IsMapping(m, lv, d, y);
    PageOf(m, lv, x.root, x.page * PGSIZE);
    PageOf(m, lv, y.root, y.page * PGSIZE);
    WalksSeparate(m, lv, x.root, x.page * PGSIZE, y.root, y.page * PGSIZE);
  }

  /** A one-to-one image has as many elements. */
  lemma {:induction false} SameSize(m: Memory, xs: set<Mapping>, ss: set<Slot>)
    requires forall x :: x in xs ==> SlotOf(m, x) in ss
    requires forall x, y :: x in xs && y in xs && SlotOf(m, x) == SlotOf(m, y) ==> x == y
    requires forall s :: s in ss ==> exists x :: x in xs && SlotOf(m, x) == s
    ensures |xs| == |ss|
    decreases xs
  {
    if xs == {} {
      assert ss == {};
    } else {
      var x :| x in xs;
      SameSize(m, xs - {x}, ss - {SlotOf(m, x)});
    }
  }

  /** The reference count of a frame that is no table is the number of user pages, over all
      address spaces, mapped to it; a free frame has none. */
  lemma CountsAreMappings(m: Memory, lv: Levels, d: Frame)
    requires Ok(m, lv) && d in m.refs && d !in lv
    ensures m.refs[d] == |Mappings(m, lv, d)|
    ensures d in m.free ==> Mappings(m, lv, d) == {}
  {
    hide Structure, Counted, SlotOf, Walk, Mappings;
    var xs, ss := Mappings(m, lv, d), Namers(m, lv, d);
    CountIs(m, lv, d);
    forall x | x in xs ensures SlotOf(m, x) in ss {
      MappingSlot(m, lv, d, x);
    }
    forall x, y | x in xs && y in xs && SlotOf(m, x) == SlotOf(m, y) ensures x == y {
      SlotsDiffer(m, lv, d, x, y);
    }
    forall s | s in ss ensures exists x :: x in xs && SlotOf(m, x) == s {
      var x := NamerMapping(m, lv, d, s);
    }
    SameSize(m, xs, ss);
    if d in m.free {
      NoNamers(m, lv, d);
    }
  }

  lemma CountIs(m: Memory, lv: Levels, d: Frame)
    requires Ok(m, lv) && d in m.refs && d !in lv
    ensures m.refs[d] == |Namers(m, lv, d)|
  {
  }

  lemma NamerMapping(m: Memory, lv: Levels, d: Frame, s: Slot) returns (x: Mapping)
    requires Ok(m, lv) && s in Namers(m, lv, d)
    ensures x in Mappings(m, lv, d) && SlotOf(m, x) == s
  {
    NamersIs(m, lv, d, s);
    x := LeafIsReached(m, lv, s);
    PageOf(m, lv, x.root, x.page * PGSIZE);
    IsMapping(m, lv, d, x);
  }
}
