/** Virtual memory areas of kern/mm/vmm.c: the sorted list with its one-entry cache, mapping,
    fork copying and the user range check. A list failing an assertion is the outcome Panic. */
module Vmm {
  import opened Sv39
  import opened PageTable
  import opened PageMap
  import opened Mmu
  import opened PageCopy
  import opened PageBudget
  import opened PageRefs
  import opened Lists
  import opened Wrappers

  const WORDS := 0x1_0000_0000_0000_0000

  const VM_READ := 1
  const VM_WRITE := 2
  const VM_EXEC := 4
  const VM_STACK := 8

  /** vma_struct: the area [start, end); none of its fields changes after creation. */
  datatype Vma = Vma(start: nat, end: nat, flags: nat)

  datatype MapResult = Mapped | Invalid | NoMemory | Failed

  predicate Covers(v: Vma, addr: nat) {
    v.start <= addr < v.end
  }

  predicate Apart(u: Vma, v: Vma) {
    u.end <= v.start || v.end <= u.start
  }

  predicate HasFlag(flags: nat, bit: nat)
    requires bit > 0
  {
    (flags / bit) % 2 == 1
  }

  /** mmap_list: areas that are not empty, in address order, apart from each other. */
  predicate Sorted(s: seq<Vma>) {
    && (forall i :: 0 <= i < |s| ==> s[i].start < s[i].end)
    && (forall i, j :: 0 <= i < j < |s| ==> s[i].end <= s[j].start)
  }

  /** Areas made by mm_map: whole pages inside the user range. */
  predicate UserAreas(s: seq<Vma>) {
    forall v :: v in s ==> UserAccess(v.start, v.end) && v.start % PGSIZE == 0 && v.end % PGSIZE == 0
  }

  predicate Covered(s: seq<Vma>, addr: nat) {
    exists v :: v in s && Covers(v, addr)
  }

  /** The linear search of the list, with no cache. */
  function Lookup(s: seq<Vma>, addr: nat): Option<Vma> {
    if s == [] then None
    else if Covers(s[0], addr) then Some(s[0])
    else Lookup(s[1..], addr)
  }

  lemma {:induction false} LookupFinds(s: seq<Vma>, addr: nat)
    ensures var r := Lookup(s, addr);
            (r.Some? ==> r.value in s && Covers(r.value, addr)) && (r.None? ==> !Covered(s, addr))
  {
    if s != [] {
      LookupFinds(s[1..], addr);
      assert s == [s[0]] + s[1..];
    }
  }

  /** In a sorted list at most one area holds an address, so a cached hit is the hit. */
  lemma LookupUnique(s: seq<Vma>, addr: nat, v: Vma)
    requires Sorted(s) && v in s && Covers(v, addr)
    ensures Lookup(s, addr) == Some(v)
  {
    LookupFinds(s, addr);
    assert Lookup(s, addr).Some?;
    SameArea(s, addr, v, Lookup(s, addr).value);
  }

  lemma SameArea(s: seq<Vma>, addr: nat, u: Vma, v: Vma)
    requires Sorted(s) && u in s && v in s && Covers(u, addr) && Covers(v, addr)
    ensures u == v
  {
    var i :| 0 <= i < |s| && s[i] == u;
    var j :| 0 <= j < |s| && s[j] == v;
    assert s[i].start < s[i].end && s[j].start < s[j].end;
  }

  lemma HeadLow(s: seq<Vma>, v: Vma)
    requires Sorted(s) && v in s
    ensures v == s[0] || s[0].end <= v.start
  {
  }

  lemma HeadSame(s: seq<Vma>, t: seq<Vma>)
    requires Sorted(s) && Sorted(t) && s != [] && t != [] && s[0] in t && t[0] in s
    ensures s[0] == t[0]
  {
    HeadLow(s, t[0]);
    HeadLow(t, s[0]);
    assert s[0].start < s[0].end && t[0].start < t[0].end;
  }

  lemma Tail(s: seq<Vma>)
    requires Sorted(s) && s != []
    ensures Sorted(s[1..]) && s == [s[0]] + s[1..] && multiset(s[1..]) == multiset(s) - multiset{s[0]}
  {
    assert s == [s[0]] + s[1..];
  }

  /** A sorted list is fixed by which areas it holds. */
  lemma {:induction false} SortedUnique(s: seq<Vma>, t: seq<Vma>)
    requires Sorted(s) && Sorted(t) && multiset(s) == multiset(t)
    ensures s == t
  {
    hide Sorted;
    assert |multiset(s)| == |s| && |multiset(t)| == |t|;
    if s != [] && t != [] {
      Tail(s);
      Tail(t);
      assert s[0] in multiset(t) && t[0] in multiset(s);
      HeadSame(s, t);
      SortedUnique(s[1..], t[1..]);
    }
  }

  /** The two neighbours of position k leave room for v. */
  predicate Fits(s: seq<Vma>, k: nat, v: Vma)
    requires k <= |s|
  {
    (k > 0 ==> s[k - 1].end <= v.start) && (k < |s| ==> v.end <= s[k].start)
  }

  lemma FitsSides(s: seq<Vma>, k: nat, v: Vma, i: nat)
    requires Sorted(s) && k <= |s| && v.start < v.end && Fits(s, k, v) && i < |s|
    ensures if i < k then s[i].end <= v.start else v.end <= s[i].start
  {
    assert s[i].start < s[i].end;
    if i < k - 1 {
      assert s[i].end <= s[k - 1].start && s[k - 1].start < s[k - 1].end;
    } else if i > k {
      assert s[k].end <= s[i].start && s[k].start < s[k].end;
    }
  }

  /** At the place where the search stops, the neighbours have room exactly when v is apart
      from every area. */
  lemma ApartFromNeighbours(s: seq<Vma>, k: nat, v: Vma)
    requires Sorted(s) && k <= |s| && v.start < v.end
    requires forall i :: 0 <= i < k ==> s[i].start <= v.start
    requires k < |s| ==> v.start < s[k].start
    ensures Fits(s, k, v) <==> forall u :: u in s ==> Apart(u, v)
  {
    if Fits(s, k, v) {
      forall u | u in s ensures Apart(u, v) {
        var i :| 0 <= i < |s| && s[i] == u;
        FitsSides(s, k, v, i);
      }
    } else if k > 0 && s[k - 1].end > v.start {
      assert s[k - 1] in s && !Apart(s[k - 1], v);
    } else {
      assert s[k] in s && !Apart(s[k], v);
    }
  }

  lemma InsertSorted(s: seq<Vma>, k: nat, v: Vma)
    requires Sorted(s) && k <= |s| && v.start < v.end && Fits(s, k, v)
    ensures Sorted(s[..k] + [v] + s[k..])
  {
    forall i: nat | i < |s| ensures if i < k then s[i].end <= v.start else v.end <= s[i].start {
      FitsSides(s, k, v, i);
    }
  }

  lemma InsertedAreas(s: seq<Vma>, k: nat, v: Vma)
    requires k <= |s|
    ensures multiset(s[..k] + [v] + s[k..]) == multiset(s) + multiset{v}
  {
    assert s == s[..k] + s[k..];
  }

  function RoundDown(a: nat): nat {
    a - a % PGSIZE
  }

  /** ROUNDUP in 64-bit arithmetic. */
  function RoundUp(a: nat): nat {
    RoundDown((a + PGSIZE - 1) % WORDS)
  }

  /** The page range mm_map works on; addr + len wraps at 64 bits. */
  function MapArea(addr: nat, len: nat, flags: nat): Vma {
    Vma(RoundDown(addr), RoundUp((addr + len) % WORDS), flags)
  }

  /** Without wrapping, the mapped area is the least run of pages holding [addr, addr+len). */
  lemma MapAreaHolds(addr: nat, len: nat, flags: nat)
    requires addr + len + PGSIZE <= WORDS
    ensures var v := MapArea(addr, len, flags);
            && v.start % PGSIZE == 0 && v.end % PGSIZE == 0
            && v.start <= addr < v.start + PGSIZE && v.end - PGSIZE < addr + len <= v.end
  {
    var e := addr + len;
    assert (e + PGSIZE - 1) % WORDS == e + PGSIZE - 1;
  }

  lemma MapAreaAligned(addr: nat, len: nat, flags: nat)
    ensures MapArea(addr, len, flags).start % PGSIZE == 0 && MapArea(addr, len, flags).end % PGSIZE == 0
  {
  }

  /** An area that holds not `start` but overlaps the new one begins inside it: this is the
      overlap mm_map does not report but runs into as a failed assertion. */
  lemma OverlapAhead(u: Vma, v: Vma)
    requires u.start < u.end && v.start < v.end && !Covers(u, v.start)
    ensures !Apart(u, v) <==> v.start < u.start < v.end
  {
  }

  /** How mm_map ends: refused when the range is no user range or its first page is inside an
      area, out of memory, stopped by a failed assertion when another area begins inside the
      range, or mapped. */
  function MapVerdict(s: seq<Vma>, v: Vma, room: bool): MapResult {
    if !UserAccess(v.start, v.end) || Covered(s, v.start) then Invalid
    else if !room then NoMemory
    else if exists u :: u in s && v.start < u.start < v.end then Failed
    else Mapped
  }

  /** The range and the outcome of mm_map spelled out: whole 4 KB pages, sums of 64 bits. */
  lemma MapSpelled(s: seq<Vma>, addr: nat, len: nat, flags: nat, room: bool)
    ensures var start := addr - addr % PGSIZE;
            var last := ((addr + len) % WORDS + PGSIZE - 1) % WORDS;
            var end := last - last % PGSIZE;
            var refused := || !(USERBASE <= start < end <= USERTOP)
                           || exists u :: u in s && u.start <= start < u.end;
            var r := MapVerdict(s, MapArea(addr, len, flags), room);
            && MapArea(addr, len, flags) == Vma(start, end, flags)
            && (r == Invalid <==> refused)
            && (r == NoMemory <==> !refused && !room)
            && (r == Failed <==> !refused && room && exists u :: u in s && start < u.start < end)
  {
  }

  /** mm_map succeeds exactly on a user range apart from every area, with memory for it. */
  lemma MappedIff(s: seq<Vma>, v: Vma, room: bool)
    requires Sorted(s)
    ensures MapVerdict(s, v, room) == Mapped <==>
              UserAccess(v.start, v.end) && room && forall u :: u in s ==> Apart(u, v)
  {
    if UserAccess(v.start, v.end) {
      forall u | u in s ensures Apart(u, v) <==> !Covers(u, v.start) && !(v.start < u.start < v.end) {
        assert u.start < u.end;
        if !Covers(u, v.start) {
          OverlapAhead(u, v);
        }
      }
    }
  }

  /** What user_mem_check asks of one byte. */
  predicate ByteOk(s: seq<Vma>, b: nat, write: bool) {
    exists v :: v in s && Covers(v, b) && AreaOk(v, b, write)
  }

  predicate AreaOk(v: Vma, b: nat, write: bool) {
    && HasFlag(v.flags, if write then VM_WRITE else VM_READ)
    && (write && HasFlag(v.flags, VM_STACK) ==> v.start + PGSIZE <= b)
  }

  lemma ByteInArea(s: seq<Vma>, b: nat, v: Vma, write: bool)
    requires Sorted(s) && v in s && Covers(v, b)
    ensures ByteOk(s, b, write) == AreaOk(v, b, write)
  {
    if ByteOk(s, b, write) {
      var u :| u in s && Covers(u, b) && AreaOk(u, b, write);
      SameArea(s, b, u, v);
    }
  }

  /** mm_struct: the area list, the cache and the root table. */
  class Mm {
    var vmas: seq<Vma>
    var cache: Option<Vma>
    var mapCount: nat
    const pgdir: Frame

    ghost predicate Valid()
      reads this
    {
      Sorted(vmas) && (cache.Some? ==> cache.value in vmas) && mapCount == |vmas|
    }

    /** mm_create, with the root table set up. */
    constructor (root: Frame)
      ensures Valid() && vmas == [] && cache == None && pgdir == root
    {
      vmas, cache, mapCount, pgdir := [], None, 0, root;
    }

    /** find_vma: with the cache, the answer of the search without it. */
    method FindVma(addr: nat) returns (r: Option<Vma>)
      requires Valid()
      modifies this`cache
      ensures Valid() && r == Lookup(vmas, addr)
      ensures cache == if r.Some? then r else old(cache)
    {
      r := cache;
      if !(r.Some? && Covers(r.value, addr)) {
        var found := false;
        var i := 0;
        while i < |vmas|
          invariant 0 <= i <= |vmas|
          invariant !found && Lookup(vmas, addr) == Lookup(vmas[i..], addr)
        {
          r := Some(vmas[i]);
          if Covers(vmas[i], addr) {
            found := true;
            break;
          }
          i := i + 1;
        }
        if !found {
          r := None;
        }
      } else {
        LookupUnique(vmas, addr, r.value);
      }
      LookupFinds(vmas, addr);
      if r.Some? {
        cache := r;
      }
    }

    /** insert_vma_struct. Its assertions look at two neighbours only, yet they hold exactly
        when the new area is not empty and apart from every area of the list; then the list
        is again sorted. */
    method InsertVma(v: Vma) returns (ok: bool)
      requires Valid()
      modifies this`vmas, this`mapCount
      ensures Valid()
      ensures ok <==> v.start < v.end && forall u :: u in old(vmas) ==> Apart(u, v)
      ensures ok ==> multiset(vmas) == multiset(old(vmas)) + multiset{v}
      ensures !ok ==> vmas == old(vmas)
    {
      if !(v.start < v.end) {
        return false;
      }
      var k := 0;
      while k < |vmas|
        invariant 0 <= k <= |vmas|
        invariant forall i :: 0 <= i < k ==> vmas[i].start <= v.start
      {
        if vmas[k].start > v.start {
          break;
        }
        k := k + 1;
      }
      ApartFromNeighbours(vmas, k, v);
      if k > 0 && !(vmas[k - 1].start < vmas[k - 1].end && vmas[k - 1].end <= v.start && v.start < v.end) {
        return false;
      }
      if k < |vmas| && !(v.start < v.end && v.end <= vmas[k].start && vmas[k].start < vmas[k].end) {
        return false;
      }
      InsertedAreas(vmas, k, v);
      InsertSorted(vmas, k, v);
      forall u | u in vmas ensures u in vmas[..k] + [v] + vmas[k..] {
        assert vmas == vmas[..k] + vmas[k..];
      }
      vmas := vmas[..k] + [v] + vmas[k..];
      mapCount := mapCount + 1;
      ok := true;
    }

    /** mm_map; `room` says whether kmalloc has a vma_struct left. */
    method Map(addr: nat, len: nat, flags: nat, room: bool) returns (r: MapResult)
      requires Valid() && addr < WORDS && len < WORDS
      modifies this
      ensures Valid()
      ensures var v := MapArea(addr, len, flags);
              && r == MapVerdict(old(vmas), v, room)
              && (r == Mapped ==> multiset(vmas) == multiset(old(vmas)) + multiset{v})
      ensures r != Mapped ==> vmas == old(vmas)
      ensures var start := addr - addr % PGSIZE;
              var last := ((addr + len) % WORDS + PGSIZE - 1) % WORDS;
              var end := last - last % PGSIZE;
              var refused := || !(USERBASE <= start < end <= USERTOP)
                             || exists u :: u in old(vmas) && u.start <= start < u.end;
              && (r == Invalid <==> refused)
              && (r == NoMemory <==> !refused && !room)
              && (r == Failed <==> !refused && room && exists u :: u in old(vmas) && start < u.start < end)
              && (r == Mapped ==> multiset(vmas) == multiset(old(vmas)) + multiset{Vma(start, end, flags)})
      ensures old(UserAreas(vmas)) ==> UserAreas(vmas)
    {
      hide RoundDown, RoundUp;
      MapSpelled(vmas, addr, len, flags, room);
      var start, end := RoundDown(addr), RoundUp((addr + len) % WORDS);
      if !UserAccess(start, end) {
        return Invalid;
      }
      LookupFinds(vmas, start);
      var found := FindVma(start);
      if found.Some? && end > found.value.start {
        return Invalid;
      }
      if !room {
        return NoMemory;
      }
      var v := Vma(start, end, flags);
      forall u | u in vmas ensures !Apart(u, v) <==> v.start < u.start < v.end {
        OverlapAhead(u, v);
      }
      var ok := InsertVma(v);
      if !ok {
        return Failed;
      }
      MapAreaAligned(addr, len, flags);
      forall u | u in vmas ensures u in old(vmas) || u == v {
        assert u in multiset(vmas);
      }
      r := Mapped;
    }
  }

  /** Two calls of mm_map: the second range begins below the area of the first and ends inside
      it, which the search for its first page does not notice. */
  method OverlapRun(root: Frame) returns (mm: Mm, r: MapResult)
    ensures r == Failed && mm.vmas == [Vma(0x40_0000, 0x40_1000, VM_READ)]
  {
    hide MapArea, Sorted;
    OverlapAreas();
    mm := new Mm(root);
    r := mm.Map(0x40_0000, 0x1000, VM_READ, true);
    assert mm.vmas == [Vma(0x40_0000, 0x40_1000, VM_READ)] by {
      OneArea(mm.vmas, Vma(0x40_0000, 0x40_1000, VM_READ));
    }
    assert mm.vmas[0] in mm.vmas;
    r := mm.Map(0x3F_F000, 0x2000, VM_READ, true);
  }

  lemma OverlapAreas()
    ensures MapArea(0x40_0000, 0x1000, VM_READ) == Vma(0x40_0000, 0x40_1000, VM_READ)
    ensures MapArea(0x3F_F000, 0x2000, VM_READ) == Vma(0x3F_F000, 0x40_1000, VM_READ)
  {
  }

  lemma OneArea(s: seq<Vma>, v: Vma)
    ensures multiset(s) == multiset([]) + multiset{v} ==> s == [v]
  {
    assert |multiset(s)| == |s|;
    if multiset(s) == multiset([]) + multiset{v} {
      assert |s| == 1 && s[0] in multiset(s);
    }
  }

  /** user_mem_check on an address space: true exactly when the range is a user range that is
      not empty and every byte of it may be accessed; with no address space, when it is a
      kernel range. The sum addr + len wraps at 64 bits. */
  method UserMemCheck(mm: Mm?, addr: nat, len: nat, write: bool) returns (r: bool)
    requires mm != null ==> mm.Valid()
    requires addr < WORDS && len < WORDS
    modifies if mm == null then {} else {mm}
    ensures mm != null ==> mm.Valid() && mm.vmas == old(mm.vmas)
    ensures var end := (addr + len) % WORDS;
            if mm == null then r == (KERNBASE <= addr < end <= KERNTOP)
            else r == (UserAccess(addr, end) && forall b :: addr <= b < end ==> ByteOk(mm.vmas, b, write))
  {
    var end := (addr + len) % WORDS;
    if mm != null {
      if !UserAccess(addr, end) {
        return false;
      }
      var start := addr;
      while start < end
        invariant addr <= start && mm.Valid() && mm.vmas == old(mm.vmas)
        invariant forall b :: addr <= b < start && b < end ==> ByteOk(mm.vmas, b, write)
        decreases end - start
      {
        LookupFinds(mm.vmas, start);
        var vma := mm.FindVma(start);
        if vma.None? || start < vma.value.start {
          assert !ByteOk(mm.vmas, start, write);
          return false;
        }
        var v := vma.value;
        ByteInArea(mm.vmas, start, v, write);
        if !HasFlag(v.flags, if write then VM_WRITE else VM_READ) {
          return false;
        }
        if write && HasFlag(v.flags, VM_STACK) {
          if start < v.start + PGSIZE {
            return false;
          }
        }
        forall b: nat | start <= b < v.end ensures ByteOk(mm.vmas, b, write) {
          ByteInArea(mm.vmas, b, v, write);
        }
        start := v.end;
      }
      return true;
    }
    r := KERNBASE <= addr && addr < end && end <= KERNTOP;
  }

  /** After areas s are duplicated, root `to` holds private copies of what `from` maps there;
      its other pages are as they were. */
  ghost predicate Duplicated(m: Memory, n: Memory, from: Frame, to: Frame, s: seq<Vma>) {
    forall lb: nat {:trigger Copied(m, n, from, to, lb)} {:trigger Kept(m, n, to, lb)} :: User(lb) ==>
      && (Covered(s, lb) ==> Copied(m, n, from, to, lb))
      && (!Covered(s, lb) || !Valid(Pte(m, from, lb)) ==> Kept(m, n, to, lb))
  }

  lemma DuplicateNone(m: Memory, lv: Levels, from: Frame, to: Frame)
    requires Ok(m, lv) && IsRoot(lv, to)
    ensures Duplicated(m, m, from, to, [])
    ensures forall q :: IsRoot(lv, q) ==> SameSpace(m, m, q)
  {
    CopyStart(m, lv, from, to, 0);
    forall lb: nat | User(lb) ensures Kept(m, m, to, lb) {
      KeptRefl(m, lv, to, lb);
    }
  }

  /** One more area copied. */
  lemma DuplicateStep(z: Memory, m: Memory, n: Memory, from: Frame, to: Frame, v: Vma, s: seq<Vma>)
    requires Duplicated(z, m, from, to, s) && CopiedRange(m, n, from, to, v.start, v.end) && SameSpace(z, m, from)
    ensures Duplicated(z, n, from, to, [v] + s)
  {
    hide Pte, Kept;
    forall lb: nat | User(lb)
      ensures Covered([v] + s, lb) ==> Copied(z, n, from, to, lb)
      ensures !Covered([v] + s, lb) || !Valid(Pte(z, from, lb)) ==> Kept(z, n, to, lb)
    {
      assert SameAt(z, m, from, lb) by { assert Pte(m, from, lb) == Pte(m, from, lb); }
      CoveredCons(v, s, lb);
      if !Valid(Pte(z, from, lb)) || !Covered([v] + s, lb) {
        KeptTrans(z, m, n, to, lb);
      } else if !Covers(v, lb) {
        KeptCopy(z, m, n, from, to, lb);
      } else {
        assert Copied(m, n, from, to, lb);
      }
    }
  }

  lemma CoveredCons(v: Vma, s: seq<Vma>, lb: nat)
    ensures Covered([v] + s, lb) <==> Covers(v, lb) || Covered(s, lb)
  {
    assert v in [v] + s;
    if Covered(s, lb) {
      var u :| u in s && Covers(u, lb);
      assert u in [v] + s;
    }
  }

  lemma SpacesTrans(z: Memory, m: Memory, n: Memory, lv: Levels, to: Frame)
    requires forall q :: IsRoot(lv, q) && q != to ==> SameSpace(z, m, q)
    requires forall q :: IsRoot(lv, q) && q != to ==> SameSpace(m, n, q)
    ensures forall q :: IsRoot(lv, q) && q != to ==> SameSpace(z, n, q)
  {
    forall q | IsRoot(lv, q) && q != to ensures SameSpace(z, n, q) {
      SpaceTrans(z, m, n, q);
    }
  }

  /** An area of the parent is apart from the areas already taken from behind it. */
  lemma ApartFromLater(s: seq<Vma>, i: nat, t: seq<Vma>)
    requires Sorted(s) && i < |s| && multiset(t) == multiset(s[i + 1..])
    ensures forall u :: u in t ==> Apart(u, s[i])
  {
    forall u | u in t ensures Apart(u, s[i]) {
      assert u in multiset(s[i + 1..]);
      var j :| 0 <= j < |s[i + 1..]| && s[i + 1..][j] == u;
      assert u == s[i + 1 + j];
    }
  }

  /** The pages root maps in the areas, from the last area to the first. */
  function AreaPages(m: Memory, root: Frame, s: seq<Vma>): seq<nat> {
    if s == [] then []
    else
      var v := s[|s| - 1];
      MappedPages(m, root, v.start / PGSIZE, v.end / PGSIZE) + AreaPages(m, root, s[..|s| - 1])
  }

  /** One area's copy takes the account from all areas to those before it. */
  lemma AreaStep(z: Memory, m: Memory, from: Frame, to: Frame, cur: seq<nat>, s: seq<Vma>, i: nat)
    requires i < |s| && SameSpace(z, m, from) && UserAreas(s)
    ensures MappedPages(m, from, s[i].start / PGSIZE, s[i].end / PGSIZE) ==
            MappedPages(z, from, s[i].start / PGSIZE, s[i].end / PGSIZE)
    ensures var ps := MappedPages(m, from, s[i].start / PGSIZE, s[i].end / PGSIZE);
            && AreaPages(z, from, s[..i + 1]) == ps + AreaPages(z, from, s[..i])
            && Verdict(z, to, cur, AreaPages(z, from, s[..i + 1])) ==
               if Verdict(z, to, cur, ps) == Done then Verdict(z, to, cur + ps, AreaPages(z, from, s[..i]))
               else Verdict(z, to, cur, ps)
  {
    hide Pte, SameSpace, Verdict, MappedPages;
    var v := s[i];
    assert s[..i + 1][..i] == s[..i] && v in s;
    forall p: nat | v.start / PGSIZE <= p < v.end / PGSIZE ensures Pte(m, from, Addr(p)) == Pte(z, from, Addr(p)) {
      PageRegions(p, p);
      SameWord(z, m, from, Addr(p));
    }
    MappedSame(z, m, from, v.start / PGSIZE, v.end / PGSIZE);
    VerdictConcat(z, to, cur, MappedPages(m, from, v.start / PGSIZE, v.end / PGSIZE), AreaPages(z, from, s[..i]));
  }

  /** Whatever else happens: the memory stays consistent and no other root's space moves. */
  ghost predicate Undisturbed(z: Memory, zlv: Levels, m: Memory, lv: Levels, to: Frame) {
    && Ok(m, lv) && KeepsRoots(zlv, lv) && Conserved(z, zlv, m, lv)
    && forall q :: IsRoot(zlv, q) && q != to ==> SameSpace(z, m, q)
  }

  /** dup_mmap on its way: areas i.. are copied, and the account says what is left. */
  ghost predicate Duplicating(z: Memory, zlv: Levels, m: Memory, lv: Levels, from: Frame, to: Frame, s: seq<Vma>,
                              i: nat,
                              cur: seq<nat>)
    requires i <= |s|
  {
    && Undisturbed(z, zlv, m, lv, to) && Duplicated(z, m, from, to, s[i..]) && Ledger(z, m, to, cur)
    && Verdict(z, to, [], AreaPages(z, from, s)) == Verdict(z, to, cur, AreaPages(z, from, s[..i]))
  }

  lemma DuplicatingStart(m: Memory, lv: Levels, from: Frame, to: Frame, s: seq<Vma>)
    requires Ok(m, lv) && IsRoot(lv, to)
    ensures Duplicating(m, lv, m, lv, from, to, s, |s|, [])
  {
    hide Duplicated, SameSpace, Ok, Conserved, Ledger, Verdict, AreaPages;
    DuplicateNone(m, lv, from, to);
    ConservedRefl(m, lv);
    LedgerStart(m, lv, to);
    assert s[|s|..] == [] && s[..|s|] == s;
  }

  /** Whatever root q maps beyond what it mapped in z lies in the areas s. */
  ghost predicate OnlyIn(z: Memory, m: Memory, q: Frame, s: seq<Vma>) {
    forall lb: nat {:trigger Pte(m, q, lb)} :: User(lb) && !Covered(s, lb) ==> Pte(m, q, lb) == Pte(z, q, lb)
  }

  lemma DuplicateStops(z: Memory, m: Memory, n: Memory, from: Frame, to: Frame, v: Vma, s: seq<Vma>)
    requires Duplicated(z, m, from, to, s) && OutsideKept(m, n, to, v.start, v.end)
    ensures OnlyIn(z, n, to, [v] + s)
  {
    hide Pte;
    forall lb: nat | User(lb) && !Covered([v] + s, lb) ensures Pte(n, to, lb) == Pte(z, to, lb) {
      CoveredCons(v, s, lb);
      assert Kept(z, m, to, lb);
      assert Pte(n, to, lb) == Pte(n, to, lb);
    }
  }

  /** The areas of s lie among those of t. */
  lemma OnlyInMore(z: Memory, m: Memory, q: Frame, s: seq<Vma>, t: seq<Vma>, a: seq<Vma>)
    requires OnlyIn(z, m, q, s) && multiset(t) == multiset(a) + multiset(s)
    ensures OnlyIn(z, m, q, t)
  {
    hide Pte;
    forall lb: nat | User(lb) && !Covered(t, lb) ensures !Covered(s, lb) {
      forall v | v in s ensures !Covers(v, lb) {
        assert v in multiset(t);
      }
    }
  }

  lemma DuplicatedOnly(z: Memory, m: Memory, from: Frame, to: Frame, s: seq<Vma>)
    requires Duplicated(z, m, from, to, s)
    ensures OnlyIn(z, m, to, s)
  {
    hide Pte;
    forall lb: nat | User(lb) && !Covered(s, lb) ensures Pte(m, to, lb) == Pte(z, to, lb) {
      assert Kept(z, m, to, lb);
    }
  }

  lemma UserAreasJoin(t: seq<Vma>, a: seq<Vma>, s: seq<Vma>)
    requires multiset(t) == multiset(a) + multiset(s) && UserAreas(a) && UserAreas(s)
    ensures UserAreas(t)
  {
    forall v | v in t ensures v in a || v in s {
      assert v in multiset(t);
    }
  }

  /** The areas dup_mmap has vma_structs for: the last `room` ones. */
  function WithRoom(s: seq<Vma>, room: nat): seq<Vma> {
    if room < |s| then s[|s| - room..] else s
  }

  /** How dup_mmap into an empty mm ends: as the account of frames says for the areas reached,
      and with the error code when those are copied and another is left. */
  function DupVerdict(m: Memory, from: Frame, to: Frame, s: seq<Vma>, room: nat): Outcome {
    var v := Verdict(m, to, [], AreaPages(m, from, WithRoom(s, room)));
    if v == Done && room < |s| then NoMem else v
  }

  lemma WithRoomUser(s: seq<Vma>, room: nat)
    requires UserAreas(s)
    ensures UserAreas(WithRoom(s, room)) && (Sorted(s) ==> Sorted(WithRoom(s, room)))
  {
    var t := WithRoom(s, room);
    forall v | v in t ensures v in s {
    }
    if Sorted(s) && room < |s| {
      forall i | 0 <= i < |t| ensures t[i] == s[|s| - room + i] {
      }
    }
  }

  /** Area j of those reached is area i of all. */
  lemma WithRoomFrom(s: seq<Vma>, room: nat, i: nat, j: nat)
    requires i <= |s| && j <= |WithRoom(s, room)| && |s| - i == |WithRoom(s, room)| - j
    ensures WithRoom(s, room)[j..] == s[i..] && (j < |WithRoom(s, room)| ==> WithRoom(s, room)[j] == s[i])
  {
  }

  lemma DupVerdictIs(m: Memory, from: Frame, to: Frame, s: seq<Vma>, room: nat)
    ensures var v := Verdict(m, to, [], AreaPages(m, from, WithRoom(s, room)));
            DupVerdict(m, from, to, s, room) == if v == Done && room < |s| then NoMem else v
    ensures |WithRoom(s, room)| == if room < |s| then room else |s|
  {
  }

  /** The copy_range call for area i. */
  method DupArea(s: AddressSpaces, from: Frame, to: Frame, v: Vma, ghost areas: seq<Vma>, ghost i: nat, ghost z: Memory,
                 ghost zlv: Levels, ghost cur: seq<nat>)
    returns (ret: Outcome, ghost next: seq<nat>)
    requires i < |areas| && v == areas[i] && UserAreas(areas) && IsRoot(zlv, from) && IsRoot(zlv, to) && from != to
    requires Duplicating(z, zlv, s.m, s.lv, from, to, areas, i + 1, cur)
    modifies s
    ensures Undisturbed(z, zlv, s.m, s.lv, to)
    ensures ret == Done ==> Duplicating(z, zlv, s.m, s.lv, from, to, areas, i, next)
    ensures ret != Done ==> ret == Verdict(z, to, [], AreaPages(z, from, areas)) && OnlyIn(z, s.m, to, areas[i..])
  {
    hide Duplicated, CopiedRange, SameSpace, Ok, Conserved, Ledger, Verdict, AreaPages, MappedPages, OnlyIn, OutsideKept;
    assert areas[i..] == [v] + areas[i + 1..];
    ghost var m, lv := s.m, s.lv;
    AreaStep(z, m, from, to, cur, areas, i);
    ret := s.CopyRange(to, from, v.start, v.end, z, cur);
    next := cur + MappedPages(m, from, v.start / PGSIZE, v.end / PGSIZE);
    SpacesTrans(z, m, s.m, zlv, to);
    ConservedTrans(z, zlv, m, lv, s.m, s.lv);
    if ret == Done {
      DuplicateStep(z, m, s.m, from, to, v, areas[i + 1..]);
    } else {
      DuplicateStops(z, m, s.m, from, to, v, areas[i + 1..]);
    }
  }

  /** dup_mmap before its turn for area i - 1; `was` are the areas of the child before the first. */
  ghost predicate DupAt(z: Memory, zlv: Levels, m: Memory, lv: Levels, from: Frame, to: Frame, s: seq<Vma>, room: nat,
                        i: nat, cur: seq<nat>, was: seq<Vma>, vmas: seq<Vma>)
    requires i <= |s|
  {
    var areas, j := WithRoom(s, room), Turn(s, room, i);
    0 <= j <= |areas| && Duplicating(z, zlv, m, lv, from, to, areas, j, cur) && Taken(was, vmas, s, i)
  }

  /** How many of the areas reached are still to be copied. */
  function Turn(s: seq<Vma>, room: nat, i: nat): int {
    if room < |s| then room - (|s| - i) else i
  }

  lemma DupStart(m: Memory, lv: Levels, from: Frame, to: Frame, s: seq<Vma>, room: nat, was: seq<Vma>)
    requires Ok(m, lv) && IsRoot(lv, to)
    ensures DupAt(m, lv, m, lv, from, to, s, room, |s|, [], was, was)
  {
    hide Duplicating, Ok, Taken;
    DuplicatingStart(m, lv, from, to, WithRoom(s, room));
    TakenNone(was, s);
  }

  /** What holds when dup_mmap stops before a turn: with no area left, or no vma_struct. */
  lemma DupStops(z: Memory, zlv: Levels, m: Memory, lv: Levels, from: Frame, to: Frame, s: seq<Vma>, room: nat,
                 i: nat, cur: seq<nat>, was: seq<Vma>, vmas: seq<Vma>)
    requires i <= |s| && DupAt(z, zlv, m, lv, from, to, s, room, i, cur, was, vmas) && UserAreas(s)
    requires Sorted(s) && Sorted(vmas)
    ensures Undisturbed(z, zlv, m, lv, to)
    ensures OnlyIn(z, m, to, vmas) && (UserAreas(was) ==> UserAreas(vmas))
    ensures i == 0 ==> multiset(vmas) == multiset(was) + multiset(s) && (was == [] ==> vmas == s)
    ensures i == 0 ==> Duplicated(z, m, from, to, s)
    ensures i == 0 || room == |s| - i ==> DupVerdict(z, from, to, s, room) == if i == 0 then Done else NoMem
  {
    hide Duplicating, Undisturbed, Sorted, Verdict, AreaPages, Duplicated, OnlyIn, UserAreas, Taken, WithRoom;
    var j := Turn(s, room, i);
    DuplicatingRest(z, zlv, m, lv, from, to, WithRoom(s, room), j, cur);
    DupVerdictIs(z, from, to, s, room);
    WithRoomFrom(s, room, i, j);
    DuplicatedOnly(z, m, from, to, s[i..]);
    StopsIn(z, m, to, s, i, vmas, was);
    if i == 0 {
      TakenAll(was, vmas, s);
    }
  }

  /** One turn of dup_mmap: area i is inserted and copied. */
  method DupOne(s: AddressSpaces, to: Mm, from: Mm, i: nat, ghost room: nat, ghost z: Memory, ghost zlv: Levels,
                ghost cur: seq<nat>, ghost was: seq<Vma>)
    returns (ret: Outcome, ghost next: seq<nat>)
    requires to != from && to.Valid() && from.Valid() && UserAreas(from.vmas) && i < |from.vmas|
    requires room > |from.vmas| - i - 1
    requires IsRoot(zlv, from.pgdir) && IsRoot(zlv, to.pgdir) && from.pgdir != to.pgdir
    requires DupAt(z, zlv, s.m, s.lv, from.pgdir, to.pgdir, from.vmas, room, i + 1, cur, was, to.vmas)
    modifies s, to`vmas, to`mapCount
    ensures Undisturbed(z, zlv, s.m, s.lv, to.pgdir) && to.Valid()
    ensures ret == Done ==> DupAt(z, zlv, s.m, s.lv, from.pgdir, to.pgdir, from.vmas, room, i, next, was, to.vmas)
    ensures ret == NoMem ==> OnlyIn(z, s.m, to.pgdir, to.vmas) && (UserAreas(was) ==> UserAreas(to.vmas))
    ensures was == [] && ret != Done ==> ret == DupVerdict(z, from.pgdir, to.pgdir, from.vmas, room)
  {
    hide Duplicating, Undisturbed, Sorted, Verdict, AreaPages, OnlyIn, UserAreas, Taken, WithRoom, DupVerdict;
    ghost var areas, j := WithRoom(from.vmas, room), Turn(from.vmas, room, i);
    WithRoomUser(from.vmas, room);
    DupVerdictIs(z, from.pgdir, to.pgdir, from.vmas, room);
    WithRoomFrom(from.vmas, room, i, j);
    DuplicatingRest(z, zlv, s.m, s.lv, from.pgdir, to.pgdir, areas, j + 1, cur);
    var v := from.vmas[i];
    RoomLeft(was, to.vmas, from.vmas, i);
    ghost var before := to.vmas;
    var ok := to.InsertVma(Vma(v.start, v.end, v.flags));
    if !ok {
      return Panic, cur;
    }
    OneMore(was, before, to.vmas, from.vmas, i);
    ret, next := DupArea(s, from.pgdir, to.pgdir, v, areas, j, z, zlv, cur);
    if ret != Done {
      StopsIn(z, s.m, to.pgdir, from.vmas, i, to.vmas, was);
    }
  }

  lemma DuplicatingRest(z: Memory, zlv: Levels, m: Memory, lv: Levels, from: Frame, to: Frame, s: seq<Vma>, i: nat,
                        cur: seq<nat>)
    requires i <= |s| && Duplicating(z, zlv, m, lv, from, to, s, i, cur)
    ensures Undisturbed(z, zlv, m, lv, to) && Duplicated(z, m, from, to, s[i..])
    ensures i == 0 ==> Verdict(z, to, [], AreaPages(z, from, s)) == Done
  {
    hide Undisturbed, Duplicated, Ledger, Verdict, AreaPages;
    NoAreas(z, from, to, cur, s);
  }

  /** dup_mmap, from the last area to the first; `room` is how many vma_structs kmalloc can
      still supply. On success the child's list has the parent's areas beside its own, and
      each is a private copy; no other address space changes at any outcome. Into an empty
      list the outcome is DupVerdict. */
  method DupMmap(s: AddressSpaces, to: Mm, from: Mm, room: nat) returns (out: Outcome)
    requires Ok(s.m, s.lv) && to != from && to.Valid() && from.Valid() && UserAreas(from.vmas)
    requires IsRoot(s.lv, to.pgdir) && IsRoot(s.lv, from.pgdir) && to.pgdir != from.pgdir
    modifies s, to`vmas, to`mapCount
    ensures Ok(s.m, s.lv) && to.Valid() && KeepsRoots(old(s.lv), s.lv) && Conserved(old(s.m), old(s.lv), s.m, s.lv)
    ensures forall q :: IsRoot(old(s.lv), q) && q != to.pgdir ==> SameSpace(old(s.m), s.m, q)
    ensures out == Done ==> multiset(to.vmas) == multiset(old(to.vmas)) + multiset(from.vmas)
    ensures out == Done && old(to.vmas) == [] ==> to.vmas == from.vmas
    ensures out == Done ==> Duplicated(old(s.m), s.m, from.pgdir, to.pgdir, from.vmas)
    ensures old(to.vmas) == [] ==> out == DupVerdict(old(s.m), from.pgdir, to.pgdir, from.vmas, room)
    ensures out == NoMem ==>
              OnlyIn(old(s.m), s.m, to.pgdir, to.vmas) && (old(UserAreas(to.vmas)) ==> UserAreas(to.vmas))
  {
    hide DupAt, Undisturbed, Sorted, Duplicated, SameSpace, Ok, Conserved, OnlyIn, UserAreas, DupVerdict, KeepsRoots;
    ghost var z, zlv := s.m, s.lv;
    DupStart(z, zlv, from.pgdir, to.pgdir, from.vmas, room, to.vmas);
    var i := |from.vmas|;
    var left := room;
    ghost var cur: seq<nat> := [];
    while i > 0
      invariant 0 <= i <= |from.vmas| && left == room - (|from.vmas| - i) && to.Valid()
      invariant DupAt(z, zlv, s.m, s.lv, from.pgdir, to.pgdir, from.vmas, room, i, cur, old(to.vmas), to.vmas)
    {
      if left == 0 {
        DupStops(z, zlv, s.m, s.lv, from.pgdir, to.pgdir, from.vmas, room, i, cur, old(to.vmas), to.vmas);
        UndisturbedIs(z, zlv, s.m, s.lv, to.pgdir);
        return NoMem;
      }
      i, left := i - 1, left - 1;
      out, cur := DupOne(s, to, from, i, room, z, zlv, cur, old(to.vmas));
      if out != Done {
        UndisturbedIs(z, zlv, s.m, s.lv, to.pgdir);
        return;
      }
    }
    DupStops(z, zlv, s.m, s.lv, from.pgdir, to.pgdir, from.vmas, room, 0, cur, old(to.vmas), to.vmas);
    UndisturbedIs(z, zlv, s.m, s.lv, to.pgdir);
    out := Done;
  }

  /** t holds the areas of a and those of s from i on. */
  ghost predicate Taken(a: seq<Vma>, t: seq<Vma>, s: seq<Vma>, i: nat)
    requires i <= |s|
  {
    multiset(t) == multiset(a) + multiset(s[i..])
  }

  lemma TakenNone(t: seq<Vma>, s: seq<Vma>)
    ensures Taken(t, t, s, |s|)
  {
    assert s[|s|..] == [];
  }

  lemma TakenAll(a: seq<Vma>, t: seq<Vma>, s: seq<Vma>)
    requires Taken(a, t, s, 0) && Sorted(t) && Sorted(s)
    ensures multiset(t) == multiset(a) + multiset(s) && s[0..] == s && (a == [] ==> t == s)
  {
    hide Sorted;
    assert s[0..] == s;
    if a == [] {
      SortedUnique(t, s);
    }
  }

  lemma RoomLeft(a: seq<Vma>, t: seq<Vma>, s: seq<Vma>, i: nat)
    requires i < |s| && Taken(a, t, s, i + 1) && Sorted(s)
    ensures a == [] ==> s[i].start < s[i].end && forall u :: u in t ==> Apart(u, s[i])
  {
    hide Sorted;
    if a == [] {
      ApartFromLater(s, i, t);
      NotEmpty(s, i);
    }
  }

  lemma StopsIn(z: Memory, m: Memory, q: Frame, s: seq<Vma>, i: nat, t: seq<Vma>, a: seq<Vma>)
    requires i <= |s| && UserAreas(s) && OnlyIn(z, m, q, s[i..]) && Taken(a, t, s, i)
    ensures OnlyIn(z, m, q, t) && (UserAreas(a) ==> UserAreas(t))
  {
    hide OnlyIn;
    OnlyInMore(z, m, q, s[i..], t, a);
    assert UserAreas(s[i..]) by {
      forall v | v in s[i..] ensures v in s {
      }
    }
    if UserAreas(a) {
      UserAreasJoin(t, a, s[i..]);
    }
  }

  lemma OneMore(a: seq<Vma>, t: seq<Vma>, u: seq<Vma>, s: seq<Vma>, i: nat)
    requires i < |s| && Taken(a, t, s, i + 1) && multiset(u) == multiset(t) + multiset{s[i]}
    ensures Taken(a, u, s, i)
  {
    assert s[i..] == [s[i]] + s[i + 1..];
  }

  lemma NotEmpty(s: seq<Vma>, i: nat)
    requires Sorted(s) && i < |s|
    ensures s[i].start < s[i].end
  {
  }

  lemma UndisturbedIs(z: Memory, zlv: Levels, m: Memory, lv: Levels, to: Frame)
    requires Undisturbed(z, zlv, m, lv, to)
    ensures Ok(m, lv) && KeepsRoots(zlv, lv) && Conserved(z, zlv, m, lv)
    ensures forall q :: IsRoot(zlv, q) && q != to ==> SameSpace(z, m, q)
  {
  }

  lemma NoAreas(m: Memory, from: Frame, to: Frame, cur: seq<nat>, s: seq<Vma>)
    ensures Verdict(m, to, cur, AreaPages(m, from, s[..0])) == Done
  {
  }

  /** Root `to` holds private copies of what `from` maps in the areas, and nothing else. */
  ghost predicate Forked(m: Memory, n: Memory, from: Frame, to: Frame, s: seq<Vma>) {
    forall lb: nat {:trigger Copied(m, n, from, to, lb)} {:trigger Pte(n, to, lb)} :: User(lb) ==>
      if Covered(s, lb) && Valid(Pte(m, from, lb)) then Copied(m, n, from, to, lb) else Pte(n, to, lb) == 0
  }

  /** Copying into a root that mapped nothing. */
  lemma ForkedFrom(z: Memory, zlv: Levels, m: Memory, n: Memory, from: Frame, to: Frame, s: seq<Vma>)
    requires Duplicated(m, n, from, to, s) && KeepsWalks(z, zlv, m) && IsRoot(zlv, from) && m.data == z.data
    requires FreshRoot(m, to)
    ensures Forked(z, n, from, to, s)
  {
    hide Pte, HasDir;
    forall lb: nat | User(lb)
      ensures if Covered(s, lb) && Valid(Pte(z, from, lb)) then Copied(z, n, from, to, lb) else Pte(n, to, lb) == 0
    {
      assert Pte(m, from, lb) == Pte(z, from, lb);
      if Covered(s, lb) && Valid(Pte(z, from, lb)) {
        assert Copied(m, n, from, to, lb);
      } else {
        assert Kept(m, n, to, lb);
        assert Pte(m, to, lb) == 0;
      }
    }
  }

  // ----- the price of a fork -----

  /** Frames that copying the areas into a new address space takes. */
  function ForkFrames(m: Memory, root: Frame, s: seq<Vma>): nat {
    FreshFrames(AreaPages(m, root, s))
  }

  lemma {:induction false} AreaSame(z: Memory, m: Memory, root: Frame, s: seq<Vma>)
    requires SameSpace(z, m, root) && UserAreas(s)
    ensures AreaPages(m, root, s) == AreaPages(z, root, s)
  {
    hide Pte, SameSpace, Verdict, MappedPages;
    if s != [] {
      var r := s[..|s| - 1];
      assert forall v :: v in r ==> v in s;
      AreaSame(z, m, root, r);
      AreaStep(z, m, root, root, [], s, |s| - 1);
    }
  }

  lemma AreaBounds(v: Vma, p: nat)
    requires UserAccess(v.start, v.end) && v.start % PGSIZE == 0 && v.end % PGSIZE == 0
    ensures v.start / PGSIZE <= p < v.end / PGSIZE <==> Covers(v, Addr(p))
    ensures Covers(v, Addr(p)) ==> p < USER_PAGES
  {
  }

  /** The pages of a fork: those the parent maps inside its areas. */
  lemma {:induction false} AreaMember(m: Memory, root: Frame, s: seq<Vma>, p: nat)
    requires UserAreas(s)
    ensures p in AreaPages(m, root, s) <==> Covered(s, Addr(p)) && Valid(Pte(m, root, Addr(p)))
    ensures p in AreaPages(m, root, s) ==> p < USER_PAGES
  {
    hide Pte, MappedPages;
    if s != [] {
      var r, v := s[..|s| - 1], s[|s| - 1];
      assert s == r + [v] && forall u :: u in r ==> u in s;
      AreaMember(m, root, r, p);
      MappedMember(m, root, v.start / PGSIZE, v.end / PGSIZE, p);
      AreaBounds(v, p);
      CoveredSnoc(r, v, Addr(p));
    }
  }

  lemma {:induction false} AreaDistinct(m: Memory, root: Frame, s: seq<Vma>)
    requires UserAreas(s) && Sorted(s)
    ensures Distinct(AreaPages(m, root, s))
  {
    hide Pte, MappedPages;
    if s != [] {
      var r, v := s[..|s| - 1], s[|s| - 1];
      assert s == r + [v] && forall u :: u in r ==> u in s;
      AreaDistinct(m, root, r);
      MappedDistinct(m, root, v.start / PGSIZE, v.end / PGSIZE);
      var a, b := MappedPages(m, root, v.start / PGSIZE, v.end / PGSIZE), AreaPages(m, root, r);
      forall p | p in a ensures p !in b {
        MappedMember(m, root, v.start / PGSIZE, v.end / PGSIZE, p);
        AreaMember(m, root, r, p);
        AreaBounds(v, p);
        assert Covers(v, Addr(p)) ==> !Covered(r, Addr(p)) by { LastApart(s, Addr(p)); }
      }
      DistinctConcat(a, b);
    }
  }

  lemma LastApart(s: seq<Vma>, addr: nat)
    requires Sorted(s) && s != [] && Covers(s[|s| - 1], addr)
    ensures !Covered(s[..|s| - 1], addr)
  {
    var r := s[..|s| - 1];
    forall u | u in r ensures !Covers(u, addr) {
      var i :| 0 <= i < |r| && r[i] == u;
      assert s[i].end <= s[|s| - 1].start;
    }
  }

  /** How copying areas into an address space that maps nothing ends, with `free` frames left
      and vma_structs for `room` areas: done when there are frames for all pages and tables;
      the failed assertion when some page, with all before it, is short of just itself; the
      error code otherwise, and when an area is left without a vma_struct. */
  ghost function CopyOutcome(m: Memory, from: Frame, s: seq<Vma>, room: nat, free: nat): Outcome {
    var ps := AreaPages(m, from, WithRoom(s, room));
    if free >= FreshFrames(ps) then (if room < |s| then NoMem else Done)
    else if exists k :: 0 < k <= |ps| && free + 1 == FreshFrames(ps[..k]) then Panic
    else NoMem
  }

  /** Into an address space that maps nothing, what counts is the number of frames. */
  lemma ForkVerdict(z: Memory, g: Memory, from: Frame, to: Frame, s: seq<Vma>, room: nat)
    requires SameSpace(z, g, from) && UserAreas(s) && Sorted(s) && FreshRoot(g, to)
    ensures DupVerdict(g, from, to, s, room) == CopyOutcome(z, from, s, room, |g.free|)
  {
    hide FreshRoot, SameSpace, AreaPages, Verdict, Sorted, FreshFrames, WithRoom;
    var t := WithRoom(s, room);
    WithRoomUser(s, room);
    AreaSame(z, g, from, t);
    var ps := AreaPages(g, from, t);
    AreaDistinct(g, from, t);
    forall p | p in ps ensures p < USER_PAGES {
      AreaMember(g, from, t, p);
    }
    VerdictFresh(g, to, ps);
  }

  lemma SameSpaces(m: Memory, lv: Levels)
    requires Ok(m, lv)
    ensures forall q :: IsRoot(lv, q) ==> SameSpace(m, m, q)
  {
    forall q | IsRoot(lv, q) ensures SameSpace(m, m, q) {
      CopyStart(m, lv, q, q, 0);
    }
  }

  lemma RootSpaces(m: Memory, lv: Levels, n: Memory)
    requires Ok(m, lv) && KeepsWalks(m, lv, n) && n.data == m.data
    ensures forall q :: IsRoot(lv, q) ==> SameSpace(m, n, q)
  {
    hide Pte, Structure, Counted;
    forall q | IsRoot(lv, q) ensures SameSpace(m, n, q) {
      forall lb: nat | User(lb) ensures SameAt(m, n, q, lb) {
        PageOf(m, lv, q, lb);
        assert Pte(n, q, lb) == Pte(m, q, lb);
      }
    }
  }

  // ----- exit_mmap -----

  /** The pages of the areas are unmapped in root; every other page is as it was. */
  ghost predicate UnmappedAreas(m: Memory, lv: Levels, n: Memory, root: Frame, s: seq<Vma>) {
    forall q: Frame, lb: nat {:trigger Pte(n, q, lb)} :: IsRoot(lv, q) && User(lb) ==>
      && (q == root && Covered(s, lb) ==> Unmapped(m, n, q, lb))
      && (!(q == root && Covered(s, lb)) ==> Pte(n, q, lb) == Pte(m, q, lb))
  }

  lemma UnmapArea(z: Memory, m: Memory, lv: Levels, n: Memory, root: Frame, s: seq<Vma>, v: Vma)
    requires UnmappedAreas(z, lv, m, root, s) && UnmappedRange(m, lv, n, root, v.start, v.end)
    ensures UnmappedAreas(z, lv, n, root, s + [v])
  {
    hide Pte, Walk;
    forall q: Frame, lb: nat | IsRoot(lv, q) && User(lb)
      ensures q == root && Covered(s + [v], lb) ==> Unmapped(z, n, q, lb)
      ensures !(q == root && Covered(s + [v], lb)) ==> Pte(n, q, lb) == Pte(z, q, lb)
    {
      CoveredSnoc(s, v, lb);
      assert Pte(m, q, lb) == Pte(m, q, lb) && Pte(n, q, lb) == Pte(n, q, lb);
    }
  }

  lemma CoveredSnoc(s: seq<Vma>, v: Vma, lb: nat)
    ensures Covered(s + [v], lb) <==> Covered(s, lb) || Covers(v, lb)
  {
    assert v in s + [v];
    if Covered(s, lb) {
      var u :| u in s && Covers(u, lb);
      assert u in s + [v];
    }
  }

  lemma UnmappedStart(m: Memory, lv: Levels, root: Frame)
    requires Ok(m, lv)
    ensures UnmappedAreas(m, lv, m, root, []) && FreedExactly(m, lv, m)
  {
    hide Pte, Walk;
    RemoveNothing(m, lv);
    forall lb: nat ensures !Covered([], lb) {
    }
  }

  /** The unmapping loop of exit_mmap. */
  method ExitMmap(s: AddressSpaces, mm: Mm)
    requires Ok(s.m, s.lv) && IsRoot(s.lv, mm.pgdir) && UserAreas(mm.vmas)
    modifies s
    ensures Ok(s.m, s.lv) && s.lv == old(s.lv) && s.m.data == old(s.m).data
    ensures UnmappedAreas(old(s.m), s.lv, s.m, mm.pgdir, mm.vmas)
    ensures Conserved(old(s.m), s.lv, s.m, s.lv) && FreedExactly(old(s.m), s.lv, s.m) && SameDirs(old(s.m), s.m, s.lv)
  {
    hide Structure, Counted, Namers, Pte, Walk, FreedExactly, UnmappedAreas, UnmappedRange, Held, SameDirs;
    SameDirsRefl(s.m, s.lv);
    UnmappedStart(s.m, s.lv, mm.pgdir);
    var i := 0;
    while i < |mm.vmas|
      invariant 0 <= i <= |mm.vmas|
      invariant Ok(s.m, s.lv) && s.lv == old(s.lv) && s.m.data == old(s.m).data
      invariant UnmappedAreas(old(s.m), s.lv, s.m, mm.pgdir, mm.vmas[..i])
      invariant Conserved(old(s.m), s.lv, s.m, s.lv) && FreedExactly(old(s.m), s.lv, s.m)
      invariant SameDirs(old(s.m), s.m, s.lv)
    {
      ghost var m := s.m;
      var v := mm.vmas[i];
      s.UnmapRange(mm.pgdir, v.start, v.end);
      FreedExactlyTrans(old(s.m), s.lv, m, s.m);
      SameDirsTrans(old(s.m), m, s.m, s.lv);
      UnmapArea(old(s.m), m, s.lv, s.m, mm.pgdir, mm.vmas[..i], v);
      assert mm.vmas[..i + 1] == mm.vmas[..i] + [v];
      i := i + 1;
    }
    assert mm.vmas[..|mm.vmas|] == mm.vmas;
  }

  lemma UnmappedSpaces(m: Memory, lv: Levels, n: Memory, root: Frame, s: seq<Vma>)
    requires Ok(m, lv) && UnmappedAreas(m, lv, n, root, s) && n.data == m.data
    ensures forall q :: IsRoot(lv, q) && q != root ==> SameSpace(m, n, q)
  {
    hide Pte, Structure, Counted;
    forall q | IsRoot(lv, q) && q != root ensures SameSpace(m, n, q) {
      forall lb: nat | User(lb) ensures SameAt(m, n, q, lb) {
        PageOf(m, lv, q, lb);
        assert Pte(n, q, lb) == Pte(n, q, lb);
      }
    }
  }
}
