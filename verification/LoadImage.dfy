/** The image of an ELF segment in user memory, and what mapping one page more or writing on
    in the last page does to it: the reasoning behind module Loader. */
module LoadImage {
  import opened Sv39
  import opened PageTable
  import opened PageMap
  import opened PageCopy
  import opened PageBudget
  import opened Vmm

  /** memcpy or memset into a page. */
  function Patched(page: seq<nat>, off: nat, bytes: seq<nat>): (p: seq<nat>)
    requires off + |bytes| <= |page|
    ensures |p| == |page|
    ensures forall i :: 0 <= i < |p| ==> p[i] == if off <= i < off + |bytes| then bytes[i - off] else page[i]
  {
    page[..off] + bytes + page[off + |bytes|..]
  }

  /** Byte b of the address space is x, on a user page with these permissions. */
  predicate Holds(m: Memory, root: Frame, b: nat, x: nat, perm: nat) {
    var p := Pte(m, root, b);
    Valid(p) && Flags(p) == perm && HasBytes(m, Ppn(p)) && m.data[Ppn(p)][b % PGSIZE] == x
  }

  lemma HoldsSame(m: Memory, n: Memory, root: Frame, b: nat, x: nat, perm: nat)
    requires Holds(m, root, b, x, perm) && SameAt(m, n, root, b)
    ensures Holds(n, root, b, x, perm)
  {
  }

  predicate HoldsAt(m: Memory, root: Frame, va: nat, b: nat, image: seq<nat>, perm: nat)
    requires va <= b < va + |image|
  {
    Holds(m, root, b, image[b - va], perm)
  }

  /** Bytes va .. start of the image are in place. */
  ghost predicate Placed(m: Memory, root: Frame, va: nat, start: nat, image: seq<nat>, perm: nat)
    requires start <= va + |image|
  {
    forall b: nat {:trigger HoldsAt(m, root, va, b, image, perm)} :: va <= b < start ==> HoldsAt(m, root, va, b, image, perm)
  }

  /** Nothing moved but the pages of [lo, hi) in root. */
  ghost predicate Elsewhere(z: Memory, lv: Levels, m: Memory, root: Frame, lo: nat, hi: nat) {
    forall q: Frame, lb: nat {:trigger SameAt(z, m, q, lb)} :: IsRoot(lv, q) && User(lb) && !(q == root && lo <= lb < hi) ==>
      SameAt(z, m, q, lb)
  }

  /** The page just below la is mapped to a frame of its own. */
  predicate LastPage(m: Memory, root: Frame, la: nat, page: Frame, perm: nat) {
    && la >= PGSIZE && perm < 1024 && Pte(m, root, la - PGSIZE) == PteCreate(page, perm)
    && page in m.refs && m.refs[page] == 1 && HasBytes(m, page)
  }

  // ----- one page -----

  /** n is m with frame f, free before, mapped at la and holding `bytes`. */
  ghost predicate PageAdded(m: Memory, lv: Levels, n: Memory, root: Frame, la: nat, f: Frame, bytes: seq<nat>,
                            perm: nat)
    requires perm < 1024
  {
    && PtesInserted(m, lv, n, root, la, PteCreate(f, perm))
    && f in m.free && HasBytes(m, f) && n.data == m.data[f := bytes] && |bytes| == PGSIZE
  }

  lemma AddedElsewhere(m: Memory, lv: Levels, n: Memory, root: Frame, la: nat, f: Frame, bytes: seq<nat>,
                       perm: nat, q: Frame, lb: nat)
    requires Ok(m, lv) && perm < 1024 && PageAdded(m, lv, n, root, la, f, bytes, perm)
    requires IsRoot(lv, q) && User(lb) && !(q == root && Page(lb) == Page(la))
    ensures SameAt(m, n, q, lb)
  {
    hide Pte, Structure, Counted;
    PageOf(m, lv, q, lb);
    assert Pte(n, q, lb) == Pte(m, q, lb);
  }

  /** A new page with the next stretch of the image in it. */
  lemma AddedPlaced(m: Memory, lv: Levels, n: Memory, root: Frame, la: nat, f: Frame, bytes: seq<nat>, perm: nat,
                    va: nat, start: nat, size: nat, image: seq<nat>)
    requires Ok(m, lv) && perm < 1024 && perm % 2 == 1 && PageAdded(m, lv, n, root, la, f, bytes, perm)
    requires IsRoot(lv, root) && la % PGSIZE == 0 && la + PGSIZE <= USERTOP && la <= start
    requires start + size <= va + |image| && va <= start && (start == va || start == la) && start - la + size <= PGSIZE
    requires HasBytes(m, f)
    requires bytes == Patched(m.data[f], start - la, image[start - va..start - va + size])
    requires Placed(m, root, va, start, image, perm)
    ensures Placed(n, root, va, start + size, image, perm)
  {
    hide Pte, Structure, Counted, Holds, PageAdded;
    forall b: nat | va <= b < start + size ensures HoldsAt(n, root, va, b, image, perm) {
      if b < start {
        PageSpan(la, b);
        AddedElsewhere(m, lv, n, root, la, f, bytes, perm, root, b);
        assert HoldsAt(m, root, va, b, image, perm);
        HoldsSame(m, n, root, b, image[b - va], perm);
      } else {
        AddedByte(m, lv, n, root, la, f, bytes, perm, b);
        assert bytes[b - la] == image[start - va..start - va + size][b - start];
      }
    }
  }

  lemma AddedByte(m: Memory, lv: Levels, n: Memory, root: Frame, la: nat, f: Frame, bytes: seq<nat>, perm: nat, b: nat)
    requires perm < 1024 && perm % 2 == 1 && PageAdded(m, lv, n, root, la, f, bytes, perm) && IsRoot(lv, root)
    requires la % PGSIZE == 0 && la <= b < la + PGSIZE && la + PGSIZE <= USERTOP
    ensures Holds(n, root, b, bytes[b - la], perm)
  {
    hide Pte;
    PageSpan(la, b);
    assert Pte(n, root, b) == PteCreate(f, perm);
    assert b % PGSIZE == b - la;
  }

  // ----- writing on in the last page -----

  /** n is m with other bytes in the frame of the last page. */
  predicate PagePatched(m: Memory, n: Memory, page: Frame, bytes: seq<nat>) {
    n.tables == m.tables && HasBytes(m, page) && |bytes| == PGSIZE && n.data == m.data[page := bytes]
  }

  lemma PatchedElsewhere(m: Memory, lv: Levels, n: Memory, root: Frame, la: nat, page: Frame, bytes: seq<nat>,
                         perm: nat, q: Frame, lb: nat)
    requires Ok(m, lv) && PagePatched(m, n, page, bytes) && perm < 1024 && LastPage(m, root, la, page, perm)
    requires perm % 2 == 1
    requires IsRoot(lv, root) && IsRoot(lv, q) && User(lb) && User(la - PGSIZE)
    requires !(q == root && Page(lb) == Page(la - PGSIZE))
    ensures SameAt(m, n, q, lb)
  {
    hide Pte, Structure, Counted;
    SameTables(m, n);
    PageOf(m, lv, q, lb);
    if Valid(Pte(m, q, lb)) && Ppn(Pte(m, q, lb)) == page {
      SoleOwner(m, lv, root, la - PGSIZE, q, lb);
    }
  }

  lemma PatchedPlaced(m: Memory, lv: Levels, n: Memory, root: Frame, la: nat, page: Frame, bytes: seq<nat>, perm: nat,
                      va: nat, start: nat, size: nat, image: seq<nat>)
    requires Ok(m, lv) && PagePatched(m, n, page, bytes) && perm < 1024 && perm % 2 == 1
    requires LastPage(m, root, la, page, perm)
    requires IsRoot(lv, root) && la % PGSIZE == 0 && PGSIZE <= la <= USERTOP
    requires start + size <= va + |image| && va <= start && la - PGSIZE <= start && start + size <= la
    requires bytes == Patched(m.data[page], start + PGSIZE - la, image[start - va..start - va + size])
    requires Placed(m, root, va, start, image, perm)
    ensures Placed(n, root, va, start + size, image, perm)
  {
    hide Pte, Structure, Counted;
    SameTables(m, n);
    forall b: nat | va <= b < start + size ensures HoldsAt(n, root, va, b, image, perm) {
      PageSpan(la - PGSIZE, b);
      assert b < start ==> HoldsAt(m, root, va, b, image, perm);
      if b < la - PGSIZE {
        PatchedElsewhere(m, lv, n, root, la, page, bytes, perm, root, b);
      } else {
        SamePageSameWalk(m, root, la - PGSIZE, b);
        assert b % PGSIZE == b - (la - PGSIZE);
        assert b >= start ==> bytes[b % PGSIZE] == image[start - va..start - va + size][b - start];
      }
    }
  }

  // ----- the loops -----

  /** The state of the loops: the image is in place below start, pages are mapped up to la,
      the last of them is `page`, and nothing else moved since z. */
  ghost predicate Progress(z: Memory, zlv: Levels, m: Memory, lv: Levels, root: Frame,
                           va: nat, start: nat, la: nat, page: Frame, image: seq<nat>, perm: nat)
  {
    && Ok(m, lv) && KeepsRoots(zlv, lv) && IsRoot(lv, root) && perm < 1024 && perm % 2 == 1
    && la % PGSIZE == 0 && va <= start <= va + |image| && RoundDown(va) <= la <= USERTOP
    && (if la == RoundDown(va) then start == va else start <= la < start + PGSIZE && LastPage(m, root, la, page, perm))
    && Placed(m, root, va, start, image, perm)
    && Elsewhere(z, zlv, m, root, RoundDown(va), la)
  }

  lemma ProgressStart(m: Memory, lv: Levels, root: Frame, va: nat, page: Frame, image: seq<nat>, perm: nat)
    requires Ok(m, lv) && IsRoot(lv, root) && perm < 1024 && perm % 2 == 1 && va <= USERTOP
    ensures Progress(m, lv, m, lv, root, va, va, RoundDown(va), page, image, perm)
  {
    SameSpaces(m, lv);
    forall q: Frame, lb: nat | IsRoot(lv, q) && User(lb) ensures SameAt(m, m, q, lb) {
      PageOf(m, lv, q, lb);
    }
  }

  lemma ElsewhereTrans(z: Memory, zlv: Levels, m: Memory, lv: Levels, n: Memory, root: Frame, lo: nat, at: nat, hi: nat)
    requires Elsewhere(z, zlv, m, root, lo, at) && KeepsRoots(zlv, lv) && lo <= at <= hi
    requires Elsewhere(m, lv, n, root, lo, hi)
    ensures Elsewhere(z, zlv, n, root, lo, hi)
  {
    forall q: Frame, lb: nat | IsRoot(zlv, q) && User(lb) && !(q == root && lo <= lb < hi) ensures SameAt(z, n, q, lb) {
      assert SameAt(z, m, q, lb);
      assert IsRoot(lv, q);
      assert SameAt(m, n, q, lb);
    }
  }

  lemma ProgressAdd(z: Memory, zlv: Levels, m: Memory, lv: Levels, n: Memory, nlv: Levels, root: Frame,
                    va: nat, start: nat, la: nat, page: Frame, image: seq<nat>, perm: nat, f: Frame, size: nat, bytes: seq<nat>)
    requires Progress(z, zlv, m, lv, root, va, start, la, page, image, perm)
    requires la <= start && la + PGSIZE <= USERTOP && 0 < size && start - la + size <= PGSIZE
    requires start + size <= va + |image|
    requires HasBytes(m, f) && bytes == Patched(m.data[f], start - la, image[start - va..start - va + size])
    requires PageAdded(m, lv, n, root, la, f, bytes, perm) && Ok(n, nlv) && KeepsRoots(lv, nlv) && f in n.refs
    requires n.refs[f] == 1
    ensures Progress(z, zlv, n, nlv, root, va, start + size, la + PGSIZE, f, image, perm)
  {
    hide Structure, Counted, Placed, Elsewhere, Pte, HasBytes, PageAdded;
    AddedPlaced(m, lv, n, root, la, f, bytes, perm, va, start, size, image);
    AddedLast(m, lv, n, root, la, f, bytes, perm, RoundDown(va));
    ElsewhereTrans(z, zlv, m, lv, n, root, RoundDown(va), la, la + PGSIZE);
  }

  lemma AddedLast(m: Memory, lv: Levels, n: Memory, root: Frame, la: nat, f: Frame, bytes: seq<nat>, perm: nat, lo: nat)
    requires Ok(m, lv) && perm < 1024 && PageAdded(m, lv, n, root, la, f, bytes, perm) && IsRoot(lv, root)
    requires la % PGSIZE == 0 && la + PGSIZE <= USERTOP && lo <= la
    ensures Pte(n, root, la) == PteCreate(f, perm) && HasBytes(n, f)
    ensures Elsewhere(m, lv, n, root, lo, la + PGSIZE)
  {
    hide Pte, Structure, Counted;
    forall q: Frame, lb: nat | IsRoot(lv, q) && User(lb) && !(q == root && lo <= lb < la + PGSIZE)
      ensures SameAt(m, n, q, lb)
    {
      PageSpan(la, lb);
      AddedElsewhere(m, lv, n, root, la, f, bytes, perm, q, lb);
    }
  }

  lemma ProgressPatch(z: Memory, zlv: Levels, m: Memory, lv: Levels, n: Memory, root: Frame,
                      va: nat, start: nat, la: nat, page: Frame, image: seq<nat>, perm: nat, size: nat, bytes: seq<nat>)
    requires Progress(z, zlv, m, lv, root, va, start, la, page, image, perm) && Ok(n, lv) && n.refs == m.refs
    requires start < la && start + size <= la && start + size <= va + |image| && HasBytes(m, page)
    requires la - PGSIZE <= start && (start + size == la || start + size == va + |image|)
    requires bytes == Patched(m.data[page], start + PGSIZE - la, image[start - va..start - va + size])
    requires PagePatched(m, n, page, bytes)
    ensures Progress(z, zlv, n, lv, root, va, start + size, la, page, image, perm)
  {
    hide Structure, Counted, Placed, Elsewhere, Pte;
    PatchedPlaced(m, lv, n, root, la, page, bytes, perm, va, start, size, image);
    PatchedRest(m, lv, n, root, la, page, bytes, perm, RoundDown(va));
    SameTables(m, n);
    ElsewhereTrans(z, zlv, m, lv, n, root, RoundDown(va), la, la);
  }

  lemma PatchedRest(m: Memory, lv: Levels, n: Memory, root: Frame, la: nat, page: Frame, bytes: seq<nat>,
                    perm: nat, lo: nat)
    requires Ok(m, lv) && PagePatched(m, n, page, bytes) && perm < 1024 && LastPage(m, root, la, page, perm)
    requires perm % 2 == 1
    requires IsRoot(lv, root) && la % PGSIZE == 0 && la <= USERTOP && lo <= la - PGSIZE
    ensures Elsewhere(m, lv, n, root, lo, la)
  {
    hide Pte, Structure, Counted;
    forall q: Frame, lb: nat | IsRoot(lv, q) && User(lb) && !(q == root && lo <= lb < la)
      ensures SameAt(m, n, q, lb)
    {
      PageSpan(la - PGSIZE, lb);
      PatchedElsewhere(m, lv, n, root, la, page, bytes, perm, q, lb);
    }
  }

  lemma AddedBy(m: Memory, lv: Levels, g: Memory, n: Memory, root: Frame, la: nat, f: Frame, perm: nat, bytes: seq<nat>)
    requires perm < 1024 && PtesInserted(m, lv, g, root, la, PteCreate(f, perm)) && f in m.free && g.data == m.data
    requires HasBytes(g, f) && |bytes| == PGSIZE && n == g.(data := g.data[f := bytes])
    ensures PageAdded(m, lv, n, root, la, f, bytes, perm)
  {
    hide Pte, Walk;
    SameTables(g, n);
    forall q, lb | IsRoot(lv, q) && User(lb)
      ensures Pte(n, q, lb) == Pte(g, q, lb) && Walk(n, q, lb) == Walk(g, q, lb)
    {
    }
  }

  lemma ElsewhereWiden(z: Memory, lv: Levels, m: Memory, root: Frame, lo: nat, at: nat, hi: nat)
    requires Elsewhere(z, lv, m, root, lo, at) && at <= hi
    ensures Elsewhere(z, lv, m, root, lo, hi)
  {
  }

  lemma ProgressFacts(z: Memory, zlv: Levels, m: Memory, lv: Levels, root: Frame,
                      va: nat, start: nat, la: nat, page: Frame, image: seq<nat>, perm: nat)
    requires Progress(z, zlv, m, lv, root, va, start, la, page, image, perm)
    ensures Ok(m, lv) && KeepsRoots(zlv, lv) && IsRoot(lv, root) && la % PGSIZE == 0 && la <= USERTOP
    ensures start < la ==> la - PGSIZE < start && HasBytes(m, page)
    ensures la <= start ==> start - la < PGSIZE && (start == va || start == la)
    ensures Placed(m, root, va, start, image, perm) && Elsewhere(z, zlv, m, root, RoundDown(va), la)
    ensures if la == RoundDown(va) then start == va else la - PGSIZE < start <= la
  {
  }

  /** The size of the next stretch: to the end of the page or of the segment. */
  lemma StretchFits(start: nat, la: nat, end: nat)
    requires start < end && la % PGSIZE == 0
    ensures la <= start < la + PGSIZE ==>
              var size := PGSIZE - (start - la) - (if end < la + PGSIZE then la + PGSIZE - end else 0);
              0 < size && start + size <= end && start - la + size <= PGSIZE
              && (start + size < end ==> start + size == la + PGSIZE)
    ensures la - PGSIZE < start < la ==>
              var size := PGSIZE - (start + PGSIZE - la) - (if end < la then la - end else 0);
              0 < size && start + size <= end && start + size <= la && (start + size == end || start + size == la)
  {
  }

  /** The number of the page after the last byte before `end`. */
  function PageCeil(end: nat): (p: nat)
    ensures end <= p * PGSIZE < end + PGSIZE
  {
    (end + PGSIZE - 1) / PGSIZE
  }

  lemma PageRangeNext(la: nat, hi: nat)
    requires la % PGSIZE == 0
    ensures la / PGSIZE * PGSIZE == la && (la + PGSIZE) / PGSIZE == la / PGSIZE + 1
    ensures la / PGSIZE < hi ==>
              var ps := PageRange(la / PGSIZE, hi);
              ps != [] && ps[0] == la / PGSIZE && ps[1..] == PageRange((la + PGSIZE) / PGSIZE, hi)
              && ps == [la / PGSIZE] + PageRange((la + PGSIZE) / PGSIZE, hi)
    ensures la / PGSIZE >= hi ==> PageRange(la / PGSIZE, hi) == []
  {
    if la / PGSIZE < hi {
      var ps := PageRange(la / PGSIZE, hi);
      assert ps[1..] == PageRange((la + PGSIZE) / PGSIZE, hi);
    }
  }

  lemma PageRangeConcat(a: nat, b: nat, c: nat)
    requires a <= b <= c
    ensures PageRange(a, b) + PageRange(b, c) == PageRange(a, c)
  {
  }
}
