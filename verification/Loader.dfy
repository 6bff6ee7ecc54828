/** The segment loops of load_icode (kern/process/proc.c): each loadable segment of an ELF
    file (Program Header, chapter 5 of the System V gABI) goes page by page into a new
    address space, file bytes first, zeros after them. All sums are 64-bit sums. */
module Loader {
  import opened Sv39
  import opened PageTable
  import opened PageMap
  import opened Mmu
  import opened PageCopy
  import opened PageBudget
  import opened Vmm
  import opened LoadImage
  import opened Lists
  import opened Wrappers

  const ELF_MAGIC := 0x464C_457F
  const ELF_PT_LOAD := 1

  /** struct proghdr, the fields load_icode reads. */
  datatype ProgHdr = ProgHdr(kind: nat, flags: nat, offset: nat, va: nat, filesz: nat, memsz: nat)

  /** Overrun: a memset past the end of its page, or a mapping outside user space. */
  datatype LoadResult = Loaded | InvalidElf | NotMapped(why: MapResult) | OutOfMemory | Overrun

  /** The fields are 64-bit words. */
  predicate Words(ph: ProgHdr) {
    ph.offset < WORDS && ph.va < WORDS && ph.filesz < WORDS && ph.memsz < WORDS
  }

  predicate Loadable(ph: ProgHdr) {
    ph.kind == ELF_PT_LOAD
  }

  /** The area flags: read, write and execute as the header says, nothing else. */
  function VmFlags(elfFlags: nat): (r: nat)
    ensures r < VM_STACK && HasFlag(r, VM_READ) == HasFlag(elfFlags, 4)
    ensures HasFlag(r, VM_WRITE) == HasFlag(elfFlags, 2) && HasFlag(r, VM_EXEC) == HasFlag(elfFlags, 1)
  {
    (if HasFlag(elfFlags, 1) then 4 else 0) + (if HasFlag(elfFlags, 2) then 2 else 0)
    + (if HasFlag(elfFlags, 4) then 1 else 0)
  }

  /** The leaf permission bits: PTE_U and PTE_V, write brings read along. */
  function Perm(elfFlags: nat): (p: nat)
    ensures p < 32 && HasFlag(p, 1) && HasFlag(p, 16)
    ensures HasFlag(p, 4) ==> HasFlag(p, 2)
    ensures HasFlag(p, 8) == HasFlag(elfFlags, 1) && HasFlag(p, 4) == HasFlag(elfFlags, 2)
    ensures HasFlag(p, 2) == (HasFlag(elfFlags, 4) || HasFlag(elfFlags, 2))
  {
    17 + (if HasFlag(elfFlags, 4) || HasFlag(elfFlags, 2) then 2 else 0)
    + (if HasFlag(elfFlags, 2) then 4 else 0) + (if HasFlag(elfFlags, 1) then 8 else 0)
  }

  // ----- what a segment asks for -----

  /** n bytes of kernel memory from binary + from on; `binary` is all of it, the file and
      whatever follows, since the source never looks at the file's size. */
  function Bytes(binary: nat -> nat, from: nat, n: nat): (b: seq<nat>)
    ensures |b| == n && forall i :: 0 <= i < n ==> b[i] == binary((from + i) % WORDS)
  {
    seq(n, i requires 0 <= i => binary((from + i) % WORDS))
  }

  function Zeroes(n: nat): (z: seq<nat>)
    ensures |z| == n && forall i :: 0 <= i < n ==> z[i] == 0
  {
    seq(n, _ => 0)
  }

  /** The memory image of a segment: its bytes in the file, then zeros. */
  function Image(ph: ProgHdr, binary: nat -> nat): (b: seq<nat>)
    requires ph.filesz <= ph.memsz
    ensures |b| == ph.memsz
    ensures forall i :: 0 <= i < ph.memsz ==> b[i] == if i < ph.filesz then binary((ph.offset + i) % WORDS) else 0
  {
    Bytes(binary, ph.offset, ph.filesz) + Zeroes(ph.memsz - ph.filesz)
  }

  predicate Agree(b: nat -> nat, c: nat -> nat, size: nat) {
    forall k :: 0 <= k < size ==> b(k) == c(k)
  }

  /** The image depends on the file alone, not on what follows it in memory. */
  ghost predicate OfFile(ph: ProgHdr, size: nat)
    requires ph.filesz <= ph.memsz
  {
    forall b, c :: Agree(b, c, size) ==> Image(ph, b) == Image(ph, c)
  }

  /** The image is made of the file exactly when the header's bytes lie within the file's
      size, which the source does not check. */
  lemma ImageOfFile(ph: ProgHdr, size: nat)
    requires ph.filesz <= ph.memsz && Words(ph) && size < WORDS
    ensures OfFile(ph, size) <==> ph.filesz == 0 || ph.offset + ph.filesz <= size
  {
    if ph.filesz == 0 || ph.offset + ph.filesz <= size {
      forall b: nat -> nat, c: nat -> nat | Agree(b, c, size) ensures Image(ph, b) == Image(ph, c) {
        forall i | 0 <= i < ph.filesz ensures Image(ph, b)[i] == Image(ph, c)[i] {
          assert (ph.offset + i) % WORDS == ph.offset + i;
        }
      }
    } else {
      var i := if ph.offset + ph.filesz - 1 < WORDS then ph.filesz - 1 else WORDS - 1 - ph.offset;
      var at := ph.offset + i;
      assert size <= at < WORDS && 0 <= i < ph.filesz;
      var b: nat -> nat, c: nat -> nat := _ => 0, k => if k == at then 1 else 0;
      assert Agree(b, c, size) && Image(ph, b)[i] == 0 && Image(ph, c)[i] == 1;
    }
  }

  /** The end of the segment in memory wraps around at 64 bits. */
  predicate Wraps(ph: ProgHdr) {
    ph.va + ph.memsz >= WORDS
  }

  function Area(ph: ProgHdr): Vma {
    MapArea(ph.va, ph.memsz, VmFlags(ph.flags))
  }

  function Smaller(a: nat, b: nat): nat {
    if a < b then a else b
  }

  /** The page behind the last one a loop from va up to end maps, as far as user space. */
  function Hi(va: nat, end: nat): nat {
    if end <= va then va / PGSIZE else Smaller(PageCeil(end), USER_PAGES)
  }

  function FileEnd(ph: ProgHdr): nat {
    (ph.va + ph.filesz) % WORDS
  }

  function MemEnd(ph: ProgHdr): nat {
    (ph.va + ph.memsz) % WORDS
  }

  /** The pages the first loop maps: none if the end of the file part is not above its start. */
  function FilePages(ph: ProgHdr): seq<nat> {
    PageRange(ph.va / PGSIZE, Hi(ph.va, FileEnd(ph)))
  }

  /** The pages both loops map. */
  function SegmentPages(ph: ProgHdr): seq<nat> {
    if Wraps(ph) then FilePages(ph) else PageRange(ph.va / PGSIZE, Hi(ph.va, MemEnd(ph)))
  }

  /** A wrapping segment whose file part ends inside a page, or beyond user space: memset is
      then called with a size that has gone below zero, or a kernel address is mapped. */
  predicate Overruns(ph: ProgHdr) {
    var end := ph.va + ph.filesz;
    Wraps(ph) && ph.filesz > 0 && end < WORDS && (end > USERTOP || end % PGSIZE != 0)
  }

  /** The addresses whose pages loading the segment may map. */
  function Reach(ph: ProgHdr): Vma {
    if Wraps(ph) then Vma(RoundDown(ph.va), RoundDown(ph.va) + |FilePages(ph)| * PGSIZE, 0) else Area(ph)
  }

  /** A sum that has not wrapped and rounds up above zero rounds up to the next page. */
  lemma RoundedEnd(end: nat)
    requires end < WORDS && RoundUp(end) > 0
    ensures end <= RoundUp(end) < end + PGSIZE && RoundUp(end) % PGSIZE == 0
  {
    hide RoundUp;
    RoundUpTo(end);
  }

  lemma RoundUpTo(end: nat)
    ensures end < WORDS && end + PGSIZE - 1 >= WORDS ==> RoundUp(end) == 0
    ensures end + PGSIZE - 1 < WORDS ==> end <= RoundUp(end) < end + PGSIZE && RoundUp(end) % PGSIZE == 0
  {
  }

  lemma RoundedPages(a: nat, end: nat)
    ensures RoundDown(a) == a / PGSIZE * PGSIZE <= a
    ensures end % PGSIZE == 0 && a <= end < a + PGSIZE ==> PageCeil(a) * PGSIZE == end
  {
  }

  /** What an accepted area says of an accepted header. */
  lemma AreaFacts(ph: ProgHdr)
    requires Words(ph) && UserAccess(Area(ph).start, Area(ph).end)
    ensures Area(ph).start == RoundDown(ph.va) <= ph.va < USERTOP && RoundDown(ph.va) == ph.va / PGSIZE * PGSIZE
    ensures !Wraps(ph) ==> ph.va + ph.memsz <= Area(ph).end <= USERTOP && Area(ph).end % PGSIZE == 0
    ensures !Wraps(ph) ==> MemEnd(ph) == ph.va + ph.memsz
    ensures !Wraps(ph) && ph.filesz <= ph.memsz ==> FileEnd(ph) == ph.va + ph.filesz
    ensures !Wraps(ph) ==> PageCeil(ph.va + ph.memsz) * PGSIZE == Area(ph).end
    ensures Wraps(ph) ==> MemEnd(ph) < ph.va
  {
    hide RoundUp, RoundDown, PageCeil;
    EndOf(ph.va, ph.memsz);
    EndOf(ph.va, ph.filesz);
    RoundedPages(ph.va, 0);
    if !Wraps(ph) {
      RoundedEnd(MemEnd(ph));
      RoundedPages(MemEnd(ph), Area(ph).end);
    }
    UserStart(ph);
  }

  lemma UserStart(ph: ProgHdr)
    requires Words(ph) && UserAccess(Area(ph).start, Area(ph).end)
    ensures ph.va < USERTOP
  {
  }

  lemma FileStretch(ph: ProgHdr, binary: nat -> nat, at: nat, size: nat)
    requires ph.filesz <= ph.memsz && at + size <= ph.filesz
    ensures Bytes(binary, ph.offset + at, size) == Image(ph, binary)[at..at + size]
  {
  }

  lemma ZeroStretch(ph: ProgHdr, binary: nat -> nat, at: nat, size: nat)
    requires ph.filesz <= ph.memsz && ph.filesz <= at && at + size <= ph.memsz
    ensures Zeroes(size) == Image(ph, binary)[at..at + size]
  {
  }

  // ----- the loops -----

  /** memcpy or memset through page2kva(page) + off. */
  method WriteInto(s: AddressSpaces, page: Frame, off: nat, bytes: seq<nat>)
    requires Ok(s.m, s.lv) && HasBytes(s.m, page) && off + |bytes| <= PGSIZE
    modifies s`m
    ensures Ok(s.m, s.lv) && s.m == old(s.m).(data := old(s.m).data[page := Patched(old(s.m).data[page], off, bytes)])
    ensures Conserved(old(s.m), s.lv, s.m, s.lv)
  {
    FillFrame(s.m, s.lv, page, Patched(s.m.data[page], off, bytes));
    s.m := s.m.(data := s.m.data[page := Patched(s.m.data[page], off, bytes)]);
  }

  /** pgdir_alloc_page at la, then memcpy or memset of the next stretch of the image. The
      account of frames runs from memory a, with the pages `done` mapped since. */
  method FillPage(s: AddressSpaces, root: Frame, la: nat, off: nat, bytes: seq<nat>, perm: nat,
                  ghost z: Memory, ghost zlv: Levels, ghost va: nat, ghost page: Frame, ghost image: seq<nat>,
                  ghost a: Memory, ghost done: seq<nat>)
    returns (f: Option<Frame>)
    requires Progress(z, zlv, s.m, s.lv, root, va, la + off, la, page, image, perm) && la + PGSIZE <= USERTOP
    requires 0 < |bytes| && off + |bytes| <= PGSIZE && la + off + |bytes| <= va + |image| && va <= la + off
    requires bytes == image[la + off - va..la + off - va + |bytes|] && Ledger(a, s.m, root, done)
    modifies s
    ensures Ok(s.m, s.lv) && KeepsRoots(zlv, s.lv) && IsRoot(s.lv, root) && Conserved(old(s.m), old(s.lv), s.m, s.lv)
    ensures f.None? <==> |old(s.m).free| < 1 + Missing(old(s.m), root, la)
    ensures f.Some? ==> Progress(z, zlv, s.m, s.lv, root, va, la + off + |bytes|, la + PGSIZE, f.value, image, perm)
    ensures f.Some? ==> Ledger(a, s.m, root, done + [la / PGSIZE])
  {
    hide Structure, Counted, Placed, Elsewhere, Pte, PageAdded, Ledger, Missing, PtesInserted, Opened, Held;
    f := s.PgdirAllocPage(root, la, perm);
    if f.Some? {
      ghost var mapped, mlv := s.m, s.lv;
      PageRangeNext(la, 0);
      PutLedger(a, old(s.m), old(s.lv), mapped, mlv, root, done, la, f.value, PteCreate(f.value, perm));
      WriteInto(s, f.value, off, bytes);
      ghost var filled := Patched(mapped.data[f.value], off, bytes);
      LedgerFill(a, mapped, s.m, root, done + [la / PGSIZE]);
      AddedBy(old(s.m), old(s.lv), mapped, s.m, root, la, f.value, perm, filled);
      ProgressAdd(z, zlv, old(s.m), old(s.lv), s.m, s.lv, root, va, la + off, la, page, image, perm, f.value,
                  |bytes|, filled);
    }
  }

  lemma PutLedger(a: Memory, m: Memory, lv: Levels, n: Memory, nlv: Levels, root: Frame, done: seq<nat>, la: nat,
                  f: Frame, w: nat)
    requires Ok(m, lv) && IsRoot(lv, root) && Ledger(a, m, root, done) && FramePut(m, lv, n, nlv, root, la, f, w)
    requires la % PGSIZE == 0 && la + PGSIZE <= USERTOP
    ensures Ledger(a, n, root, done + [la / PGSIZE])
    ensures PtesInserted(m, lv, n, root, la, w) && f in m.free && f in n.refs && n.refs[f] == 1
  {
    hide Ledger, Structure, Counted, PtesInserted, Opened, Missing;
    assert Addr(la / PGSIZE) == la;
    LedgerStep(a, m, lv, n, nlv, root, done, la / PGSIZE, f, w);
  }

  /** A failed page is the verdict of the account on the pages still to come. */
  lemma PageVerdict(a: Memory, m: Memory, root: Frame, done: seq<nat>, la: nat, hi: nat)
    requires Ledger(a, m, root, done) && la % PGSIZE == 0 && la + PGSIZE <= USERTOP && la / PGSIZE < hi
    ensures var ps := PageRange(la / PGSIZE, hi);
            if |m.free| < 1 + Missing(m, root, la) then Verdict(a, root, done, ps) != Done
            else Verdict(a, root, done, ps) == Verdict(a, root, done + [la / PGSIZE], PageRange((la + PGSIZE) / PGSIZE, hi))
  {
    hide Ledger, Missing, Verdict, PageRange;
    PageRangeNext(la, hi);
    assert Addr(la / PGSIZE) == la;
    VerdictNext(a, m, root, done, PageRange(la / PGSIZE, hi));
  }

  /** The state of either loop on its way from va to end: the image is in place below start,
      pages are mapped up to la, and the account says what is left to do. */
  ghost predicate Filling(z: Memory, zlv: Levels, m: Memory, lv: Levels, root: Frame, va: nat, end: nat,
                          image: seq<nat>,
                          perm: nat, a: Memory, done: seq<nat>, start: nat, la: nat, page: Frame)
  {
    var lo, hi := va / PGSIZE, Hi(va, end);
    var cur := done + PageRange(lo, la / PGSIZE);
    && va <= start && (start <= end || start == va)
    && la % PGSIZE == 0 && RoundDown(va) <= la <= USERTOP
    && (if end <= va then la == RoundDown(va) else la / PGSIZE <= hi)
    && (start < end ==> la <= start < la + PGSIZE) && (start >= end ==> la / PGSIZE >= hi)
    && Ledger(a, m, root, cur)
    && Verdict(a, root, done, PageRange(lo, hi)) == Verdict(a, root, cur, PageRange(la / PGSIZE, hi))
    && Progress(z, zlv, m, lv, root, va, start, la, page, image, perm)
  }

  lemma FillingStart(m: Memory, lv: Levels, root: Frame, va: nat, end: nat, image: seq<nat>, perm: nat, a: Memory,
                     done: seq<nat>)
    requires Ok(m, lv) && IsRoot(lv, root) && perm < 1024 && perm % 2 == 1 && Ledger(a, m, root, done) && va < USERTOP
    ensures Filling(m, lv, m, lv, root, va, end, image, perm, a, done, va, RoundDown(va), 0)
  {
    hide Ok, KeepsRoots, Progress, Ledger, Verdict;
    ProgressStart(m, lv, root, va, 0, image, perm);
    assert RoundDown(va) / PGSIZE == va / PGSIZE;
    assert PageRange(va / PGSIZE, RoundDown(va) / PGSIZE) == [] && done + [] == done;
  }

  /** One turn of either loop: map a page and fill it with `bytes`, the next stretch. */
  method FillStretch(s: AddressSpaces, root: Frame, bytes: seq<nat>, perm: nat, start: nat, la: nat, page: Frame,
                     ghost z: Memory, ghost zlv: Levels, ghost va: nat, ghost end: nat, ghost image: seq<nat>,
                     ghost a: Memory, ghost done: seq<nat>)
    returns (got: Option<Frame>)
    requires va < USERTOP && start < end && la < USERTOP && end <= va + |image|
    requires Filling(z, zlv, s.m, s.lv, root, va, end, image, perm, a, done, start, la, page)
    requires |bytes| == PGSIZE - (start - la) - (if end < la + PGSIZE then la + PGSIZE - end else 0)
    requires start + |bytes| <= va + |image| && bytes == image[start - va..start - va + |bytes|]
    modifies s
    ensures Ok(s.m, s.lv) && KeepsRoots(zlv, s.lv) && Conserved(old(s.m), old(s.lv), s.m, s.lv)
    ensures got.None? ==> Verdict(a, root, done, PageRange(va / PGSIZE, Hi(va, end))) != Done
    ensures got.Some? ==>
              && 0 < |bytes| && start + |bytes| <= end
              && Filling(z, zlv, s.m, s.lv, root, va, end, image, perm, a, done, start + |bytes|, la + PGSIZE, got.value)
  {
    hide Held, Ok, KeepsRoots, Progress, HasBytes, Patched, Ledger, Verdict, Missing, PageRange, Conserved, Filling, Hi,
         RoundDown;
    ghost var cur := done + PageRange(va / PGSIZE, la / PGSIZE);
    FillingAt(z, zlv, s.m, s.lv, root, va, end, image, perm, a, done, start, la, page);
    StretchFits(start, la, end);
    got := FillPage(s, root, la, start - la, bytes, perm, z, zlv, va, page, image, a, cur);
    if got.Some? {
      FillingNext(z, zlv, s.m, s.lv, root, va, end, image, perm, a, done, start, la, start + |bytes|, got.value);
    }
  }

  lemma FillingAt(z: Memory, zlv: Levels, m: Memory, lv: Levels, root: Frame, va: nat, end: nat, image: seq<nat>,
                  perm: nat,
                  a: Memory, done: seq<nat>, start: nat, la: nat, page: Frame)
    requires va < USERTOP && start < end && la < USERTOP
    requires Filling(z, zlv, m, lv, root, va, end, image, perm, a, done, start, la, page)
    ensures var cur, hi := done + PageRange(va / PGSIZE, la / PGSIZE), Hi(va, end);
            && va <= start && la % PGSIZE == 0 && la <= start < la + PGSIZE
            && la + PGSIZE <= USERTOP && va / PGSIZE * PGSIZE <= la && la / PGSIZE < hi
            && Ledger(a, m, root, cur) && Progress(z, zlv, m, lv, root, va, start, la, page, image, perm)
            && Verdict(a, root, done, PageRange(va / PGSIZE, hi)) ==
               (if |m.free| < 1 + Missing(m, root, la) then Verdict(a, root, cur, PageRange(la / PGSIZE, hi))
                else Verdict(a, root, cur + [la / PGSIZE], PageRange((la + PGSIZE) / PGSIZE, hi)))
            && (|m.free| < 1 + Missing(m, root, la) ==> Verdict(a, root, done, PageRange(va / PGSIZE, hi)) != Done)
  {
    hide Ok, KeepsRoots, Progress, Ledger, Verdict, Missing, PageRange;
    LoopAt(start, la, va, end);
    PageVerdict(a, m, root, done + PageRange(va / PGSIZE, la / PGSIZE), la, Hi(va, end));
  }

  lemma FillingNext(z: Memory, zlv: Levels, m: Memory, lv: Levels, root: Frame, va: nat, end: nat, image: seq<nat>,
                    perm: nat, a: Memory, done: seq<nat>, start: nat, la: nat, next: nat, page: Frame)
    requires va <= start < next <= end && la % PGSIZE == 0 && la <= start && va / PGSIZE * PGSIZE <= la
    requires la + PGSIZE <= USERTOP && la < next <= la + PGSIZE && (next < end ==> next == la + PGSIZE)
    requires Ledger(a, m, root, done + PageRange(va / PGSIZE, la / PGSIZE) + [la / PGSIZE])
    requires Verdict(a, root, done, PageRange(va / PGSIZE, Hi(va, end))) ==
             Verdict(a, root, done + PageRange(va / PGSIZE, la / PGSIZE) + [la / PGSIZE],
                     PageRange((la + PGSIZE) / PGSIZE, Hi(va, end)))
    requires Progress(z, zlv, m, lv, root, va, next, la + PGSIZE, page, image, perm)
    ensures Filling(z, zlv, m, lv, root, va, end, image, perm, a, done, next, la + PGSIZE, page)
  {
    hide Ok, KeepsRoots, Progress, Ledger, Verdict, PageRange;
    CursorNext(done, va / PGSIZE, la);
    LoopNext(next, la + PGSIZE, va, end);
  }

  /** How either loop stands when it stops, at its end or at the end of user space. */
  lemma FillingEnds(z: Memory, zlv: Levels, m: Memory, lv: Levels, root: Frame, va: nat, end: nat, image: seq<nat>,
                    perm: nat, a: Memory, done: seq<nat>, start: nat, la: nat, page: Frame)
    requires Filling(z, zlv, m, lv, root, va, end, image, perm, a, done, start, la, page) && va < USERTOP
    ensures Ok(m, lv) && KeepsRoots(zlv, lv) && Progress(z, zlv, m, lv, root, va, start, la, page, image, perm)
    ensures var ps := PageRange(va / PGSIZE, Hi(va, end));
            && (start < end && la >= USERTOP ==> Verdict(a, root, done, ps) == Done && end > USERTOP)
            && (start >= end ==>
                  && Verdict(a, root, done, ps) == Done && end <= USERTOP
                  && start == (if end <= va then va else end)
                  && la == RoundDown(va) + |ps| * PGSIZE && ps == PageRange(va / PGSIZE, la / PGSIZE)
                  && Ledger(a, m, root, done + ps))
  {
    hide Ok, KeepsRoots, Progress, Ledger, Verdict;
    ProgressFacts(z, zlv, m, lv, root, va, start, la, page, image, perm);
    if start < end {
      LoopAt(start, la, va, end);
    }
    if la / PGSIZE >= Hi(va, end) {
      NoPagesLeft(a, root, done + PageRange(va / PGSIZE, la / PGSIZE), la, Hi(va, end));
    }
    if start >= end {
      LoopEnds(start, la, va, end);
    }
  }

  lemma CursorNext(done: seq<nat>, lo: nat, la: nat)
    requires la % PGSIZE == 0 && lo * PGSIZE <= la
    ensures (done + PageRange(lo, la / PGSIZE)) + [la / PGSIZE] == done + PageRange(lo, (la + PGSIZE) / PGSIZE)
  {
    assert PageRange(lo, la / PGSIZE) + [la / PGSIZE] == PageRange(lo, (la + PGSIZE) / PGSIZE);
  }

  lemma LoopAt(start: nat, la: nat, va: nat, end: nat)
    requires va <= start < end && la % PGSIZE == 0 && la <= start && la <= USERTOP
    ensures la < USERTOP ==> la + PGSIZE <= USERTOP && la / PGSIZE < Hi(va, end)
    ensures la >= USERTOP ==> la / PGSIZE >= Hi(va, end) && end > USERTOP
  {
  }

  /** After a stretch the loop stands at the next page, or past its end. */
  lemma LoopNext(next: nat, la: nat, va: nat, end: nat)
    requires va < next <= end && la % PGSIZE == 0 && la <= USERTOP
    requires la - PGSIZE < next <= la && (next < end ==> next == la)
    ensures la / PGSIZE <= Hi(va, end) && (next >= end ==> la / PGSIZE >= Hi(va, end))
  {
  }

  lemma LoopEnds(start: nat, la: nat, va: nat, end: nat)
    requires start >= end && (start <= end || start == va) && va < USERTOP && la % PGSIZE == 0 && la <= USERTOP
    requires if end <= va then la == RoundDown(va) else la / PGSIZE <= Hi(va, end)
    requires la / PGSIZE >= Hi(va, end) && (if la == RoundDown(va) then start == va else la - PGSIZE < start <= la)
    ensures start == (if end <= va then va else end) && end <= USERTOP
    ensures PageRange(va / PGSIZE, Hi(va, end)) == PageRange(va / PGSIZE, la / PGSIZE)
    ensures la == RoundDown(va) + |PageRange(va / PGSIZE, Hi(va, end))| * PGSIZE
  {
  }

  lemma NoPagesLeft(a: Memory, root: Frame, cur: seq<nat>, la: nat, hi: nat)
    requires la / PGSIZE >= hi
    ensures Verdict(a, root, cur, PageRange(la / PGSIZE, hi)) == Done
  {
  }

  /** Section 3.6.1 of load_icode: pages for the file bytes, each filled from the file. */
  method CopyFile(s: AddressSpaces, root: Frame, ph: ProgHdr, binary: nat -> nat, perm: nat, ghost a: Memory,
                  ghost done: seq<nat>)
    returns (out: LoadResult, start: nat, la: nat, page: Frame)
    requires Ok(s.m, s.lv) && IsRoot(s.lv, root) && perm < 1024 && perm % 2 == 1 && Ledger(a, s.m, root, done)
    requires Words(ph) && ph.filesz <= ph.memsz && ph.va < USERTOP
    modifies s
    ensures Ok(s.m, s.lv) && KeepsRoots(old(s.lv), s.lv) && Conserved(old(s.m), old(s.lv), s.m, s.lv)
    ensures out == Loaded || out == OutOfMemory || out == Overrun
    ensures out == OutOfMemory <==> Verdict(a, root, done, FilePages(ph)) != Done
    ensures out == Overrun <==> Verdict(a, root, done, FilePages(ph)) == Done && FileEnd(ph) > USERTOP
    ensures out == Loaded ==>
              && start == (if FileEnd(ph) <= ph.va then ph.va else FileEnd(ph))
              && la == RoundDown(ph.va) + |FilePages(ph)| * PGSIZE && FilePages(ph) == PageRange(ph.va / PGSIZE, la / PGSIZE)
              && Ledger(a, s.m, root, done + FilePages(ph))
              && Progress(old(s.m), old(s.lv), s.m, s.lv, root, ph.va, start, la, page, Image(ph, binary), perm)
  {
    hide Held, Ok, KeepsRoots, Progress, Image, Ledger, Verdict, PageRange, Conserved, Filling, Hi, RoundDown, FilePages,
         HasBytes, Bytes;
    ConservedRefl(s.m, s.lv);
    FileRange(ph);
    ghost var image := Image(ph, binary);
    var end := (ph.va + ph.filesz) % WORDS;
    FillingStart(s.m, s.lv, root, ph.va, end, image, perm, a, done);
    page, start, la := 0, ph.va, ph.va - ph.va % PGSIZE;
    assert la == RoundDown(ph.va) by { RoundDownIs(ph.va); }
    while start < end
      invariant Filling(old(s.m), old(s.lv), s.m, s.lv, root, ph.va, end, image, perm, a, done, start, la, page)
      invariant ph.va <= start && Conserved(old(s.m), old(s.lv), s.m, s.lv)
      decreases end - start
    {
      FillingEnds(old(s.m), old(s.lv), s.m, s.lv, root, ph.va, end, image, perm, a, done, start, la, page);
      if la >= USERTOP {
        out := Overrun;
        return;
      }
      ghost var before, blv := s.m, s.lv;
      FillingAt(old(s.m), old(s.lv), s.m, s.lv, root, ph.va, end, image, perm, a, done, start, la, page);
      StretchFits(start, la, end);
      EndOf(ph.va, ph.filesz);
      var off := start - la;
      var size := PGSIZE - off;
      if end < la + PGSIZE {
        size := size - (la + PGSIZE - end);
      }
      var from := ph.offset + (start - ph.va);
      FileStretch(ph, binary, start - ph.va, size);
      var got := FillStretch(s, root, Bytes(binary, from, size), perm, start, la, page,
                             old(s.m), old(s.lv), ph.va, end, image, a, done);
      ConservedTrans(old(s.m), old(s.lv), before, blv, s.m, s.lv);
      if got.None? {
        out := OutOfMemory;
        return;
      }
      page, la, start := got.value, la + PGSIZE, start + size;
    }
    FillingEnds(old(s.m), old(s.lv), s.m, s.lv, root, ph.va, end, image, perm, a, done, start, la, page);
    out := Loaded;
  }

  lemma FileRange(ph: ProgHdr)
    ensures FilePages(ph) == PageRange(ph.va / PGSIZE, Hi(ph.va, FileEnd(ph)))
  {
  }

  lemma RoundDownIs(va: nat)
    ensures va - va % PGSIZE == RoundDown(va)
  {
  }

  /** A 64-bit sum above its first term has not wrapped. */
  lemma EndOf(va: nat, size: nat)
    requires va < WORDS && size < WORDS
    ensures (va + size) % WORDS > va ==> (va + size) % WORDS == va + size
    ensures va + size < WORDS ==> (va + size) % WORDS == va + size
    ensures va + size >= WORDS ==> (va + size) % WORDS == va + size - WORDS < va
  {
  }

  /** The 64-bit size of the tail: it fits the page exactly when the end is not below the start. */
  method TailOf(start: nat, la: nat, end: nat) returns (off: nat, size: nat)
    requires la - PGSIZE < start < la <= USERTOP && end < WORDS && start != end
    ensures off == start + PGSIZE - la < PGSIZE
    ensures off + size > PGSIZE <==> end < start
    ensures end > start ==> size == PGSIZE - off - (if end < la then la - end else 0)
  {
    off := start + PGSIZE - la;
    size := PGSIZE - off;
    if end < la {
      size := (size - (la - end)) % WORDS;
    }
  }

  /** The next stretch of the image goes to the rest of the last page. */
  method PatchTail(s: AddressSpaces, root: Frame, bytes: seq<nat>, perm: nat, start: nat, la: nat, page: Frame,
                   ghost z: Memory, ghost zlv: Levels, ghost va: nat, ghost image: seq<nat>, ghost a: Memory,
                   ghost done: seq<nat>)
    requires Progress(z, zlv, s.m, s.lv, root, va, start, la, page, image, perm) && Ledger(a, s.m, root, done)
    requires la - PGSIZE < start < la && start + |bytes| <= la && start + |bytes| <= va + |image| && va <= start
    requires bytes == image[start - va..start - va + |bytes|]
    requires start + |bytes| == la || start + |bytes| == va + |image|
    modifies s`m
    ensures Ok(s.m, s.lv) && Conserved(old(s.m), s.lv, s.m, s.lv) && Ledger(a, s.m, root, done)
    ensures Progress(z, zlv, s.m, s.lv, root, va, start + |bytes|, la, page, image, perm)
  {
    hide Held, Ok, KeepsRoots, Progress, Placed, Elsewhere, Patched, Ledger, Conserved;
    ProgressFacts(z, zlv, s.m, s.lv, root, va, start, la, page, image, perm);
    WriteInto(s, page, start + PGSIZE - la, bytes);
    LedgerFill(a, old(s.m), s.m, root, done);
    ProgressPatch(z, zlv, old(s.m), s.lv, s.m, root, va, start, la, page, image, perm, |bytes|,
                  Patched(old(s.m).data[page], start + PGSIZE - la, bytes));
  }

  /** The rest of the last file page is zeroed. The size is a 64-bit difference; when it has
      gone below zero, memset runs off the page (over). Otherwise the assertion that follows
      holds. */
  method ZeroTail(s: AddressSpaces, root: Frame, ph: ProgHdr, binary: nat -> nat, perm: nat, start: nat, la: nat,
                  page: Frame,
                  ghost z: Memory, ghost zlv: Levels, ghost a: Memory, ghost done: seq<nat>)
    returns (over: bool, next: nat)
    requires Words(ph) && ph.filesz <= ph.memsz && ph.va < USERTOP && ph.va + ph.filesz == start < la
    requires start != MemEnd(ph) && Ledger(a, s.m, root, done)
    requires Progress(z, zlv, s.m, s.lv, root, ph.va, start, la, page, Image(ph, binary), perm)
    modifies s`m
    ensures Ok(s.m, s.lv) && Conserved(old(s.m), s.lv, s.m, s.lv)
    ensures over <==> Wraps(ph)
    ensures !over ==>
              && start < next <= ph.va + ph.memsz && (next < ph.va + ph.memsz ==> next == la) && Ledger(a, s.m, root, done)
              && Progress(z, zlv, s.m, s.lv, root, ph.va, next, la, page, Image(ph, binary), perm)
  {
    hide Held, Ok, KeepsRoots, Progress, Placed, Elsewhere, RoundUp, Patched, Image, Zeroes, Ledger, Conserved;
    ConservedRefl(s.m, s.lv);
    ProgressFacts(z, zlv, s.m, s.lv, root, ph.va, start, la, page, Image(ph, binary), perm);
    EndOf(ph.va, ph.memsz);
    var end := (ph.va + ph.memsz) % WORDS;
    var off, size := TailOf(start, la, end);
    next := start;
    if off + size > PGSIZE {
      return true, start;
    }
    over := false;
    StretchFits(start, la, end);
    ZeroStretch(ph, binary, start - ph.va, size);
    PatchTail(s, root, Zeroes(size), perm, start, la, page, z, zlv, ph.va, Image(ph, binary), a, done);
    next := start + size;
    assert (end < la && next == end) || (end >= la && next == la);
  }

  /** Section 3.6.2 on its way: a wrapping segment has nothing left to zero. */
  ghost predicate Zeroing(z: Memory, zlv: Levels, m: Memory, lv: Levels, root: Frame, ph: ProgHdr, image: seq<nat>,
                          perm: nat, a: Memory, done: seq<nat>, start: nat, la: nat, page: Frame)
  {
    if Wraps(ph) then
      && start >= MemEnd(ph) && Ledger(a, m, root, done + FilePages(ph))
      && la == Reach(ph).end && Progress(z, zlv, m, lv, root, ph.va, start, la, page, image, perm)
    else Filling(z, zlv, m, lv, root, ph.va, MemEnd(ph), image, perm, a, done, start, la, page)
  }

  /** From the file part, with its tail zeroed, on to the rest of the segment. */
  lemma ZeroingStart(z: Memory, zlv: Levels, m: Memory, lv: Levels, root: Frame, ph: ProgHdr, image: seq<nat>,
                     perm: nat, a: Memory, done: seq<nat>, start: nat, la: nat, page: Frame)
    requires Words(ph) && ph.filesz <= ph.memsz && UserAccess(Area(ph).start, Area(ph).end)
    requires la == RoundDown(ph.va) + |FilePages(ph)| * PGSIZE
    requires FilePages(ph) == PageRange(ph.va / PGSIZE, la / PGSIZE)
    requires Verdict(a, root, done, FilePages(ph)) == Done && Ledger(a, m, root, done + FilePages(ph))
    requires Progress(z, zlv, m, lv, root, ph.va, start, la, page, image, perm) && |image| == ph.memsz
    requires if Wraps(ph) then start >= MemEnd(ph) else start <= MemEnd(ph) && (start < MemEnd(ph) ==> la <= start)
    ensures Zeroing(z, zlv, m, lv, root, ph, image, perm, a, done, start, la, page)
  {
    hide Ok, KeepsRoots, Progress, Ledger, Verdict;
    AreaFacts(ph);
    ProgressFacts(z, zlv, m, lv, root, ph.va, start, la, page, image, perm);
    if !Wraps(ph) {
      var lo, hi := ph.va / PGSIZE, Hi(ph.va, MemEnd(ph));
      assert MemEnd(ph) <= ph.va ==> FilePages(ph) == [];
      ZeroingRange(ph, start, la);
      PageRangeConcat(lo, la / PGSIZE, hi);
      VerdictConcat(a, root, done, FilePages(ph), PageRange(la / PGSIZE, hi));
    }
  }

  lemma ZeroingRange(ph: ProgHdr, start: nat, la: nat)
    requires ph.va <= start <= MemEnd(ph) <= USERTOP && la % PGSIZE == 0 && RoundDown(ph.va) <= la <= USERTOP
    requires ph.va < USERTOP && if la == RoundDown(ph.va) then start == ph.va else la - PGSIZE < start <= la
    requires MemEnd(ph) <= ph.va ==> la == RoundDown(ph.va)
    ensures ph.va / PGSIZE <= la / PGSIZE <= Hi(ph.va, MemEnd(ph))
    ensures start >= MemEnd(ph) ==> la / PGSIZE >= Hi(ph.va, MemEnd(ph))
  {
  }

  lemma ZeroingAt(z: Memory, zlv: Levels, m: Memory, lv: Levels, root: Frame, ph: ProgHdr, image: seq<nat>,
                  perm: nat, a: Memory, done: seq<nat>, start: nat, la: nat, page: Frame)
    requires Words(ph) && UserAccess(Area(ph).start, Area(ph).end) && start < MemEnd(ph)
    requires Zeroing(z, zlv, m, lv, root, ph, image, perm, a, done, start, la, page)
    ensures !Wraps(ph) && Filling(z, zlv, m, lv, root, ph.va, MemEnd(ph), image, perm, a, done, start, la, page)
    ensures la % PGSIZE == 0 && la <= start < la + PGSIZE && la < USERTOP
  {
    hide Ok, KeepsRoots, Progress, Ledger, Verdict;
    AreaFacts(ph);
  }

  lemma ZeroingNext(z: Memory, zlv: Levels, m: Memory, lv: Levels, root: Frame, ph: ProgHdr, image: seq<nat>,
                    perm: nat, a: Memory, done: seq<nat>, start: nat, la: nat, page: Frame)
    requires !Wraps(ph)
    requires Filling(z, zlv, m, lv, root, ph.va, MemEnd(ph), image, perm, a, done, start, la, page)
    ensures Zeroing(z, zlv, m, lv, root, ph, image, perm, a, done, start, la, page)
  {
  }

  /** Where the file part ends, from the loop's point of view. */
  lemma FileEnds(ph: ProgHdr, la: nat)
    requires Words(ph) && ph.filesz <= ph.memsz && la == RoundDown(ph.va) + |FilePages(ph)| * PGSIZE
    ensures var start := if FileEnd(ph) <= ph.va then ph.va else FileEnd(ph);
            && start >= ph.va && (!Wraps(ph) ==> start == ph.va + ph.filesz <= MemEnd(ph) == ph.va + ph.memsz)
            && (start < la ==> start == ph.va + ph.filesz) && (Wraps(ph) ==> MemEnd(ph) < ph.va)
  {
    EndOf(ph.va, ph.filesz);
    EndOf(ph.va, ph.memsz);
    assert FileEnd(ph) <= ph.va ==> FilePages(ph) == [];
  }

  lemma WrapPages(ph: ProgHdr)
    requires Wraps(ph)
    ensures SegmentPages(ph) == FilePages(ph)
  {
  }

  lemma SegmentRange(ph: ProgHdr)
    requires !Wraps(ph)
    ensures SegmentPages(ph) == PageRange(ph.va / PGSIZE, Hi(ph.va, MemEnd(ph)))
  {
  }

  lemma ZeroingOk(z: Memory, zlv: Levels, m: Memory, lv: Levels, root: Frame, ph: ProgHdr, image: seq<nat>, perm: nat,
                  a: Memory, done: seq<nat>, start: nat, la: nat, page: Frame)
    requires Zeroing(z, zlv, m, lv, root, ph, image, perm, a, done, start, la, page)
    ensures Ok(m, lv) && KeepsRoots(zlv, lv) && Conserved(m, lv, m, lv)
  {
    ConservedRefl(m, lv);
  }

  /** A segment is loaded: in place unless its end wraps, its pages accounted for, and nothing
      moved outside them. */
  ghost predicate SegmentDone(z: Memory, zlv: Levels, m: Memory, lv: Levels, root: Frame, ph: ProgHdr, image: seq<nat>,
                              perm: nat, a: Memory, done: seq<nat>)
    requires |image| == ph.memsz
  {
    && Ledger(a, m, root, done + SegmentPages(ph))
    && Elsewhere(z, zlv, m, root, Reach(ph).start, Reach(ph).end)
    && (!Wraps(ph) ==> Placed(m, root, ph.va, ph.va + ph.memsz, image, perm))
  }

  lemma ZeroingEnds(z: Memory, zlv: Levels, m: Memory, lv: Levels, root: Frame, ph: ProgHdr, image: seq<nat>, perm: nat,
                    a: Memory, done: seq<nat>, start: nat, la: nat, page: Frame)
    requires Words(ph) && ph.filesz <= ph.memsz && UserAccess(Area(ph).start, Area(ph).end) && |image| == ph.memsz
    requires Zeroing(z, zlv, m, lv, root, ph, image, perm, a, done, start, la, page) && start >= MemEnd(ph)
    requires Verdict(a, root, done, FilePages(ph)) == Done
    ensures Ok(m, lv) && KeepsRoots(zlv, lv) && Verdict(a, root, done, SegmentPages(ph)) == Done
    ensures SegmentDone(z, zlv, m, lv, root, ph, image, perm, a, done)
  {
    hide Ok, KeepsRoots, Progress, Ledger, Verdict, Placed, Elsewhere, Filling, PageRange, Hi, SegmentDone, Area, RoundDown;
    AreaFacts(ph);
    if Wraps(ph) {
      WrapPages(ph);
      ProgressFacts(z, zlv, m, lv, root, ph.va, start, la, page, image, perm);
      SegmentDoneBy(z, zlv, m, lv, root, ph, image, perm, a, done, la);
    } else {
      SegmentRange(ph);
      FillingEnds(z, zlv, m, lv, root, ph.va, MemEnd(ph), image, perm, a, done, start, la, page);
      ProgressFacts(z, zlv, m, lv, root, ph.va, start, la, page, image, perm);
      assert start == ph.va + ph.memsz;
      SegmentDoneBy(z, zlv, m, lv, root, ph, image, perm, a, done, la);
    }
  }

  lemma SegmentDoneBy(z: Memory, zlv: Levels, m: Memory, lv: Levels, root: Frame, ph: ProgHdr, image: seq<nat>,
                      perm: nat,
                      a: Memory, done: seq<nat>, la: nat)
    requires Words(ph) && UserAccess(Area(ph).start, Area(ph).end) && |image| == ph.memsz
    requires Elsewhere(z, zlv, m, root, RoundDown(ph.va), la) && Ledger(a, m, root, done + SegmentPages(ph))
    requires Wraps(ph) ==> la == Reach(ph).end
    requires !Wraps(ph) ==> Placed(m, root, ph.va, ph.va + ph.memsz, image, perm)
    requires !Wraps(ph) ==> la == RoundDown(ph.va) || la - PGSIZE < ph.va + ph.memsz
    requires la % PGSIZE == 0
    ensures SegmentDone(z, zlv, m, lv, root, ph, image, perm, a, done)
  {
    hide Ledger, Placed, Elsewhere, RoundDown, RoundUp, SegmentPages;
    AreaFacts(ph);
    if !Wraps(ph) {
      ElsewhereWiden(z, zlv, m, root, RoundDown(ph.va), la, Area(ph).end);
    }
  }

  /** Section 3.6.2 of load_icode: the rest of the last file page and further pages are
      zeroed. */
  method ZeroBss(s: AddressSpaces, root: Frame, ph: ProgHdr, binary: nat -> nat, perm: nat, start0: nat, la0: nat,
                 page0: Frame, ghost z: Memory, ghost zlv: Levels, ghost a: Memory, ghost done: seq<nat>)
    returns (out: LoadResult)
    requires Words(ph) && ph.filesz <= ph.memsz && UserAccess(Area(ph).start, Area(ph).end)
    requires start0 == if FileEnd(ph) <= ph.va then ph.va else FileEnd(ph)
    requires la0 == RoundDown(ph.va) + |FilePages(ph)| * PGSIZE
    requires FilePages(ph) == PageRange(ph.va / PGSIZE, la0 / PGSIZE)
    requires Verdict(a, root, done, FilePages(ph)) == Done && Ledger(a, s.m, root, done + FilePages(ph))
    requires Progress(z, zlv, s.m, s.lv, root, ph.va, start0, la0, page0, Image(ph, binary), perm)
    modifies s
    ensures Ok(s.m, s.lv) && KeepsRoots(zlv, s.lv) && Conserved(old(s.m), old(s.lv), s.m, s.lv)
    ensures out == if Verdict(a, root, done, SegmentPages(ph)) != Done then OutOfMemory
                   else if Wraps(ph) && start0 < la0 then Overrun else Loaded
    ensures out == Loaded ==> SegmentDone(z, zlv, s.m, s.lv, root, ph, Image(ph, binary), perm, a, done)
  {
    hide Held, Ok, KeepsRoots, Progress, Image, Ledger, Verdict, PageRange, Conserved, Filling, Hi, RoundDown, RoundUp,
         Placed, Elsewhere, Zeroing, FilePages, Reach;
    ConservedRefl(s.m, s.lv);
    AreaFacts(ph);
    FileEnds(ph, la0);
    ghost var image := Image(ph, binary);
    var start: nat, la: nat, page := start0, la0, page0;
    ProgressFacts(z, zlv, s.m, s.lv, root, ph.va, start, la, page, image, perm);
    var end := (ph.va + ph.memsz) % WORDS;
    if start < la {
      if start == end {
        ZeroingStart(z, zlv, s.m, s.lv, root, ph, image, perm, a, done, start, la, page);
        ZeroingEnds(z, zlv, s.m, s.lv, root, ph, image, perm, a, done, start, la, page);
        return Loaded;
      }
      var over;
      over, start := ZeroTail(s, root, ph, binary, perm, start, la, page, z, zlv, a, done + FilePages(ph));
      if over {
        WrapPages(ph);
        return Overrun;
      }
    }
    ZeroingStart(z, zlv, s.m, s.lv, root, ph, image, perm, a, done, start, la, page);
    ghost var before := s.m;
    out := ZeroPages(s, root, ph, binary, perm, start, la, page, z, zlv, a, done);
    ConservedTrans(old(s.m), old(s.lv), before, old(s.lv), s.m, s.lv);
  }

  /** The pages behind the last file page, all zeros. */
  method ZeroPages(s: AddressSpaces, root: Frame, ph: ProgHdr, binary: nat -> nat, perm: nat, start0: nat, la0: nat,
                   page0: Frame, ghost z: Memory, ghost zlv: Levels, ghost a: Memory, ghost done: seq<nat>)
    returns (out: LoadResult)
    requires Words(ph) && ph.filesz <= ph.memsz && UserAccess(Area(ph).start, Area(ph).end)
    requires Verdict(a, root, done, FilePages(ph)) == Done && (Wraps(ph) || ph.va + ph.filesz <= start0 <= MemEnd(ph))
    requires Zeroing(z, zlv, s.m, s.lv, root, ph, Image(ph, binary), perm, a, done, start0, la0, page0)
    modifies s
    ensures Ok(s.m, s.lv) && KeepsRoots(zlv, s.lv) && Conserved(old(s.m), old(s.lv), s.m, s.lv)
    ensures out == if Verdict(a, root, done, SegmentPages(ph)) != Done then OutOfMemory else Loaded
    ensures out == Loaded ==> SegmentDone(z, zlv, s.m, s.lv, root, ph, Image(ph, binary), perm, a, done)
  {
    hide Held, Ok, KeepsRoots, Progress, Image, Ledger, Verdict, PageRange, Conserved, Filling, Hi, RoundDown, RoundUp,
         Placed, Elsewhere, Zeroing, FilePages, SegmentPages, Reach, HasBytes, Zeroes, Area, SegmentDone;
    ghost var image := Image(ph, binary);
    ZeroingOk(z, zlv, s.m, s.lv, root, ph, image, perm, a, done, start0, la0, page0);
    var start: nat, la: nat, page := start0, la0, page0;
    var end := (ph.va + ph.memsz) % WORDS;
    while start < end
      invariant Zeroing(z, zlv, s.m, s.lv, root, ph, image, perm, a, done, start, la, page)
      invariant !Wraps(ph) ==> ph.va + ph.filesz <= start <= end
      invariant Conserved(old(s.m), old(s.lv), s.m, s.lv)
    {
      ghost var before, blv := s.m, s.lv;
      ZeroingAt(z, zlv, s.m, s.lv, root, ph, image, perm, a, done, start, la, page);
      StretchFits(start, la, end);
      var off := start - la;
      var size := PGSIZE - off;
      if end < la + PGSIZE {
        size := size - (la + PGSIZE - end);
      }
      ZeroStretch(ph, binary, start - ph.va, size);
      var got := FillStretch(s, root, Zeroes(size), perm, start, la, page, z, zlv, ph.va, end, image, a, done);
      ConservedTrans(old(s.m), old(s.lv), before, blv, s.m, s.lv);
      if got.None? {
        SegmentRange(ph);
        return OutOfMemory;
      }
      page, la, start := got.value, la + PGSIZE, start + size;
      assert Zeroing(z, zlv, s.m, s.lv, root, ph, image, perm, a, done, start, la, page) by {
        ZeroingNext(z, zlv, s.m, s.lv, root, ph, image, perm, a, done, start, la, page);
      }
    }
    ZeroingEnds(z, zlv, s.m, s.lv, root, ph, image, perm, a, done, start, la, page);
    out := Loaded;
  }

  // ----- segments and the file -----

  /** The header's bytes and zeros are in user memory with the permissions it asks for, inside
      an area of its own. */
  ghost predicate InPlace(m: Memory, areas: seq<Vma>, root: Frame, ph: ProgHdr, binary: nat -> nat) {
    && ph.filesz <= ph.memsz && ph.va + ph.memsz <= USERTOP
    && Area(ph) in areas && UserAccess(Area(ph).start, Area(ph).end)
    && Placed(m, root, ph.va, ph.va + ph.memsz, Image(ph, binary), Perm(ph.flags))
  }

  /** Byte b lies in an area, may be written, read and executed exactly as the header's flags
      PF_W, PF_R and PF_X say. */
  ghost predicate FollowsHeader(areas: seq<Vma>, b: nat, elfFlags: nat) {
    && (ByteOk(areas, b, true) <==> HasFlag(elfFlags, 2))
    && (ByteOk(areas, b, false) <==> HasFlag(elfFlags, 4))
    && (exists v :: v in areas && Covers(v, b))
    && (forall v :: v in areas && Covers(v, b) ==> HasFlag(v.flags, VM_EXEC) == HasFlag(elfFlags, 1))
  }

  /** How the turn of a header ends, given what the account says of its pages. */
  function SegmentResult(ph: ProgHdr, areas: seq<Vma>, room: bool, pages: Outcome): LoadResult {
    if !Loadable(ph) then Loaded
    else if ph.filesz > ph.memsz then InvalidElf
    else if MapVerdict(areas, Area(ph), room) != Mapped then NotMapped(MapVerdict(areas, Area(ph), room))
    else if pages != Done then OutOfMemory
    else if Overruns(ph) then Overrun
    else Loaded
  }

  /** One turn of the loop over the program headers. */
  method LoadSegment(s: AddressSpaces, mm: Mm, ph: ProgHdr, binary: nat -> nat, room: bool, ghost a: Memory,
                     ghost done: seq<nat>)
    returns (r: LoadResult)
    requires Ok(s.m, s.lv) && mm.Valid() && IsRoot(s.lv, mm.pgdir) && Words(ph) && Ledger(a, s.m, mm.pgdir, done)
    modifies s, mm
    ensures Ok(s.m, s.lv) && mm.Valid() && KeepsRoots(old(s.lv), s.lv) && Conserved(old(s.m), old(s.lv), s.m, s.lv)
    ensures r == SegmentResult(ph, old(mm.vmas), room, Verdict(a, mm.pgdir, done, SegmentPages(ph)))
    ensures !Loadable(ph) ==> s.m == old(s.m) && s.lv == old(s.lv) && mm.vmas == old(mm.vmas)
    ensures r == Loaded && Loadable(ph) ==>
              && multiset(mm.vmas) == multiset(old(mm.vmas)) + multiset{Area(ph)}
              && Ledger(a, s.m, mm.pgdir, done + SegmentPages(ph))
              && Elsewhere(old(s.m), old(s.lv), s.m, mm.pgdir, Reach(ph).start, Reach(ph).end)
              && (InPlace(s.m, mm.vmas, mm.pgdir, ph, binary) <==> !Wraps(ph))
    ensures r == Loaded && Loadable(ph) && !Wraps(ph) ==>
              forall b :: ph.va <= b < ph.va + ph.memsz ==> FollowsHeader(mm.vmas, b, ph.flags)
  {
    hide Held, Ok, KeepsRoots, Progress, Placed, Elsewhere, RoundUp, RoundDown, Sorted, Ledger, Verdict, Conserved, Area,
         FilePages, SegmentPages, Reach, SegmentDone, FileEnd, InPlace, Image, PageRange, Hi, Overruns, UserAreas,
         FollowsHeader;
    ConservedRefl(s.m, s.lv);
    SameRoots(s.lv);
    if ph.kind != ELF_PT_LOAD {
      return Loaded;
    }
    if ph.filesz > ph.memsz {
      return InvalidElf;
    }
    var perm := Perm(ph.flags);
    AreaIs(ph);
    var mapped := mm.Map(ph.va, ph.memsz, VmFlags(ph.flags), room);
    if mapped != Mapped {
      return NotMapped(mapped);
    }
    AreaFacts(ph);
    assert Area(ph) in multiset(mm.vmas);
    var out, start, la, page := CopyFile(s, mm.pgdir, ph, binary, perm, a, done);
    OverrunsIff(ph, la, start);
    FilePart(ph, a, mm.pgdir, done);
    if out != Loaded {
      return out;
    }
    ghost var before, blv := s.m, s.lv;
    out := ZeroBss(s, mm.pgdir, ph, binary, perm, start, la, page, old(s.m), old(s.lv), a, done);
    ConservedTrans(old(s.m), old(s.lv), before, blv, s.m, s.lv);
    if out == Loaded {
      SegmentLoaded(old(s.m), old(s.lv), s.m, s.lv, mm.vmas, mm.pgdir, ph, binary, a, done);
      if !Wraps(ph) {
        InPlaceAccess(s.m, mm.vmas, mm.pgdir, ph, binary);
      }
    }
    r := out;
  }

  /** The flags of a header in place decide what user_mem_check allows on each of its bytes,
      and whether its area is executable. */
  lemma InPlaceAccess(m: Memory, areas: seq<Vma>, root: Frame, ph: ProgHdr, binary: nat -> nat)
    requires InPlace(m, areas, root, ph, binary) && Sorted(areas) && Words(ph)
    ensures forall b :: ph.va <= b < ph.va + ph.memsz ==> FollowsHeader(areas, b, ph.flags)
  {
    hide Sorted, Placed, VmFlags, HasFlag, RoundUp, RoundDown, ByteOk, Image, Perm;
    var flags := VmFlags(ph.flags);
    assert Area(ph).flags == flags && !Wraps(ph);
    NotStack(flags);
    AreaFacts(ph);
    forall b | ph.va <= b < ph.va + ph.memsz
      ensures FollowsHeader(areas, b, ph.flags)
    {
      assert Covers(Area(ph), b);
      ByteInArea(areas, b, Area(ph), true);
      ByteInArea(areas, b, Area(ph), false);
      forall v | v in areas && Covers(v, b) ensures v == Area(ph) {
        SameArea(areas, b, v, Area(ph));
      }
    }
  }

  lemma NotStack(flags: nat)
    requires flags < VM_STACK
    ensures !HasFlag(flags, VM_STACK)
  {
  }

  lemma SegmentLoaded(z: Memory, zlv: Levels, m: Memory, lv: Levels, areas: seq<Vma>, root: Frame, ph: ProgHdr,
                      binary: nat -> nat, a: Memory, done: seq<nat>)
    requires Words(ph) && ph.filesz <= ph.memsz && UserAccess(Area(ph).start, Area(ph).end)
    requires SegmentDone(z, zlv, m, lv, root, ph, Image(ph, binary), Perm(ph.flags), a, done) && Area(ph) in areas
    ensures Ledger(a, m, root, done + SegmentPages(ph))
    ensures Elsewhere(z, zlv, m, root, Reach(ph).start, Reach(ph).end)
    ensures InPlace(m, areas, root, ph, binary) <==> !Wraps(ph)
  {
    hide Ledger, Elsewhere, SegmentPages, Placed;
    AreaFacts(ph);
  }

  lemma AreaIs(ph: ProgHdr)
    ensures Area(ph) == MapArea(ph.va, ph.memsz, VmFlags(ph.flags))
  {
  }

  /** A segment overruns in the copy, when its file part leaves user space, or in the tail. */
  lemma OverrunsIff(ph: ProgHdr, la: nat, start: nat)
    requires Words(ph) && ph.filesz <= ph.memsz && UserAccess(Area(ph).start, Area(ph).end)
    ensures Wraps(ph) ==> SegmentPages(ph) == FilePages(ph)
    ensures FileEnd(ph) > USERTOP ==> Wraps(ph) && Overruns(ph)
    ensures FileEnd(ph) <= USERTOP ==>
              start == (if FileEnd(ph) <= ph.va then ph.va else FileEnd(ph)) ==>
              la == RoundDown(ph.va) + |FilePages(ph)| * PGSIZE ==>
              (Overruns(ph) <==> Wraps(ph) && start < la)
  {
    hide Area, RoundDown, Hi;
    AreaFacts(ph);
    EndOf(ph.va, ph.filesz);
    FileCeil(ph.va, FileEnd(ph));
  }

  /** The loop over the file part stops at the end of the last page, which is the end of the
      file part or above it. */
  lemma FileCeil(va: nat, end: nat)
    ensures end <= va ==> Hi(va, end) == va / PGSIZE && RoundDown(va) <= va
    ensures va < end <= USERTOP ==>
              var la := RoundDown(va) + (Hi(va, end) - va / PGSIZE) * PGSIZE;
              Hi(va, end) > va / PGSIZE && (end < la <==> end % PGSIZE != 0)
  {
  }

  /** The file part is where the segment begins, so it needs no more than the segment. */
  lemma FilePart(ph: ProgHdr, a: Memory, root: Frame, done: seq<nat>)
    requires Words(ph) && ph.filesz <= ph.memsz && UserAccess(Area(ph).start, Area(ph).end)
    ensures Verdict(a, root, done, SegmentPages(ph)) == Done ==> Verdict(a, root, done, FilePages(ph)) == Done
  {
    hide Verdict;
    AreaFacts(ph);
    if !Wraps(ph) {
      var lo, at, hi := ph.va / PGSIZE, Hi(ph.va, FileEnd(ph)), Hi(ph.va, MemEnd(ph));
      PageRangeConcat(lo, at, hi);
      VerdictConcat(a, root, done, FilePages(ph), PageRange(at, hi));
    }
  }

  lemma SameRoots(lv: Levels)
    ensures KeepsRoots(lv, lv)
  {
  }

  /** A segment already in place is not disturbed by work in pages apart from its area. */
  lemma StaysInPlace(m: Memory, lv: Levels, n: Memory, root: Frame, ph: ProgHdr, binary: nat -> nat, s: seq<Vma>,
                     t: seq<Vma>, v: Vma)
    requires InPlace(m, s, root, ph, binary) && Elsewhere(m, lv, n, root, v.start, v.end) && IsRoot(lv, root)
    requires Words(ph) && Apart(Area(ph), v) && Area(ph) in t
    ensures InPlace(n, t, root, ph, binary)
  {
    hide Pte, Holds, SameAt, Area, Image;
    AreaFacts(ph);
    var image := Image(ph, binary);
    forall b: nat | ph.va <= b < ph.va + ph.memsz ensures HoldsAt(n, root, ph.va, b, image, Perm(ph.flags)) {
      assert HoldsAt(m, root, ph.va, b, image, Perm(ph.flags));
      assert SameAt(m, n, root, b);
      HoldsSame(m, n, root, b, image[b - ph.va], Perm(ph.flags));
    }
  }

  function Segments(headers: seq<ProgHdr>): (ls: seq<ProgHdr>)
    ensures forall ph :: ph in ls <==> ph in headers && Loadable(ph)
  {
    if headers == [] then []
    else
      var r, last := headers[..|headers| - 1], headers[|headers| - 1];
      assert headers == r + [last];
      if Loadable(last) then Segments(r) + [last] else Segments(r)
  }

  /** The pages of all segments, in the order in which they are mapped. */
  function AllPages(ls: seq<ProgHdr>): seq<nat> {
    if ls == [] then [] else AllPages(ls[..|ls| - 1]) + SegmentPages(ls[|ls| - 1])
  }

  function Areas(ls: seq<ProgHdr>): (vs: seq<Vma>)
    ensures |vs| == |ls| && forall i :: 0 <= i < |ls| ==> vs[i] == Area(ls[i])
  {
    seq(|ls|, i requires 0 <= i < |ls| => Area(ls[i]))
  }

  predicate Acceptable(ph: ProgHdr) {
    ph.filesz <= ph.memsz && UserAccess(Area(ph).start, Area(ph).end) && !Overruns(ph)
  }

  predicate AllApart(ls: seq<ProgHdr>) {
    forall i, j :: 0 <= i < j < |ls| ==> Apart(Area(ls[i]), Area(ls[j]))
  }

  /** What it takes to load the segments ls from memory a with `room` vma_structs: headers
      that can be accepted one by one, areas apart from each other, and frames for all pages. */
  predicate Loads(a: Memory, root: Frame, ls: seq<ProgHdr>, room: nat) {
    && |ls| <= room && (forall ph :: ph in ls ==> Acceptable(ph)) && AllApart(ls)
    && Verdict(a, root, [], AllPages(ls)) == Done
  }

  /** How the turn of header i ends when the headers before it have been loaded. */
  function TurnResult(a: Memory, root: Frame, headers: seq<ProgHdr>, i: nat, room: nat): LoadResult
    requires i < |headers|
  {
    var ls := Segments(headers[..i]);
    SegmentResult(headers[i], Areas(ls), room > |ls|, Verdict(a, root, AllPages(ls), SegmentPages(headers[i])))
  }

  /** Segment j is loaded, does not wrap, and no later one maps pages inside its area. */
  predicate Clear(ls: seq<ProgHdr>, j: nat)
    requires j < |ls|
  {
    !Wraps(ls[j]) && forall k :: j < k < |ls| ==> Apart(Area(ls[j]), Reach(ls[k]))
  }

  ghost predicate AllInPlace(m: Memory, areas: seq<Vma>, root: Frame, ls: seq<ProgHdr>, binary: nat -> nat) {
    forall j: nat {:trigger Clear(ls, j)} :: j < |ls| && Clear(ls, j) ==> InPlace(m, areas, root, ls[j], binary)
  }

  /** The segments load exactly when all but the last load and its own turn succeeds. */
  lemma LoadsSnoc(a: Memory, root: Frame, ls: seq<ProgHdr>, ph: ProgHdr, areas: seq<Vma>, room: nat)
    requires Sorted(areas) && multiset(areas) == multiset(Areas(ls)) && Loadable(ph)
    ensures Loads(a, root, ls + [ph], room) <==>
              && Loads(a, root, ls, room)
              && SegmentResult(ph, areas, room > |ls|, Verdict(a, root, AllPages(ls), SegmentPages(ph))) == Loaded
  {
    hide Verdict, Sorted, MapVerdict, Area, SegmentPages, Overruns, AllPages, AllApart, Apart;
    var all := ls + [ph];
    PagesSnoc(a, root, ls, ph);
    MappedIff(areas, Area(ph), room > |ls|);
    ApartSnoc(ls, ph, areas);
    AcceptableSnoc(ls, ph);
  }

  lemma PagesSnoc(a: Memory, root: Frame, ls: seq<ProgHdr>, ph: ProgHdr)
    ensures AllPages(ls + [ph]) == AllPages(ls) + SegmentPages(ph)
    ensures Verdict(a, root, [], AllPages(ls + [ph])) ==
            if Verdict(a, root, [], AllPages(ls)) == Done then Verdict(a, root, AllPages(ls), SegmentPages(ph))
            else Verdict(a, root, [], AllPages(ls))
  {
    hide Verdict, SegmentPages;
    var all := ls + [ph];
    assert all[..|all| - 1] == ls && all[|all| - 1] == ph && [] + AllPages(ls) == AllPages(ls);
    VerdictConcat(a, root, [], AllPages(ls), SegmentPages(ph));
  }

  lemma AcceptableSnoc(ls: seq<ProgHdr>, ph: ProgHdr)
    ensures (forall p :: p in ls + [ph] ==> Acceptable(p)) <==> (forall p :: p in ls ==> Acceptable(p)) && Acceptable(ph)
  {
    hide Acceptable;
    assert ph in ls + [ph] && forall p :: p in ls + [ph] <==> p in ls || p == ph;
  }

  lemma ApartSnoc(ls: seq<ProgHdr>, ph: ProgHdr, areas: seq<Vma>)
    requires multiset(areas) == multiset(Areas(ls))
    ensures AllApart(ls + [ph]) <==> AllApart(ls) && forall u :: u in areas ==> Apart(u, Area(ph))
  {
    hide Area;
    var all := ls + [ph];
    assert forall i :: 0 <= i < |ls| ==> all[i] == ls[i];
    assert forall u :: u in areas <==> u in multiset(Areas(ls));
    if AllApart(all) {
      forall u | u in areas ensures Apart(u, Area(ph)) {
        var i :| 0 <= i < |ls| && Areas(ls)[i] == u;
        assert Apart(Area(all[i]), Area(all[|ls|]));
      }
      forall i, j | 0 <= i < j < |ls| ensures Apart(Area(ls[i]), Area(ls[j])) {
        assert Apart(Area(all[i]), Area(all[j]));
      }
    }
    if AllApart(ls) && forall u :: u in areas ==> Apart(u, Area(ph)) {
      forall i, j | 0 <= i < j < |all| ensures Apart(Area(all[i]), Area(all[j])) {
        if j == |ls| {
          assert Areas(ls)[i] in multiset(Areas(ls));
        }
      }
    }
  }

  /** Headers that fail early fail as a whole. */
  lemma {:induction false} LoadsPrefix(a: Memory, root: Frame, headers: seq<ProgHdr>, i: nat, room: nat)
    requires i <= |headers| && Loads(a, root, Segments(headers), room)
    ensures Loads(a, root, Segments(headers[..i]), room)
  {
    hide Verdict, Area, SegmentPages, Acceptable, Apart;
    if i < |headers| {
      var r, last := headers[..|headers| - 1], headers[|headers| - 1];
      if Loadable(last) {
        var ls := Segments(r);
        assert Segments(headers) == ls + [last] && Segments(headers)[..|ls|] == ls;
        VerdictConcat(a, root, [], AllPages(ls), SegmentPages(last));
        assert forall j :: 0 <= j < |ls| ==> ls[j] == Segments(headers)[j];
        assert Loads(a, root, ls, room);
      }
      assert r[..i] == headers[..i];
      LoadsPrefix(a, root, r, i, room);
    } else {
      assert headers[..i] == headers;
    }
  }

  lemma StartElsewhere(m: Memory, lv: Levels, root: Frame)
    requires Ok(m, lv)
    ensures Elsewhere(m, lv, m, root, 0, USERTOP)
  {
    forall q: Frame, lb: nat | IsRoot(lv, q) && User(lb) ensures SameAt(m, m, q, lb) {
      PageOf(m, lv, q, lb);
    }
  }

  lemma LoadsNothing(m: Memory, lv: Levels, root: Frame, room: nat, binary: nat -> nat)
    requires Ok(m, lv) && IsRoot(lv, root)
    ensures Segments([]) == [] && AllPages([]) == [] && Loads(m, root, [], room) && Ledger(m, m, root, [])
    ensures AllInPlace(m, [], root, [], binary) && Areas([]) == []
  {
    LedgerStart(m, lv, root);
  }

  /** One header more: it is the turn of this header that decides. */
  lemma SegmentsNext(a: Memory, root: Frame, headers: seq<ProgHdr>, i: nat, areas: seq<Vma>, room: nat)
    requires i < |headers| && Sorted(areas) && multiset(areas) == multiset(Areas(Segments(headers[..i])))
    requires Loads(a, root, Segments(headers[..i]), room)
    ensures var ls, ph := Segments(headers[..i]), headers[i];
            var one := SegmentResult(ph, areas, room > |ls|, Verdict(a, root, AllPages(ls), SegmentPages(ph)));
            && Segments(headers[..i + 1]) == (if Loadable(ph) then ls + [ph] else ls)
            && AllPages(ls + [ph]) == AllPages(ls) + SegmentPages(ph)
            && |ls| <= room && (one == Loaded && Loadable(ph) ==> Loads(a, root, ls + [ph], room) && |ls| < room)
            && (one != Loaded ==> !Loads(a, root, Segments(headers), room))
  {
    hide Verdict, Area, SegmentPages, Sorted, MapVerdict, Overruns, Acceptable, AllApart;
    var ls, ph, upto := Segments(headers[..i]), headers[i], headers[..i + 1];
    assert upto[..i] == headers[..i] && upto[i] == ph;
    PagesSnoc(a, root, ls, ph);
    if Loadable(ph) {
      LoadsSnoc(a, root, ls, ph, areas, room);
      if Loads(a, root, Segments(headers), room) {
        LoadsPrefix(a, root, headers, i + 1, room);
      }
    }
  }

  /** Segment ph leaves the earlier ones in place where it does not reach into them. */
  lemma NextSegment(z: Memory, zlv: Levels, m: Memory, lv: Levels, n: Memory, nlv: Levels, root: Frame,
                    ls: seq<ProgHdr>, ph: ProgHdr, binary: nat -> nat, s: seq<Vma>, t: seq<Vma>)
    requires KeepsRoots(zlv, lv) && KeepsRoots(lv, nlv) && IsRoot(lv, root)
    requires AllInPlace(m, s, root, ls, binary) && Elsewhere(z, zlv, m, root, 0, USERTOP)
    requires (InPlace(n, t, root, ph, binary) <==> !Wraps(ph)) && forall p :: p in ls ==> Words(p)
    requires multiset(s) == multiset(Areas(ls)) && multiset(t) == multiset(s) + multiset{Area(ph)}
    requires Elsewhere(m, lv, n, root, Reach(ph).start, Reach(ph).end)
    ensures AllInPlace(n, t, root, ls + [ph], binary) && multiset(t) == multiset(Areas(ls + [ph]))
    ensures Elsewhere(z, zlv, n, root, 0, USERTOP) && KeepsRoots(zlv, nlv)
  {
    hide InPlace, SameAt, Area, Reach, Apart, Elsewhere;
    var all := ls + [ph];
    assert Areas(all) == Areas(ls) + [Area(ph)];
    forall j: nat | j < |all| && Clear(all, j) ensures InPlace(n, t, root, all[j], binary) {
      if j < |ls| {
        assert Apart(Area(all[j]), Reach(all[|ls|]));
        assert Clear(ls, j) by {
          assert forall k :: j < k < |ls| ==> ls[k] == all[k];
        }
        assert Areas(ls)[j] in multiset(t);
        StaysInPlace(m, lv, n, root, ls[j], binary, s, t, Reach(ph));
      }
    }
    ElsewhereBelowTop(m, lv, n, root, Reach(ph));
    ElsewhereTrans(z, zlv, m, lv, n, root, 0, USERTOP, USERTOP);
  }

  lemma ElsewhereBelowTop(m: Memory, lv: Levels, n: Memory, root: Frame, v: Vma)
    requires Elsewhere(m, lv, n, root, v.start, v.end)
    ensures Elsewhere(m, lv, n, root, 0, USERTOP)
  {
  }

  /** Loaded segments are all in place exactly when none of them wraps. */
  lemma AllLoadedInPlace(a: Memory, m: Memory, root: Frame, areas: seq<Vma>, ls: seq<ProgHdr>, binary: nat -> nat,
                         room: nat)
    requires Loads(a, root, ls, room) && AllInPlace(m, areas, root, ls, binary)
    ensures (forall ph :: ph in ls ==> InPlace(m, areas, root, ph, binary)) <==> forall ph :: ph in ls ==> !Wraps(ph)
  {
    hide Placed, Verdict, Area, Apart;
    if forall ph :: ph in ls ==> !Wraps(ph) {
      forall ph | ph in ls ensures InPlace(m, areas, root, ph, binary) {
        var j: nat :| j < |ls| && ls[j] == ph;
        forall k | j < k < |ls| ensures Apart(Area(ls[j]), Reach(ls[k])) {
          assert Apart(Area(ls[j]), Area(ls[k]));
        }
        assert Clear(ls, j);
      }
    }
  }

  /** Where no header wraps, every byte of every loaded segment follows its header. */
  lemma AllFollowHeaders(a: Memory, m: Memory, root: Frame, areas: seq<Vma>, ls: seq<ProgHdr>, binary: nat -> nat,
                         room: nat)
    requires Loads(a, root, ls, room) && AllInPlace(m, areas, root, ls, binary) && Sorted(areas)
    requires forall ph :: ph in ls ==> Words(ph) && !Wraps(ph)
    ensures forall ph, b :: ph in ls && ph.va <= b < ph.va + ph.memsz ==> FollowsHeader(areas, b, ph.flags)
  {
    hide Loads, AllInPlace, InPlace, Sorted, FollowsHeader;
    AllLoadedInPlace(a, m, root, areas, ls, binary, room);
    forall ph | ph in ls ensures forall b :: ph.va <= b < ph.va + ph.memsz ==> FollowsHeader(areas, b, ph.flags) {
      InPlaceAccess(m, areas, root, ph, binary);
    }
  }

  /** The pages of segments with areas apart from each other are distinct user pages. */
  lemma {:induction false} AllPagesDistinct(ls: seq<ProgHdr>)
    requires AllApart(ls) && forall ph :: ph in ls ==> Words(ph) && Acceptable(ph) && !Wraps(ph)
    ensures Distinct(AllPages(ls))
    ensures forall p :: p in AllPages(ls) ==> p < USER_PAGES && exists i :: 0 <= i < |ls| && Covers(Area(ls[i]), Addr(p))
  {
    hide Area, SegmentPages, Covers, Apart;
    if ls != [] {
      var r, ph := ls[..|ls| - 1], ls[|ls| - 1];
      assert ls == r + [ph];
      assert AllApart(r) by {
        assert forall i :: 0 <= i < |r| ==> r[i] == ls[i];
      }
      AllPagesDistinct(r);
      SegmentPagesIn(ph);
      forall p | p in AllPages(r) ensures p !in SegmentPages(ph) {
        var i :| 0 <= i < |r| && Covers(Area(r[i]), Addr(p));
        assert Apart(Area(ls[i]), Area(ls[|r|]));
        ApartCover(Area(r[i]), Area(ph), Addr(p));
      }
      DistinctConcat(AllPages(r), SegmentPages(ph));
      forall p | p in AllPages(ls) ensures p < USER_PAGES && exists i :: 0 <= i < |ls| && Covers(Area(ls[i]), Addr(p)) {
        if p in AllPages(r) {
          var i :| 0 <= i < |r| && Covers(Area(r[i]), Addr(p));
          assert Covers(Area(ls[i]), Addr(p));
        } else {
          assert Covers(Area(ls[|r|]), Addr(p));
        }
      }
    }
  }

  lemma ApartCover(u: Vma, v: Vma, addr: nat)
    requires Apart(u, v) && Covers(u, addr)
    ensures !Covers(v, addr)
  {
  }

  lemma SegmentPagesIn(ph: ProgHdr)
    requires Words(ph) && Acceptable(ph) && !Wraps(ph)
    ensures Distinct(SegmentPages(ph))
    ensures forall p :: p in SegmentPages(ph) ==> p < USER_PAGES && Covers(Area(ph), Addr(p))
  {
    hide Area, RoundDown, RoundUp, Overruns;
    AreaFacts(ph);
  }

  /** Into a fresh address space, headers that do not wrap load exactly when they are
      acceptable, their areas apart, and there are vma_structs for the areas and frames for
      the pages and their tables. */
  lemma LoadsIff(a: Memory, root: Frame, ls: seq<ProgHdr>, room: nat)
    requires FreshRoot(a, root) && forall ph :: ph in ls ==> Words(ph) && !Wraps(ph)
    ensures Loads(a, root, ls, room) <==>
              && |ls| <= room && (forall ph :: ph in ls ==> Acceptable(ph)) && AllApart(ls)
              && |a.free| >= FreshFrames(AllPages(ls))
  {
    hide FreshRoot, Verdict, Acceptable, AllApart, AllPages, FreshFrames, Wraps, Distinct;
    if AllApart(ls) && forall ph :: ph in ls ==> Acceptable(ph) {
      AllPagesDistinct(ls);
      VerdictFresh(a, root, AllPages(ls));
    }
  }

  /** A refusal for a bad header is one of its own file size; the order of the areas does
      not matter. */
  lemma NotLoaded(ph: ProgHdr, areas: seq<Vma>, vs: seq<Vma>, room: bool, pages: Outcome)
    requires multiset(areas) == multiset(vs)
    ensures SegmentResult(ph, areas, room, pages) == InvalidElf ==> Loadable(ph) && ph.filesz > ph.memsz
    ensures SegmentResult(ph, areas, room, pages) == SegmentResult(ph, vs, room, pages)
  {
    hide Area;
    assert forall u :: u in areas <==> u in multiset(vs);
    assert forall u :: u in vs <==> u in areas;
  }

  /** load_icode up to the stack. It reports success exactly for a good magic number and
      segments that load; every segment is then in place unless its end wraps or a later one
      with a wrapping end mapped over it, and no other address space has moved. */
  method LoadFile(s: AddressSpaces, mm: Mm, magic: nat, headers: seq<ProgHdr>, binary: nat -> nat, room: nat)
    returns (r: LoadResult)
    requires Ok(s.m, s.lv) && mm.Valid() && mm.vmas == [] && IsRoot(s.lv, mm.pgdir)
    requires forall ph :: ph in headers ==> Words(ph)
    modifies s, mm
    ensures Ok(s.m, s.lv) && mm.Valid() && KeepsRoots(old(s.lv), s.lv) && Conserved(old(s.m), old(s.lv), s.m, s.lv)
    ensures r == Loaded <==> magic == ELF_MAGIC && Loads(old(s.m), mm.pgdir, Segments(headers), room)
    ensures r == Loaded ==> AllInPlace(s.m, mm.vmas, mm.pgdir, Segments(headers), binary)
    ensures r == Loaded ==> multiset(mm.vmas) == multiset(Areas(Segments(headers)))
    ensures r == InvalidElf ==> magic != ELF_MAGIC || exists ph :: ph in headers && Loadable(ph) && ph.filesz > ph.memsz
    ensures magic != ELF_MAGIC ==> r == InvalidElf
    ensures magic == ELF_MAGIC && r != Loaded ==> exists i ::
              && 0 <= i < |headers| && Loads(old(s.m), mm.pgdir, Segments(headers[..i]), room)
              && r == TurnResult(old(s.m), mm.pgdir, headers, i, room)
    ensures r == Loaded ==> forall q, lb: nat {:trigger SameAt(old(s.m), s.m, q, lb)} ::
              IsRoot(old(s.lv), q) && User(lb) && q != mm.pgdir ==> SameAt(old(s.m), s.m, q, lb)
  {
    hide Held, Ok, Sorted, Ledger, Verdict, Conserved, Area, Segments, Areas, SegmentPages, Reach, Acceptable, Overruns,
         InPlace, MapVerdict, Loads, SameAt, AllInPlace, AllPages;
    ConservedRefl(s.m, s.lv);
    SameRoots(s.lv);
    if magic != ELF_MAGIC {
      return InvalidElf;
    }
    StartElsewhere(s.m, s.lv, mm.pgdir);
    LoadsNothing(s.m, s.lv, mm.pgdir, room, binary);
    var i, left := 0, room;
    ghost var ls: seq<ProgHdr> := [];
    assert headers[..0] == [];
    while i < |headers|
      invariant 0 <= i <= |headers| && ls == Segments(headers[..i]) && left == room - |ls|
      invariant Ok(s.m, s.lv) && mm.Valid() && KeepsRoots(old(s.lv), s.lv) && IsRoot(s.lv, mm.pgdir)
      invariant Loads(old(s.m), mm.pgdir, ls, room) && Ledger(old(s.m), s.m, mm.pgdir, AllPages(ls))
      invariant multiset(mm.vmas) == multiset(Areas(ls)) && AllInPlace(s.m, mm.vmas, mm.pgdir, ls, binary)
      invariant Elsewhere(old(s.m), old(s.lv), s.m, mm.pgdir, 0, USERTOP) && Conserved(old(s.m), old(s.lv), s.m, s.lv)
    {
      ghost var m, lv, vmas, ph := s.m, s.lv, mm.vmas, headers[i];
      var one := LoadSegment(s, mm, headers[i], binary, left > 0, old(s.m), AllPages(ls));
      ConservedTrans(old(s.m), old(s.lv), m, lv, s.m, s.lv);
      SegmentsNext(old(s.m), mm.pgdir, headers, i, vmas, room);
      if one != Loaded {
        NotLoaded(ph, vmas, Areas(ls), left > 0, Verdict(old(s.m), mm.pgdir, AllPages(ls), SegmentPages(ph)));
        assert one == TurnResult(old(s.m), mm.pgdir, headers, i, room);
        return one;
      }
      if headers[i].kind == ELF_PT_LOAD {
        left := left - 1;
        NextSegment(old(s.m), old(s.lv), m, lv, s.m, s.lv, mm.pgdir, ls, ph, binary, vmas, mm.vmas);
        ls := ls + [ph];
      }
      i := i + 1;
    }
    assert headers[..i] == headers;
    r := Loaded;
  }

  // ----- two headers that wrap -----

  /** mm_map accepts this header: the end of its memory wraps around to the page of its
      start. The file byte is copied and the memset that follows gets a size below zero. */
  lemma WrappedTail()
    ensures var ph := ProgHdr(ELF_PT_LOAD, 4, 0, 0x20_0800, 1, WORDS - 1);
            && Words(ph) && Area(ph) == Vma(0x20_0000, 0x20_1000, VM_READ) && Overruns(ph)
            && FilePages(ph) == [0x200]
            && SegmentResult(ph, [], true, Done) == Overrun
  {
    var ph := ProgHdr(ELF_PT_LOAD, 4, 0, 0x20_0800, 1, WORDS - 1);
    assert FileEnd(ph) == 0x20_0801 && Hi(ph.va, FileEnd(ph)) == 0x201;
    assert (ph.va + ph.memsz) % WORDS == 0x20_07FF;
  }

  /** The same without file bytes: reported as loaded with not a page mapped. */
  lemma WrappedNothing()
    ensures var ph := ProgHdr(ELF_PT_LOAD, 4, 0, 0x20_0800, 0, WORDS - 1);
            && Words(ph) && SegmentPages(ph) == [] && SegmentResult(ph, [], true, Done) == Loaded
            && forall m, areas, root, binary :: !InPlace(m, areas, root, ph, binary)
  {
    var ph := ProgHdr(ELF_PT_LOAD, 4, 0, 0x20_0800, 0, WORDS - 1);
    assert (ph.va + ph.memsz) % WORDS == 0x20_07FF;
  }
}
