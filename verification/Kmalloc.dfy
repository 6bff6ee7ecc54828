/** __kmalloc and kfree of kern/mm/kmalloc.c over the SLOB heap: small objects with a header,
    and big blocks of whole pages recorded in a linked list. */
module Kmalloc {
  import opened Lists
  import opened PageRuns
  import opened Slob
  import opened Wrappers

  const NULL: Addr := 0
  const WORDS := 0x1_0000_0000_0000_0000
  const TWO31 := 0x8000_0000
  const TWO32 := 0x1_0000_0000

  /** sizeof(bigblock_t), in units. */
  const BIG_UNITS: nat := 2

  /** struct bigblock. It overlays the two units slob_alloc gave for it, header and all. */
  datatype Big = Big(order: nat, pages: Addr, next: Addr)

  // ----- find_order -----

  function Pow2(n: nat): (p: nat)
    ensures p >= 1
  {
    if n == 0 then 1 else 2 * Pow2(n - 1)
  }

  /** The conversion of a size_t argument to int. */
  function ToInt(size: nat): (r: int)
    ensures r < TWO31 && (size < TWO31 ==> r == size) && (TWO31 <= size < TWO32 ==> r < 0)
  {
    if size % TWO32 < TWO31 then size % TWO32 else size % TWO32 - TWO32
  }

  function OrderOf(size: int): nat {
    if size > PAGE_SIZE then 1 + OrderOf(size / 2) else 0
  }

  method FindOrder(size: int) returns (order: nat)
    ensures order == OrderOf(size)
  {
    order := 0;
    var n := size;
    while n > PAGE_SIZE
      invariant order + OrderOf(n) == OrderOf(size)
    {
      n := n / 2;
      order := order + 1;
    }
  }

  /** Halving rounds down, so sizes up to one byte short of 4097 * 2^k get order k. */
  lemma {:induction false} OrderRange(size: int)
    ensures var k := OrderOf(size);
            && size < (PAGE_SIZE + 1) * Pow2(k)
            && if k == 0 then size <= PAGE_SIZE else (PAGE_SIZE + 1) * Pow2(k - 1) <= size
  {
    if size > PAGE_SIZE {
      OrderRange(size / 2);
    }
  }

  lemma {:induction false} Pow2Mono(j: nat, k: nat)
    ensures j <= k ==> Pow2(j) <= Pow2(k)
    ensures j < k ==> 2 * Pow2(j) <= Pow2(k)
    decreases k
  {
    if j < k {
      Pow2Mono(j, k - 1);
    }
  }

  /** size lies just above a power of two of whole pages. */
  ghost predicate JustAbove(size: nat) {
    exists k {:trigger Pow2(k)} :: k > 0 && PAGE_SIZE * Pow2(k) < size < (PAGE_SIZE + 1) * Pow2(k)
  }

  /** The bytes behind a big block. */
  function BigBytes(size: nat): nat {
    PAGE_SIZE * Pow2(OrderOf(ToInt(size)))
  }

  /** A big block is as large as was asked for exactly when the size fits an int and does not
      lie within 2^k bytes above 4096 * 2^k for any order k above 0. */
  lemma BigEnoughIff(size: nat)
    requires size < WORDS
    ensures BigBytes(size) >= size <==> size < TWO31 && !JustAbove(size)
  {
    var s := ToInt(size);
    var k := OrderOf(s);
    OrderRange(s);
    if size < TWO31 {
      if BigBytes(size) >= size && JustAbove(size) {
        var j: nat :| j > 0 && PAGE_SIZE * Pow2(j) < size < (PAGE_SIZE + 1) * Pow2(j);
        Pow2Mono(k, j);
        Pow2Mono(j, if k > 0 then k - 1 else 0);
      }
    } else if k > 0 {
      assert 2 * Pow2(k - 1) == Pow2(k);
    }
  }

  /** kmalloc(8193) gets two pages. */
  lemma OneByteShort()
    ensures BigBytes(8193) == 8192
  {
    assert OrderOf(8193) == 1 + OrderOf(4096);
    assert Pow2(1) == 2 * Pow2(0);
  }

  // ----- the list of big blocks -----

  function At(s: seq<Addr>, i: int): Addr {
    if 0 <= i < |s| then s[i] else NULL
  }

  ghost predicate BigAt(bigs: map<Addr, Big>, s: seq<Addr>, i: int)
    requires 0 <= i < |s|
  {
    s[i] != NULL && s[i] in bigs && bigs[s[i]].next == At(s, i + 1)
  }

  /** `bigblocks` and the next fields spell the list s. */
  ghost predicate Linked(bigs: map<Addr, Big>, head: Addr, s: seq<Addr>) {
    && Distinct(s) && head == At(s, 0)
    && forall i {:trigger BigAt(bigs, s, i)} :: 0 <= i < |s| ==> BigAt(bigs, s, i)
  }

  function PagesOf(b: Big): Run {
    Run(b.pages, PAGE_UNITS * Pow2(b.order))
  }

  ghost predicate AlignedAt(bigs: map<Addr, Big>, h: Addr)
    requires h in bigs
  {
    bigs[h].pages % PAGE_UNITS == 0
  }

  /** Records of different blocks are of different pages, all page-aligned. */
  ghost predicate Records(bigs: map<Addr, Big>, s: seq<Addr>) {
    && (forall h :: h in s ==> h in bigs && AlignedAt(bigs, h))
    && forall h, k :: h in s && k in s && h != k ==> bigs[h].pages != bigs[k].pages
  }

  /** What the heap must keep off: the records and the pages. */
  ghost function HeldBy(bigs: map<Addr, Big>, s: seq<Addr>): set<Run> {
    (set h | h in s :: Run(h, BIG_UNITS)) + set h | h in s && h in bigs :: PagesOf(bigs[h])
  }

  lemma PushBig(bigs: map<Addr, Big>, head: Addr, s: seq<Addr>, h: Addr, order: nat, pages: Addr)
    requires Linked(bigs, head, s) && Records(bigs, s) && h != NULL && h !in s && pages % PAGE_UNITS == 0
    requires forall k :: k in s ==> bigs[k].pages != pages
    ensures var b := Big(order, pages, head); var bigs' := bigs[h := b];
            && Linked(bigs', h, [h] + s) && Records(bigs', [h] + s)
            && HeldBy(bigs', [h] + s) == HeldBy(bigs, s) + {Run(h, BIG_UNITS), PagesOf(b)}
  {
    var b := Big(order, pages, head);
    var bigs', t := bigs[h := b], [h] + s;
    DistinctCons(h, s);
    forall i | 0 <= i < |t| ensures BigAt(bigs', t, i) {
      if i > 0 {
        assert BigAt(bigs, s, i - 1) && s[i - 1] in s;
      }
    }
    assert forall k :: k in t <==> k == h || k in s;
    forall r ensures r in HeldBy(bigs', t) <==> r in HeldBy(bigs, s) + {Run(h, BIG_UNITS), PagesOf(b)} {
      if r in HeldBy(bigs, s) {
        var k :| k in s && (r == Run(k, BIG_UNITS) || r == PagesOf(bigs[k]));
        assert k in t && bigs'[k] == bigs[k];
      }
      assert h in t;
    }
  }

  /** *last = bb->next for the i-th record. */
  function CutBig(bigs: map<Addr, Big>, prev: Addr, next: Addr): map<Addr, Big> {
    if prev in bigs && prev != NULL then bigs[prev := bigs[prev].(next := next)] else bigs
  }

  lemma PopBig(bigs: map<Addr, Big>, head: Addr, s: seq<Addr>, i: nat)
    requires Linked(bigs, head, s) && Records(bigs, s) && i < |s|
    ensures var h, t := s[i], Lists.Without(s, s[i]); var bigs' := CutBig(bigs, At(s, i - 1), At(s, i + 1));
            && Linked(bigs', if i == 0 then At(s, 1) else head, t) && Records(bigs', t)
            && HeldBy(bigs', t) == HeldBy(bigs, s) - {Run(h, BIG_UNITS), PagesOf(bigs[h])}
  {
    hide HeldBy, Lists.Without, Linked;
    var h, t := s[i], Lists.Without(s, s[i]);
    var bigs' := CutBig(bigs, At(s, i - 1), At(s, i + 1));
    LinkedDistinct(bigs, head, s);
    WithoutAt(s, i);
    WithoutDistinct(s, h);
    PopLinks(bigs, head, s, i);
    HeldLess(bigs, bigs', s, t, h);
  }

  lemma LinkedDistinct(bigs: map<Addr, Big>, head: Addr, s: seq<Addr>)
    requires Linked(bigs, head, s)
    ensures Distinct(s)
  {
  }

  lemma PopLinks(bigs: map<Addr, Big>, head: Addr, s: seq<Addr>, i: nat)
    requires Linked(bigs, head, s) && i < |s| && Distinct(s[..i] + s[i + 1..])
    ensures Linked(CutBig(bigs, At(s, i - 1), At(s, i + 1)), if i == 0 then At(s, 1) else head, s[..i] + s[i + 1..])
  {
    hide Distinct;
    var bigs', t := CutBig(bigs, At(s, i - 1), At(s, i + 1)), s[..i] + s[i + 1..];
    forall j | 0 <= j < |t| ensures BigAt(bigs', t, j) {
      var k := if j < i then j else j + 1;
      assert BigAt(bigs, s, k) && t[j] == s[k];
      if i > 0 {
        Differ(s, i - 1, k, bigs, head);
      }
    }
  }

  lemma Differ(s: seq<Addr>, i: nat, k: nat, bigs: map<Addr, Big>, head: Addr)
    requires Linked(bigs, head, s) && i < |s| && k < |s|
    ensures s[i] == s[k] ==> i == k
  {
  }

  lemma HeldLess(bigs: map<Addr, Big>, bigs': map<Addr, Big>, s: seq<Addr>, t: seq<Addr>, h: Addr)
    requires Records(bigs, s) && h in s && forall k :: k in t <==> k in s && k != h
    requires forall k :: k in bigs ==> k in bigs' && bigs'[k].order == bigs[k].order && bigs'[k].pages == bigs[k].pages
    ensures HeldBy(bigs', t) == HeldBy(bigs, s) - {Run(h, BIG_UNITS), PagesOf(bigs[h])}
  {
    forall r ensures r in HeldBy(bigs', t) <==> r in HeldBy(bigs, s) - {Run(h, BIG_UNITS), PagesOf(bigs[h])} {
      if r in HeldBy(bigs', t) {
        var k :| k in t && (r == Run(k, BIG_UNITS) || r == PagesOf(bigs'[k]));
        assert PagesOf(bigs'[k]) == PagesOf(bigs[k]) && k in s;
      }
      if r in HeldBy(bigs, s) && r != Run(h, BIG_UNITS) && r != PagesOf(bigs[h]) {
        var k :| k in s && (r == Run(k, BIG_UNITS) || r == PagesOf(bigs[k]));
        assert k in t && PagesOf(bigs'[k]) == PagesOf(bigs[k]);
      }
    }
  }

  /** A run that is fresh stays so when a block is cut off free units and a page elsewhere. */
  lemma FreshStill(arena: Addr, ring: seq<Run>, taken: set<Run>, ring': seq<Run>, grew: bool, page: Run, b: Run, p: Run)
    requires Fresh(arena, ring, taken, p) && (grew ==> Apart2(page, p))
    requires forall x :: InRuns(ring', x) || Covers(b, x) ==> InRuns(ring, x) || (grew && Covers(page, x))
    ensures Fresh(arena, ring', taken + {b}, p)
  {
  }

  lemma NewRecord(bigs: map<Addr, Big>, s: seq<Addr>, live: set<Run>, held: set<Run>, h: Addr, p: Run)
    requires Records(bigs, s) && held == HeldBy(bigs, s) && live !! held && Run(h, BIG_UNITS) in live && p.len > 0
    requires forall q :: q in held ==> Apart2(q, p)
    ensures h !in s && forall k :: k in s ==> bigs[k].pages != p.at
  {
    forall k | k in s ensures k != h && bigs[k].pages != p.at {
      assert Run(k, BIG_UNITS) in held && PagesOf(bigs[k]) in held;
      assert Covers(PagesOf(bigs[k]), bigs[k].pages);
      assert Covers(p, p.at);
    }
  }

  /** The units of the heap behind what kmalloc returned. */
  function BlockOf(size: nat, r: KmallocResult, s: seq<Addr>): Run
    requires r.Ptr? && (size >= PAGE_SIZE - SLOB_UNIT ==> s != [])
  {
    if size < PAGE_SIZE - SLOB_UNIT then Run(r.payload - 1, Units(size + SLOB_UNIT)) else Run(s[0], BIG_UNITS)
  }

  // ----- the heap with its big blocks -----

  class KernelHeap {
    const heap: Heap
    var bigblocks: Addr
    var bigs: map<Addr, Big>
    ghost var list: seq<Addr>

    ghost predicate Valid()
      reads this, heap
    {
      && heap.arena > 0 && heap.Valid() && Linked(bigs, bigblocks, list) && Records(bigs, list)
      && heap.held == HeldBy(bigs, list)
    }

    constructor (arena: Addr)
      requires arena > 0
      ensures Valid() && list == [] && fresh(heap) && heap.ring == [Run(arena, 1)] && heap.live == {}
    {
      heap := new Heap(arena);
      bigblocks, bigs, list := NULL, map[], [];
    }

    /** __kmalloc. `page` is what slob_alloc gets when it asks for a page, `pages` what a big
        block gets. A big block's pages begin at the pointer returned; its record is a block
        of two units from the heap, which goes back when there are no pages. */
    method Kmalloc(size: nat, page: Option<Addr>, pages: Option<Addr>) returns (r: KmallocResult, ghost grew: bool)
      requires Valid() && size < WORDS
      requires page.Some? ==> FreshPage(heap.arena, heap.ring, heap.live + heap.held, page.value)
      requires pages.Some? ==>
                 var p := Run(pages.value, PAGE_UNITS * Pow2(OrderOf(ToInt(size))));
                 && pages.value % PAGE_UNITS == 0 && Fresh(heap.arena, heap.ring, heap.live + heap.held, p)
                 && (page.Some? ==> Apart2(Run(page.value, PAGE_UNITS), p))
      modifies this, heap
      ensures size < PAGE_SIZE - SLOB_UNIT ==>
                && bigs == old(bigs) && list == old(list)
                && (r.Panic? <==> size >= PAGE_SIZE - 2 * SLOB_UNIT)
                && (!(size == 0 && old(heap.TakesArena(1))) ==> Valid())
                && (!r.Ptr? ==> heap.live == old(heap.live))
                && (r.Ptr? && !(size == 0 && old(heap.TakesArena(1))) ==>
                      var b := Run(r.payload - 1, Units(size + SLOB_UNIT));
                      b !in old(heap.live) && heap.live == old(heap.live) + {b} && (b.len - 1) * SLOB_UNIT >= size)
      ensures size >= PAGE_SIZE - SLOB_UNIT ==>
                && Valid() && !r.Panic? && heap.live == old(heap.live)
                && (r.NullPtr? <==> pages.None? || (NoFit(old(heap.ring), BIG_UNITS) && page.None?))
                && (r.NullPtr? ==> list == old(list) && bigs == old(bigs))
                && (r.Ptr? ==>
                      && list != [] && list[0] !in old(list) && list == [list[0]] + old(list)
                      && bigs[list[0]].pages == r.payload == pages.value
                      && bigs == old(bigs)[list[0] := Big(OrderOf(ToInt(size)), r.payload, old(bigblocks))])
      ensures !(size == 0 && old(heap.TakesArena(1))) ==> forall x ::
                (InRuns(old(heap.ring), x) || (grew && page.Some? && Covers(Run(page.value, PAGE_UNITS), x)))
                <==> (InRuns(heap.ring, x) || (r.Ptr? && Covers(BlockOf(size, r, list), x)))
    {
      if size < PAGE_SIZE - SLOB_UNIT {
        r, grew := heap.SmallAlloc(size, page);
        return;
      }
      r, grew := BigAlloc(size, page, pages);
    }

    /** The big-block branch of __kmalloc. */
    method BigAlloc(size: nat, page: Option<Addr>, pages: Option<Addr>) returns (r: KmallocResult, ghost grew: bool)
      requires Valid() && size < WORDS
      requires page.Some? ==> FreshPage(heap.arena, heap.ring, heap.live + heap.held, page.value)
      requires pages.Some? ==>
                 var p := Run(pages.value, PAGE_UNITS * Pow2(OrderOf(ToInt(size))));
                 && pages.value % PAGE_UNITS == 0 && Fresh(heap.arena, heap.ring, heap.live + heap.held, p)
                 && (page.Some? ==> Apart2(Run(page.value, PAGE_UNITS), p))
      modifies this, heap
      ensures Valid() && !r.Panic? && heap.live == old(heap.live)
      ensures r.NullPtr? <==> pages.None? || (NoFit(old(heap.ring), BIG_UNITS) && page.None?)
      ensures r.NullPtr? ==> list == old(list) && bigs == old(bigs)
      ensures r.Ptr? ==>
                && list != [] && list[0] !in old(list) && list == [list[0]] + old(list)
                && bigs[list[0]].pages == r.payload == pages.value
                && bigs == old(bigs)[list[0] := Big(OrderOf(ToInt(size)), r.payload, old(bigblocks))]
      ensures forall x ::
                (InRuns(old(heap.ring), x) || (grew && page.Some? && Covers(Run(page.value, PAGE_UNITS), x)))
                <==> (InRuns(heap.ring, x) || (r.Ptr? && Covers(Run(list[0], BIG_UNITS), x)))
    {
      hide Linked, Records, HeldBy, OrderOf, ToInt, TakenNext;
      var bb;
      bb, grew := heap.Alloc(BIG_UNITS, page);
      if bb.None? {
        return NullPtr, grew;
      }
      ghost var b := Run(bb.value, BIG_UNITS);
      var order := FindOrder(ToInt(size));
      if pages.None? {
        heap.Free(bb.value, b);
        return NullPtr, grew;
      }
      ghost var p := Run(pages.value, PAGE_UNITS * Pow2(order));
      FreshStill(heap.arena, old(heap.ring), old(heap.live + heap.held), heap.ring, grew,
                 if page.Some? then Run(page.value, PAGE_UNITS) else b, b, p);
      assert heap.live + heap.held == old(heap.live + heap.held) + {b};
      NewRecord(bigs, list, heap.live, heap.held, bb.value, p);
      heap.Overlay(bb.value, Block(order, pages.value), b);
      heap.Hold(p);
      PushBig(bigs, bigblocks, list, bb.value, order, pages.value);
      bigs := bigs[bb.value := Big(order, pages.value, bigblocks)];
      bigblocks := bb.value;
      list := [bb.value] + list;
      r := Ptr(pages.value);
    }

    /** The search of kfree for a record of these pages. */
    method FindBig(block: Addr) returns (prev: Addr, bb: Addr, ghost i: nat)
      requires Linked(bigs, bigblocks, list)
      ensures i <= |list| && bb == At(list, i) && prev == At(list, i - 1)
      ensures forall j :: 0 <= j < i ==> list[j] in bigs && bigs[list[j]].pages != block
      ensures bb == NULL <==> i == |list|
      ensures bb != NULL ==> bb in bigs && bigs[bb].pages == block
    {
      prev, bb, i := NULL, bigblocks, 0;
      assert list != [] ==> BigAt(bigs, list, 0);
      while bb != NULL
        invariant i <= |list| && bb == At(list, i) && prev == At(list, i - 1)
        invariant bb == NULL <==> i == |list|
        invariant forall j :: 0 <= j < i ==> list[j] in bigs && bigs[list[j]].pages != block
        decreases |list| - i
      {
        assert BigAt(bigs, list, i);
        if bigs[bb].pages == block {
          return;
        }
        prev, bb, i := bb, bigs[bb].next, i + 1;
        assert i < |list| ==> BigAt(bigs, list, i);
      }
    }

    /** kfree. The null pointer does nothing; a pointer to the pages of a big block gives the
        pages back (`given`) and the record to the heap; any other gives back the block whose
        header is in front of it. `b` is that block. */
    method Kfree(block: Addr, ghost b: Run) returns (given: Option<Run>)
      requires Valid()
      requires block == NULL || (exists h :: h in list && h in bigs && bigs[h].pages == block)
               || (b in heap.live && b.at == block - 1)
      modifies this, heap
      ensures Valid()
      ensures block == NULL ==>
                given == None && list == old(list) && heap.live == old(heap.live) && heap.ring == old(heap.ring)
      ensures given.Some? <==> block != NULL && exists h :: h in old(list) && old(bigs)[h].pages == block
      ensures forall h :: block != NULL && h in old(list) && old(bigs)[h].pages == block ==>
                && given == Some(PagesOf(old(bigs)[h])) && list == Lists.Without(old(list), h)
                && heap.live == old(heap.live)
                && forall x :: InRuns(heap.ring, x) <==> InRuns(old(heap.ring), x) || Covers(Run(h, BIG_UNITS), x)
      ensures block != NULL && given.None? ==>
                && list == old(list) && bigs == old(bigs) && heap.live == old(heap.live) - {b}
                && forall x :: InRuns(heap.ring, x) <==> InRuns(old(heap.ring), x) || Covers(b, x)
    {
      hide Linked, Records, HeldBy, CutBig;
      given := None;
      if block == NULL {
        return;
      }
      RecordsAt(bigs, list);
      if block % PAGE_UNITS == 0 {
        var prev, bb, i := FindBig(block);
        if bb != NULL {
          given := FreeBig(prev, bb, i);
          return;
        }
      }
      heap.Free(block - 1, b);
    }

    /** kmalloc and kfree of the pointer it returned, for one byte at least: the same blocks
        are handed out as before, the same units are free beside a page the heap may have
        grown by, and a big block's pages come back. */
    method RoundTrip(size: nat, page: Option<Addr>, pages: Option<Addr>) returns (given: Option<Run>)
      requires Valid() && 1 <= size < WORDS
      requires page.Some? ==> FreshPage(heap.arena, heap.ring, heap.live + heap.held, page.value)
      requires pages.Some? ==>
                 var p := Run(pages.value, PAGE_UNITS * Pow2(OrderOf(ToInt(size))));
                 && pages.value % PAGE_UNITS == 0 && Fresh(heap.arena, heap.ring, heap.live + heap.held, p)
                 && (page.Some? ==> Apart2(Run(page.value, PAGE_UNITS), p))
      modifies this, heap
      ensures Valid() && heap.live == old(heap.live) && list == old(list)
      ensures forall x :: InRuns(old(heap.ring), x) ==> InRuns(heap.ring, x)
      ensures forall x :: InRuns(heap.ring, x) ==>
                InRuns(old(heap.ring), x) || (page.Some? && Covers(Run(page.value, PAGE_UNITS), x))
      ensures given.Some? ==> pages.Some? && given.value == Run(pages.value, PAGE_UNITS * Pow2(OrderOf(ToInt(size))))
    {
      hide Linked, Records, HeldBy, OrderOf, ToInt, Pow2;
      given := None;
      var r, grew := Kmalloc(size, page, pages);
      if r.Ptr? {
        ghost var b := Run(r.payload - 1, Units(size + SLOB_UNIT));
        if size < PAGE_SIZE - SLOB_UNIT {
          OneUnit(size);
          SmallIsNotBig(bigs, list, heap.live, heap.held, b);
          assert LiveBlock(heap.mem, heap.arena, heap.ring, b);
        } else {
          WithoutFirst(list);
          PagesAbove(heap.arena, heap.ring, heap.live, heap.held, bigs, list);
          assert list[0] in list && list[0] in bigs && bigs[list[0]].pages == r.payload;
          assert list[1..] == old(list);
        }
        label Allocated:
        ghost var h := if list == [] then NULL else list[0];
        assert r.payload != NULL;
        given := Kfree(r.payload, b);
        assert size >= PAGE_SIZE - SLOB_UNIT ==> h in old@Allocated(list) && given.Some?;
        assert size < PAGE_SIZE - SLOB_UNIT ==> given.None? && heap.live == old(heap.live) + {b} - {b};
      }
    }

    /** kfree of the i-th big block. */
    method FreeBig(prev: Addr, bb: Addr, ghost i: nat) returns (given: Option<Run>)
      requires Valid() && i < |list| && bb == list[i] && prev == At(list, i - 1)
      modifies this, heap
      ensures Valid() && bb in old(bigs) && given == Some(PagesOf(old(bigs)[bb]))
      ensures list == Lists.Without(old(list), bb) && heap.live == old(heap.live)
      ensures forall x :: InRuns(heap.ring, x) <==> InRuns(old(heap.ring), x) || Covers(Run(bb, BIG_UNITS), x)
    {
      hide Linked, Records, HeldBy;
      ghost var r := Run(bb, BIG_UNITS);
      BigKnown(bigs, bigblocks, list, i);
      PopBig(bigs, bigblocks, list, i);
      given := Some(PagesOf(bigs[bb]));
      var next := bigs[bb].next;
      if prev == NULL {
        bigblocks := next;
      } else {
        bigs := bigs[prev := bigs[prev].(next := next)];
      }
      list := Lists.Without(list, bb);
      heap.Drop(given.value);
      heap.Drop(r);
      heap.Give(bb, BIG_UNITS);
    }
  }

  lemma WithoutFirst(s: seq<Addr>)
    ensures s != [] ==> Lists.Without(s, s[0]) == s[1..]
  {
  }

  lemma PagesAbove(arena: Addr, ring: seq<Run>, live: set<Run>, held: set<Run>, bigs: map<Addr, Big>, s: seq<Addr>)
    requires Records(bigs, s) && held == HeldBy(bigs, s) && arena > 0 && forall r :: r in held ==> OffList(arena, ring, r)
    ensures forall h :: h in s ==> h in bigs && bigs[h].pages > 0
  {
    forall h | h in s ensures bigs[h].pages > 0 {
      assert OffList(arena, ring, PagesOf(bigs[h]));
    }
  }

  lemma RecordsAt(bigs: map<Addr, Big>, s: seq<Addr>)
    requires Records(bigs, s)
    ensures forall h :: h in s ==> h in bigs && bigs[h].pages % PAGE_UNITS == 0
    ensures forall h, k :: h in s && k in s && h != k ==> bigs[h].pages != bigs[k].pages
  {
    assert forall h :: h in s ==> AlignedAt(bigs, h);
  }

  lemma BigKnown(bigs: map<Addr, Big>, head: Addr, s: seq<Addr>, i: nat)
    requires Linked(bigs, head, s) && Records(bigs, s) && i < |s|
    ensures s[i] in bigs && s[i] != NULL && bigs[s[i]].next == At(s, i + 1)
    ensures i > 0 ==> s[i - 1] in bigs && s[i - 1] != NULL
    ensures i == 0 ==> head == s[0]
    ensures Run(s[i], BIG_UNITS) in HeldBy(bigs, s) && PagesOf(bigs[s[i]]) in HeldBy(bigs, s)
    ensures PagesOf(bigs[s[i]]) != Run(s[i], BIG_UNITS)
  {
    assert BigAt(bigs, s, i);
    assert i > 0 ==> BigAt(bigs, s, i - 1);
  }

  /** A small object of at least one byte is never taken for a big block. Only the pointer of
      a zero-byte object, which lies behind its one unit, can be that of somebody's pages. */
  lemma SmallIsNotBig(bigs: map<Addr, Big>, s: seq<Addr>, live: set<Run>, held: set<Run>, b: Run)
    requires Records(bigs, s) && held == HeldBy(bigs, s) && b in live && live !! held
    requires forall r, t :: r in live + held && t in live + held && r != t ==> Apart2(r, t)
    ensures b.len >= 2 ==> forall h :: h in s ==> bigs[h].pages != b.at + 1
  {
    forall h | h in s && b.len >= 2 ensures bigs[h].pages != b.at + 1 {
      assert PagesOf(bigs[h]) in held && Apart2(b, PagesOf(bigs[h]));
      assert Covers(b, b.at + 1) && Covers(PagesOf(bigs[h]), bigs[h].pages);
    }
  }
}
