/** The SLOB heap of kern/mm/kmalloc.c: a circular, address-ordered list of free blocks.
    Addresses count units of sizeof(slob_t) = 16 bytes. */
module Slob {
  import opened PageRuns
  import opened Wrappers

  type Addr = int

  /** struct slob_block. */
  datatype Block = Block(units: int, next: Addr)

  type Memory = map<Addr, Block>

  const SLOB_UNIT := 16
  const PAGE_SIZE := 4096
  const PAGE_UNITS: nat := 256

  /** SLOB_UNITS(size). */
  function Units(size: nat): (u: nat)
    ensures u * SLOB_UNIT >= size && (u > 0 ==> (u - 1) * SLOB_UNIT < size)
  {
    (size + SLOB_UNIT - 1) / SLOB_UNIT
  }

  /** The block after block i in the ring: addresses ascend with one descent, from the last
      block back to the first. */
  function NextAt(rs: seq<Run>, i: int): Addr
    requires 0 <= i < |rs|
  {
    if i + 1 < |rs| then rs[i + 1].at else rs[0].at
  }

  ghost predicate BlockAt(mem: Memory, rs: seq<Run>, i: int)
    requires 0 <= i < |rs|
  {
    rs[i].at in mem && mem[rs[i].at] == Block(rs[i].len, NextAt(rs, i))
  }

  /** The free blocks rs, threaded in address order into a circle. */
  ghost predicate Ring(mem: Memory, rs: seq<Run>) {
    forall i {:trigger BlockAt(mem, rs, i)} :: 0 <= i < |rs| ==> BlockAt(mem, rs, i)
  }

  function SetUnits(mem: Memory, a: Addr, u: int): Memory
    requires a in mem
  {
    mem[a := mem[a].(units := u)]
  }

  function SetNext(mem: Memory, a: Addr, v: Addr): Memory
    requires a in mem
  {
    mem[a := mem[a].(next := v)]
  }

  lemma RingBlock(mem: Memory, rs: seq<Run>, i: nat)
    requires Ring(mem, rs) && i < |rs|
    ensures BlockAt(mem, rs, i)
  {
  }

  lemma BlockLen(rs: seq<Run>, i: nat)
    requires Canonical(rs) && i < |rs|
    ensures rs[i].len > 0
  {
  }

  /** Heads of blocks in address order are distinct. */
  lemma HeadsApart(rs: seq<Run>, i: nat, j: nat)
    requires Canonical(rs) && i < |rs| && j < |rs|
    ensures i < j ==> rs[i].at < rs[j].at
    ensures rs[i].at == rs[j].at ==> i == j
  {
    assert i < j ==> Apart(rs[i], rs[j]);
    assert j < i ==> Apart(rs[j], rs[i]);
  }

  // ----- allocation: cutting units off the front of a block -----

  /** The writes of slob_alloc once block `cur` is found, `prev` being the one before it. */
  function Carve(mem: Memory, prev: Addr, cur: Addr, units: nat): Memory
    requires prev in mem && cur in mem
  {
    if mem[cur].units == units then
      SetNext(mem, prev, mem[cur].next)
    else
      var m1 := SetNext(mem, prev, cur + units);
      var m2 := m1[cur + units := Block(m1[cur].units - units, m1[cur].next)];
      SetUnits(m2, cur, units)
  }

  /** The index before i in a ring of n blocks. */
  function Pred(i: nat, n: nat): nat
    requires i < n
  {
    if i > 0 then i - 1 else n - 1
  }

  lemma CarveRing(mem: Memory, rs: seq<Run>, i: nat, units: nat)
    requires Ring(mem, rs) && Canonical(rs) && i < |rs| && |rs| > 1 && 0 < units <= rs[i].len
    ensures rs[Pred(i, |rs|)].at in mem && rs[i].at in mem
    ensures var m := Carve(mem, rs[Pred(i, |rs|)].at, rs[i].at, units);
            Ring(m, Take(rs, i, units)) && rs[i].at in m && m[rs[i].at].units == units
  {
    var p := Pred(i, |rs|);
    assert BlockAt(mem, rs, p) && BlockAt(mem, rs, i);
    var m := Carve(mem, rs[p].at, rs[i].at, units);
    var ts := Take(rs, i, units);
    HeadsApart(rs, p, i);
    forall j | 0 <= j < |ts| ensures BlockAt(m, ts, j) {
      TakeAt(rs, i, units, j);
      var k := Source(rs, i, units, j);
      assert BlockAt(mem, rs, k);
      HeadsApart(rs, k, p);
      HeadsApart(rs, k, i);
      assert k < i ==> Apart(rs[k], rs[i]);
      assert k > i ==> Apart(rs[i], rs[k]);
      assert p != i ==> if p < i then Apart(rs[p], rs[i]) else Apart(rs[i], rs[p]);
      NextTaken(rs, i, units, j);
    }
  }

  lemma NextTaken(rs: seq<Run>, i: nat, units: nat, j: nat)
    requires i < |rs| && |rs| > 1 && 0 < units <= rs[i].len && j < |Take(rs, i, units)|
    ensures var ts := Take(rs, i, units); var k := Source(rs, i, units, j);
            && k < |rs|
            && NextAt(ts, j) == if k == Pred(i, |rs|)
                                then (if rs[i].len > units then rs[i].at + units else NextAt(rs, i))
                                else NextAt(rs, k)
  {
    TakeAt(rs, i, units, j);
    var ts := Take(rs, i, units);
    TakeAt(rs, i, units, 0);
    if j + 1 < |ts| {
      TakeAt(rs, i, units, j + 1);
    }
  }

  /** A well-formed heap: a coalesced ring that slobfree points into. */
  ghost predicate WellFormed(mem: Memory, slobfree: Addr, rs: seq<Run>) {
    Canonical(rs) && Ring(mem, rs) && exists s :: 0 <= s < |rs| && slobfree == rs[s].at
  }

  /** Exactly the units of rs without the first `units` of block i. */
  ghost predicate Without(ts: seq<Run>, rs: seq<Run>, i: nat, units: nat)
    requires i < |rs|
  {
    forall x :: InRuns(ts, x) <==> InRuns(rs, x) && !(rs[i].at <= x < rs[i].at + units)
  }

  /** Carving a block leaves a well-formed heap of the remaining units exactly when the ring
      has another block: a lone block is its own predecessor, and slobfree then points to
      the units just handed out. */
  lemma CarveIff(mem: Memory, rs: seq<Run>, i: nat, units: nat)
    requires Ring(mem, rs) && Canonical(rs) && i < |rs| && 0 < units <= rs[i].len
    ensures rs[Pred(i, |rs|)].at in mem && rs[i].at in mem
    ensures var prev := rs[Pred(i, |rs|)].at;
            (exists ts :: WellFormed(Carve(mem, prev, rs[i].at, units), prev, ts) && Without(ts, rs, i, units))
            <==> |rs| > 1
  {
    var prev := rs[Pred(i, |rs|)].at;
    assert BlockAt(mem, rs, Pred(i, |rs|)) && BlockAt(mem, rs, i);
    if |rs| > 1 {
      CarveRing(mem, rs, i, units);
      TakeCanonical(rs, i, units);
      forall x ensures InRuns(Take(rs, i, units), x) <==> InRuns(rs, x) && !(rs[i].at <= x < rs[i].at + units) {
        TakePages(rs, i, units, x);
      }
      PredStays(rs, i, units);
      assert WellFormed(Carve(mem, prev, rs[i].at, units), prev, Take(rs, i, units));
      assert Without(Take(rs, i, units), rs, i, units);
    } else {
      forall ts: seq<Run> | WellFormed(Carve(mem, prev, rs[i].at, units), prev, ts)
        ensures !Without(ts, rs, i, units)
      {
        var s :| 0 <= s < |ts| && prev == ts[s].at;
        assert Covers(ts[s], prev) && InRuns(ts, prev);
      }
    }
  }

  /** The block before the carved one is still on the list. */
  lemma PredStays(rs: seq<Run>, i: nat, units: nat)
    requires i < |rs| && |rs| > 1 && 0 < units <= rs[i].len
    ensures exists s :: 0 <= s < |Take(rs, i, units)| && Take(rs, i, units)[s] == rs[Pred(i, |rs|)]
  {
    var p := Pred(i, |rs|);
    var s := if p < i || rs[i].len > units then p else p - 1;
    TakeAt(rs, i, units, s);
    assert Take(rs, i, units)[s] == rs[p];
  }

  // ----- freeing: linking a block in after `cur` and merging -----

  /** The writes of slob_free once the insertion point `cur` is found. */
  function LinkIn(mem: Memory, cur: Addr, b: Addr): Memory
    requires cur in mem && b in mem && mem[cur].next in mem && cur != b
  {
    var nx := mem[cur].next;
    var m1 := if b + mem[b].units == nx
              then mem[b := Block(mem[b].units + mem[nx].units, mem[nx].next)]
              else SetNext(mem, b, nx);
    if cur + m1[cur].units == b
    then m1[cur := Block(m1[cur].units + m1[b].units, m1[b].next)]
    else SetNext(m1, cur, b)
  }

  lemma LinkInRing(mem: Memory, rs: seq<Run>, b: Run, k: nat)
    requires Ring(mem, rs) && Canonical(rs) && SlotFor(rs, b, k) && k > 0 && b.len > 0
    requires DisjointFrom(rs, b) && b.at in mem && mem[b.at].units == b.len
    ensures rs[k - 1].at in mem && mem[rs[k - 1].at].next in mem && rs[k - 1].at != b.at
    ensures Ring(LinkIn(mem, rs[k - 1].at, b.at), Coalesce(rs, b, k))
  {
    hide LinkIn, Canonical, DisjointFrom, Coalesce;
    LinkInReady(mem, rs, b, k);
    var m, ts := LinkIn(mem, rs[k - 1].at, b.at), Coalesce(rs, b, k);
    forall j {:trigger BlockAt(m, ts, j)} | 0 <= j < |ts| ensures BlockAt(m, ts, j) {
      LinkInAt(mem, rs, b, k, j);
    }
  }

  lemma LinkInReady(mem: Memory, rs: seq<Run>, b: Run, k: nat)
    requires Ring(mem, rs) && Canonical(rs) && SlotFor(rs, b, k) && k > 0 && b.len > 0
    requires DisjointFrom(rs, b) && b.at in mem
    ensures rs[k - 1].at in mem && mem[rs[k - 1].at].next in mem && rs[k - 1].at != b.at
  {
    assert BlockAt(mem, rs, k - 1);
    assert BlockAt(mem, rs, if k < |rs| then k else 0);
  }

  lemma LinkInAt(mem: Memory, rs: seq<Run>, b: Run, k: nat, j: nat)
    requires Ring(mem, rs) && Canonical(rs) && SlotFor(rs, b, k) && k > 0 && b.len > 0
    requires DisjointFrom(rs, b) && b.at in mem && mem[b.at].units == b.len && k <= |rs| && j < |Coalesce(rs, b, k)|
    requires rs[k - 1].at in mem && mem[rs[k - 1].at].next in mem && rs[k - 1].at != b.at
    ensures BlockAt(LinkIn(mem, rs[k - 1].at, b.at), Coalesce(rs, b, k), j)
  {
    hide Canonical, DisjointFrom, SlotFor;
    RingBlock(mem, rs, k - 1);
    RingBlock(mem, rs, if k < |rs| then k else 0);
    SlotApart(rs, b, k, k - 1);
    if k < |rs| {
      SlotApart(rs, b, k, k);
    }
    var lo, hi := Lo(rs, b, k), Hi(rs, b, k);
    var i := if j < lo then j else if j > lo then j - lo - 1 + hi else k - 1;
    RingBlock(mem, rs, i);
    SlotApart(rs, b, k, i);
    SlotApart(rs, b, k, 0);
    BlockLen(rs, i);
    BlockLen(rs, 0);
    HeadsApart(rs, i, k - 1);
    if k < |rs| {
      HeadsApart(rs, i, k);
    }
  }

  // ----- the heap and what was handed out -----

  /** u steps around a ring of n blocks from block s. */
  function Around(s: int, u: int, n: int): int {
    if s + u < n then s + u else s + u - n
  }

  /** Block i is reached from block s after t steps, and no block passed on the way has room. */
  ghost predicate FirstAfter(rs: seq<Run>, s: nat, t: nat, units: nat, i: nat)
    requires s < |rs| && 1 <= t <= |rs|
  {
    i == Around(s, t, |rs|) && i < |rs| && rs[i].len >= units
    && forall u {:trigger Around(s, u, |rs|)} :: 1 <= u < t ==> rs[Around(s, u, |rs|)].len < units
  }

  /** Next fit: block i is the first with room from slobfree on. */
  ghost predicate NextFit(rs: seq<Run>, slobfree: Addr, units: nat, i: nat) {
    exists s: nat, t: nat ::
      s < |rs| && 1 <= t <= |rs| && slobfree == rs[s].at && FirstAfter(rs, s, t, units, i)
  }

  /** The block handed out is the next fit, its units are gone from the front of it, and slobfree
      points to the block before it. */
  ghost predicate TakenNext(rs: seq<Run>, slobfree: Addr, units: nat, at: Addr, slobfree': Addr, ts: seq<Run>) {
    exists i: nat ::
      && 0 < i < |rs| && NextFit(rs, slobfree, units, i) && at == rs[i].at && 0 < units <= rs[i].len
      && slobfree' == rs[i - 1].at && ts == Take(rs, i, units)
  }

  ghost predicate Apart2(r: Run, s: Run) {
    forall x :: !(Covers(r, x) && Covers(s, x))
  }

  /** Memory that is not the heap's: above the arena, away from free units. */
  ghost predicate OffList(arena: Addr, ring: seq<Run>, r: Run) {
    r.len > 0 && r.at > arena + 1 && DisjointFrom(ring, r)
  }

  /** A block handed out keeps its size in its header. */
  ghost predicate LiveBlock(mem: Memory, arena: Addr, ring: seq<Run>, r: Run) {
    OffList(arena, ring, r) && r.at in mem && mem[r.at].units == r.len
  }

  /** `live` are the blocks handed out with their headers; `held` is memory somebody else
      writes to as a whole, such as the pages of big blocks. */
  ghost predicate LiveOk(mem: Memory, arena: Addr, ring: seq<Run>, live: set<Run>, held: set<Run>) {
    && (forall r :: r in live ==> LiveBlock(mem, arena, ring, r))
    && (forall r :: r in held ==> OffList(arena, ring, r))
    && live !! held && forall r, t :: r in live + held && t in live + held && r != t ==> Apart2(r, t)
  }

  /** A run of units that nobody holds, above the arena with a gap. */
  ghost predicate Fresh(arena: Addr, ring: seq<Run>, taken: set<Run>, r: Run) {
    r.at > arena + 1 && DisjointFrom(ring, r) && forall q :: q in taken ==> Apart2(q, r)
  }

  /** Units of a new page that nobody holds. */
  ghost predicate FreshPage(arena: Addr, ring: seq<Run>, taken: set<Run>, page: Addr) {
    Fresh(arena, ring, taken, Run(page, PAGE_UNITS))
  }

  class Heap {
    const arena: Addr
    var mem: Memory
    var slobfree: Addr
    ghost var ring: seq<Run>
    ghost var live: set<Run>
    ghost var held: set<Run>

    ghost predicate RingOk()
      reads this
    {
      && ring != [] && ring[0] == Run(arena, 1) && Canonical(ring) && Ring(mem, ring)
      && exists s :: 0 <= s < |ring| && slobfree == ring[s].at
    }

    /** The free list is a ring in address order, disjoint and fully coalesced, that still
        holds the one-unit arena; blocks handed out are disjoint from it and each other. */
    ghost predicate Valid()
      reads this
    {
      RingOk() && LiveOk(mem, arena, ring, live, held)
    }

    /** The static initialisers. */
    constructor (a: Addr)
      ensures Valid() && arena == a && ring == [Run(a, 1)] && live == {} && held == {}
    {
      arena, mem, slobfree, ring, live, held := a, map[a := Block(1, a)], a, [Run(a, 1)], {}, {};
      new;
      assert BlockAt(mem, ring, 0) && slobfree == ring[0].at;
    }

    /** The block slob_alloc would cut for one unit is the arena: nothing but a request of one
        unit, which is one of zero bytes, comes to that. */
    predicate TakesArena(units: nat)
      reads this
    {
      units == 1 && arena in mem && slobfree in mem && mem[slobfree].next == arena
    }

    /** The search of slob_alloc: once around the ring, starting behind slobfree. */
    method Search(units: nat) returns (found: bool, prev: Addr, cur: Addr, ghost i: nat)
      requires RingOk() && units >= 1
      ensures found <==> !NoFit(ring, units)
      ensures found ==> i < |ring| && cur == ring[i].at && prev == ring[Pred(i, |ring|)].at && ring[i].len >= units
      ensures found ==> NextFit(ring, slobfree, units, i)
      ensures found ==> (i == 0 <==> TakesArena(units)) && (i == 0 ==> prev == slobfree)
    {
      hide Ring, Canonical;
      ghost var s :| 0 <= s < |ring| && slobfree == ring[s].at;
      ghost var n := |ring|;
      ghost var t := 1;
      RingBlock(mem, ring, s);
      prev, cur := slobfree, mem[slobfree].next;
      while true
        invariant 1 <= t <= n && cur == ring[Around(s, t, n)].at && prev == ring[Around(s, t - 1, n)].at
        invariant forall u :: 1 <= u < t ==> ring[Around(s, u, n)].len < units
        invariant t == 1 ==> prev == slobfree && cur == mem[slobfree].next
        invariant t > 1 ==> units > 1
        decreases n - t
      {
        i := Around(s, t, n);
        RingBlock(mem, ring, i);
        if mem[cur].units >= units {
          HeadsApart(ring, 0, i);
          assert FirstAfter(ring, s, t, units, i);
          return true, prev, cur, i;
        }
        HeadsApart(ring, i, s);
        BlockLen(ring, i);
        if cur == slobfree {
          forall j | 0 <= j < n ensures ring[j].len < units {
            var u := if j > s then j - s else j + n - s;
            assert Around(s, u, n) == j;
          }
          return false, prev, cur, i;
        }
        prev, cur := cur, mem[cur].next;
        t := t + 1;
      }
    }

    /** The search of slob_free for the block after which b belongs. */
    method FindSlot(b: Addr, ghost r: Run) returns (cur: Addr, ghost k: nat)
      requires RingOk() && r.at == b && r.len > 0 && b > arena + 1 && DisjointFrom(ring, r)
      ensures 0 < k <= |ring| && SlotFor(ring, r, k) && cur == ring[k - 1].at
    {
      k := SlotExists(ring, r);
      ghost var s :| 0 <= s < |ring| && slobfree == ring[s].at;
      ghost var n := |ring|;
      ghost var i := s;
      ghost var left := if s < k then k - 1 - s else n - s + k - 1;
      cur := slobfree;
      assert BlockAt(mem, ring, i);
      while !(b > cur && b < mem[cur].next)
        invariant 0 <= i < n && cur == ring[i].at && cur in mem && mem[cur].next == NextAt(ring, i)
        invariant left >= 0 && left == if i < k then k - 1 - i else n - i + k - 1
        decreases left
      {
        OnlySlot(ring, r, k, i);
        if cur >= mem[cur].next && (b > cur || b < mem[cur].next) {
          return cur, k;
        }
        cur := mem[cur].next;
        i := if i + 1 < n then i + 1 else 0;
        left := left - 1;
        assert BlockAt(mem, ring, i);
      }
      OnlySlot(ring, r, k, i);
    }

    /** slob_free behind its search: link b in after cur, joining it to either neighbour. */
    method JoinBlocks(cur: Addr, b: Addr)
      requires cur in mem && b in mem && mem[cur].next in mem && cur != b
      modifies this`mem
      ensures mem == LinkIn(old(mem), cur, b)
    {
      if b + mem[b].units == mem[cur].next {
        var nx := mem[cur].next;
        mem := mem[b := Block(mem[b].units + mem[nx].units, mem[nx].next)];
      } else {
        mem := SetNext(mem, b, mem[cur].next);
      }
      if cur + mem[cur].units == b {
        mem := mem[cur := Block(mem[cur].units + mem[b].units, mem[b].next)];
      } else {
        mem := SetNext(mem, cur, b);
      }
    }

    /** slob_free of a block whose size is in its header. */
    method Release(b: Addr, ghost r: Run)
      requires RingOk() && r.at == b && r.len > 0 && b > arena + 1 && DisjointFrom(ring, r)
      requires b in mem && mem[b].units == r.len
      modifies this`mem, this`slobfree, this`ring
      ensures RingOk() && exists k: nat :: k > 0 && SlotFor(old(ring), r, k) && ring == Coalesce(old(ring), r, k)
                                         && slobfree == old(ring)[k - 1].at
      ensures forall a :: a in old(mem) && a !in Heads(old(ring)) && a != b ==> a in mem && mem[a] == old(mem)[a]
    {
      hide Ring, Canonical, LinkIn, SlotFor, Coalesce, DisjointFrom;
      var cur, k := FindSlot(b, r);
      LinkInRing(mem, ring, r, k);
      LinkInTouches(mem, ring, r, k);
      CoalesceCanonical(ring, r, k);
      CoalesceHeads(ring, r, k);
      JoinBlocks(cur, b);
      slobfree := cur;
      ring := Coalesce(ring, r, k);
    }

    // ----- slob_alloc and slob_free -----

    /** Cutting `units` units off the block found. */
    method TakeUnits(prev: Addr, cur: Addr, units: nat, ghost i: nat)
      requires RingOk() && 0 < i < |ring| && cur == ring[i].at && prev == ring[i - 1].at && 0 < units <= ring[i].len
      modifies this`mem, this`slobfree, this`ring
      ensures RingOk() && ring == Take(old(ring), i, units) && slobfree == prev
      ensures cur in mem && mem[cur].units == units
      ensures forall a :: a in old(mem) && !InRuns(old(ring), a) ==> a in mem && mem[a] == old(mem)[a]
    {
      ghost var m0 := mem;
      CarveRing(mem, ring, i, units);
      TakeCanonical(ring, i, units);
      PredStays(ring, i, units);
      CarveTouches(mem, ring, i, units);
      TakeAt(ring, i, units, 0);
      if mem[cur].units == units {
        mem := SetNext(mem, prev, mem[cur].next);
      } else {
        mem := SetNext(mem, prev, cur + units);
        mem := mem[cur + units := Block(mem[cur].units - units, mem[cur].next)];
        mem := SetUnits(mem, cur, units);
      }
      assert mem == Carve(m0, prev, cur, units);
      slobfree := prev;
      ring := Take(ring, i, units);
    }

    /** slob_free(b, size) of memory that has no header: the size goes into one first. This is
        also how slob_alloc adds a page. */
    method Give(b: Addr, units: nat)
      requires Valid() && units > 0 && Fresh(arena, ring, live + held, Run(b, units))
      modifies this`mem, this`slobfree, this`ring
      ensures Valid()
      ensures forall x :: InRuns(ring, x) <==> InRuns(old(ring), x) || Covers(Run(b, units), x)
    {
      ghost var m0 := mem;
      ghost var rs := ring;
      ghost var r := Run(b, units);
      mem := mem[b := Block(units, b)];
      HeadersOutside(rs, r);
      RingKept(m0, mem, rs);
      Release(b, r);
      ghost var k: nat :| k > 0 && SlotFor(rs, r, k) && ring == Coalesce(rs, r, k);
      forall x ensures InRuns(ring, x) <==> InRuns(rs, x) || Covers(r, x) {
        CoalescePages(rs, r, k, x);
      }
      LiveKept(m0, mem, arena, rs, ring, live, held, r);
    }

    /** The owner of block r writes over its header. */
    method Overlay(b: Addr, first: Block, ghost r: Run)
      requires Valid() && r in live && r.at == b
      modifies this`mem, this`live, this`held
      ensures Valid() && live == old(live) - {r} && held == old(held) + {r}
    {
      ghost var m0 := mem;
      assert LiveBlock(mem, arena, ring, r);
      HeadersOutside(ring, r);
      mem := mem[b := first];
      RingKept(m0, mem, ring);
      live, held := live - {r}, held + {r};
      forall q | q in live ensures LiveBlock(mem, arena, ring, q) {
        assert LiveBlock(m0, arena, ring, q) && Covers(q, q.at) && Covers(r, r.at);
        assert Apart2(q, r);
      }
    }

    /** Memory nobody holds passes to a new owner. */
    ghost method Hold(r: Run)
      requires Valid() && r.len > 0 && Fresh(arena, ring, live + held, r)
      modifies this`held
      ensures Valid() && held == old(held) + {r} && r !in old(held)
    {
      assert Covers(r, r.at);
      held := held + {r};
    }

    /** An owner gives memory up. */
    ghost method Drop(r: Run)
      requires Valid() && r in held
      modifies this`held
      ensures Valid() && held == old(held) - {r} && Fresh(arena, ring, live + held, r)
    {
      assert OffList(arena, ring, r);
      held := held - {r};
    }

    /** slob_alloc. `page` is what __slob_get_free_page would return if asked; at most one
        page is asked for, and only when no block fits. When the arena is what it hands out,
        only the writes are stated; ArenaTaken says what is left of the heap then. */
    method Alloc(units: nat, page: Option<Addr>) returns (r: Option<Addr>, ghost grew: bool)
      requires Valid() && 1 <= units < PAGE_UNITS
      requires page.Some? ==> FreshPage(arena, ring, live + held, page.value)
      modifies this
      ensures held == old(held)
      ensures grew <==> NoFit(old(ring), units) && page.Some?
      ensures r.None? <==> NoFit(old(ring), units) && page.None?
      ensures r.None? ==> ring == old(ring) && live == old(live)
      ensures old(TakesArena(units)) ==>
                && r == Some(arena) && slobfree == old(slobfree) && mem == Carve(old(mem), slobfree, arena, 1)
                && ring == old(ring) && live == old(live)
      ensures !old(TakesArena(units)) ==> Valid()
      ensures r.Some? && !old(TakesArena(units)) ==>
                && Run(r.value, units) !in old(live) && live == old(live) + {Run(r.value, units)}
                && forall x ::
                     (InRuns(old(ring), x) || (grew && Covers(Run(page.value, PAGE_UNITS), x)))
                     <==> (InRuns(ring, x) || Covers(Run(r.value, units), x))
      ensures r.Some? && !grew && !old(TakesArena(units)) ==>
                TakenNext(old(ring), old(slobfree), units, r.value, slobfree, ring)
    {
      hide NextFit;
      grew := false;
      var found, prev, cur, i := Search(units);
      if !found {
        if page.None? {
          return None, false;
        }
        grew := true;
        Give(page.value, PAGE_UNITS);
        PageFits(ring, page.value, units);
        found, prev, cur, i := Search(units);
      }
      ghost var rs := ring;
      ghost var m1 := mem;
      if TakesArena(units) {
        assert BlockAt(mem, ring, 0);
        mem := SetNext(mem, prev, mem[cur].next);
        slobfree := prev;
        return Some(cur), false;
      }
      TakeUnits(prev, cur, units, i);
      TakeUnion(rs, i, units);
      LiveGrows(m1, mem, arena, rs, ring, live, held, i, units);
      live := live + {Run(cur, units)};
      r := Some(cur);
    }

    /** slob_free(b, 0) of a block handed out before: its units become free again. */
    method Free(b: Addr, ghost r: Run)
      requires Valid() && r in live && r.at == b
      modifies this
      ensures Valid() && live == old(live) - {r} && held == old(held)
      ensures forall x :: InRuns(ring, x) <==> InRuns(old(ring), x) || Covers(r, x)
      ensures exists k: nat :: k > 0 && SlotFor(old(ring), r, k) && ring == Coalesce(old(ring), r, k)
                               && slobfree == old(ring)[k - 1].at
    {
      ghost var m0 := mem;
      ghost var rs := ring;
      assert LiveBlock(mem, arena, ring, r);
      Release(b, r);
      ghost var k: nat :| k > 0 && SlotFor(rs, r, k) && ring == Coalesce(rs, r, k);
      forall x ensures InRuns(ring, x) <==> InRuns(rs, x) || Covers(r, x) {
        CoalescePages(rs, r, k, x);
      }
      LiveKept(m0, mem, arena, rs, ring, live - {r}, held, r);
      live := live - {r};
    }

    // ----- __kmalloc below a page -----

    /** __kmalloc up to the small-object limit. The guard admits 16 sizes that the assertion of
        slob_alloc rejects: it panics exactly from PAGE_SIZE - 2 * SLOB_UNIT on. */
    method SmallAlloc(size: nat, page: Option<Addr>) returns (r: KmallocResult, ghost grew: bool)
      requires Valid() && size < PAGE_SIZE - SLOB_UNIT
      requires page.Some? ==> FreshPage(arena, ring, live + held, page.value)
      modifies this
      ensures held == old(held)
      ensures r.Panic? <==> size >= PAGE_SIZE - 2 * SLOB_UNIT
      ensures !r.Ptr? ==> ring == old(ring) && live == old(live)
      ensures r.NullPtr? <==> !r.Panic? && NoFit(old(ring), Units(size + SLOB_UNIT)) && page.None?
      ensures r.Ptr? ==> (grew <==> NoFit(old(ring), Units(size + SLOB_UNIT)))
      ensures !r.Ptr? ==> !grew
      ensures !(size == 0 && old(TakesArena(1))) ==> Valid()
      ensures size == 0 && old(TakesArena(1)) ==>
                && r == Ptr(arena + 1) && slobfree == old(slobfree) && mem == Carve(old(mem), slobfree, arena, 1)
                && ring == old(ring) && live == old(live)
      ensures r.Ptr? && !(size == 0 && old(TakesArena(1))) ==>
                var b := Run(r.payload - 1, Units(size + SLOB_UNIT));
                && b !in old(live) && live == old(live) + {b} && (b.len - 1) * SLOB_UNIT >= size
                && forall x ::
                     (InRuns(old(ring), x) || (grew && page.Some? && Covers(Run(page.value, PAGE_UNITS), x)))
                     <==> (InRuns(ring, x) || Covers(b, x))
    {
      grew := false;
      if size + SLOB_UNIT + SLOB_UNIT >= PAGE_SIZE {
        return Panic, false;
      }
      OneUnit(size);
      var m;
      m, grew := Alloc(Units(size + SLOB_UNIT), page);
      r := if m.Some? then Ptr(m.value + 1) else NullPtr;
    }
  }

  datatype KmallocResult = Ptr(payload: Addr) | NullPtr | Panic

  /** Only a request of zero bytes asks for a single unit. */
  lemma OneUnit(size: nat)
    ensures Units(size + SLOB_UNIT) >= 1 && (Units(size + SLOB_UNIT) == 1 <==> size == 0)
    ensures size + 2 * SLOB_UNIT < PAGE_SIZE ==> Units(size + SLOB_UNIT) < PAGE_UNITS
  {
  }

  /** After the arena has been handed out: the list is well formed exactly when it had another
      block, and it never again holds the arena, whose one unit kept every other block from
      being the last. Otherwise the unit handed out is still the only free block. */
  lemma ArenaTaken(mem: Memory, arena: Addr, slobfree: Addr, rs: seq<Run>)
    requires WellFormed(mem, slobfree, rs) && rs[0] == Run(arena, 1) && slobfree in mem && mem[slobfree].next == arena
    ensures arena in mem
    ensures var m := Carve(mem, slobfree, arena, 1);
            && ((exists ts :: WellFormed(m, slobfree, ts) && Without(ts, rs, 0, 1)) <==> |rs| > 1)
            && (forall ts :: Without(ts, rs, 0, 1) ==> !InRuns(ts, arena))
            && (|rs| == 1 ==> m == mem)
  {
    var s :| 0 <= s < |rs| && slobfree == rs[s].at;
    assert BlockAt(mem, rs, s) && BlockAt(mem, rs, 0);
    HeadsApart(rs, 0, if s + 1 < |rs| then s + 1 else 0);
    assert s == Pred(0, |rs|);
    CarveIff(mem, rs, 0, 1);
    if |rs| == 1 {
      assert mem[arena] == Block(1, arena);
      assert mem[arena := Block(1, arena)] == mem;
    }
  }

  /** On the initial heap kmalloc(0) hands out the arena, and asked again hands it out again. */
  method ZeroBytesTwice(a: Addr) returns (p: KmallocResult, q: KmallocResult)
    ensures p == Ptr(a + 1) && q == p
  {
    var heap := new Heap(a);
    ghost var grew;
    assert BlockAt(heap.mem, heap.ring, 0);
    p, grew := heap.SmallAlloc(0, None);
    ArenaTaken(map[a := Block(1, a)], a, a, [Run(a, 1)]);
    q, grew := heap.SmallAlloc(0, None);
  }

  lemma CarveTouches(mem: Memory, rs: seq<Run>, i: nat, units: nat)
    requires Ring(mem, rs) && Canonical(rs) && 0 < i < |rs| && 0 < units <= rs[i].len
    ensures rs[i - 1].at in mem && rs[i].at in mem
    ensures var m := Carve(mem, rs[i - 1].at, rs[i].at, units);
            forall a :: a in mem && !InRuns(rs, a) ==> a in m && m[a] == mem[a]
  {
    assert BlockAt(mem, rs, i - 1) && BlockAt(mem, rs, i);
    assert Covers(rs[i - 1], rs[i - 1].at) && Covers(rs[i], rs[i].at);
    assert units < rs[i].len ==> Covers(rs[i], rs[i].at + units);
  }

  /** Memory of units off the list does not matter to the ring. */
  lemma RingKept(m0: Memory, m1: Memory, rs: seq<Run>)
    requires Ring(m0, rs) && forall i :: 0 <= i < |rs| && rs[i].at in m0 ==> rs[i].at in m1 && m1[rs[i].at] == m0[rs[i].at]
    ensures Ring(m1, rs)
  {
    forall i | 0 <= i < |rs| ensures BlockAt(m1, rs, i) {
      assert BlockAt(m0, rs, i);
    }
  }

  lemma HeadersOutside(rs: seq<Run>, r: Run)
    requires Canonical(rs) && DisjointFrom(rs, r) && r.len > 0
    ensures forall i :: 0 <= i < |rs| ==> rs[i].at != r.at
  {
    forall i | 0 <= i < |rs| ensures rs[i].at != r.at {
      assert Covers(rs[i], rs[i].at) && Covers(r, r.at) && InRuns(rs, rs[i].at);
    }
  }

  /** Blocks handed out keep their headers and stay off the list when r joins it. */
  lemma LiveKept(m0: Memory, m1: Memory, arena: Addr, rs: seq<Run>, ts: seq<Run>, live: set<Run>,
                 held: set<Run>, r: Run)
    requires Canonical(rs) && LiveOk(m0, arena, rs, live, held) && r.len > 0
    requires forall x :: InRuns(ts, x) <==> InRuns(rs, x) || Covers(r, x)
    requires forall q :: q in live + held ==> Apart2(q, r)
    requires forall a :: a in m0 && a !in Heads(rs) && a != r.at ==> a in m1 && m1[a] == m0[a]
    ensures LiveOk(m1, arena, ts, live, held)
  {
    forall q | q in live + held ensures OffList(arena, ts, q) {
      assert q in live ==> LiveBlock(m0, arena, rs, q);
      OffListKept(arena, rs, ts, q, r);
    }
    forall q | q in live ensures LiveBlock(m1, arena, ts, q) {
      assert LiveBlock(m0, arena, rs, q);
      HeadersOutside(rs, q);
      assert Covers(q, q.at) && Covers(r, r.at);
      assert q.at !in Heads(rs);
    }
  }

  lemma OffListKept(arena: Addr, rs: seq<Run>, ts: seq<Run>, q: Run, r: Run)
    requires OffList(arena, rs, q) && Apart2(q, r)
    requires forall x :: InRuns(ts, x) <==> InRuns(rs, x) || Covers(r, x)
    ensures OffList(arena, ts, q)
  {
  }

  lemma TakeUnion(rs: seq<Run>, i: nat, units: nat)
    requires Canonical(rs) && i < |rs| && 0 < units <= rs[i].len
    ensures forall x :: InRuns(rs, x) <==> InRuns(Take(rs, i, units), x) || Covers(Run(rs[i].at, units), x)
    ensures DisjointFrom(Take(rs, i, units), Run(rs[i].at, units))
  {
    forall x ensures InRuns(Take(rs, i, units), x) <==> InRuns(rs, x) && !Covers(Run(rs[i].at, units), x) {
      TakePages(rs, i, units, x);
    }
    forall x | Covers(Run(rs[i].at, units), x) ensures InRuns(rs, x) {
      assert Covers(rs[i], x);
    }
  }

  /** The block just carved joins the blocks handed out. */
  lemma LiveGrows(m0: Memory, m1: Memory, arena: Addr, rs: seq<Run>, ts: seq<Run>, live: set<Run>,
                  held: set<Run>, i: nat, units: nat)
    requires Canonical(rs) && 0 < i < |rs| && 0 < units <= rs[i].len && rs[0] == Run(arena, 1)
    requires LiveOk(m0, arena, rs, live, held) && ts == Take(rs, i, units)
    requires rs[i].at in m1 && m1[rs[i].at].units == units
    requires forall a :: a in m0 && !InRuns(rs, a) ==> a in m1 && m1[a] == m0[a]
    ensures Run(rs[i].at, units) !in live
    ensures LiveOk(m1, arena, ts, live + {Run(rs[i].at, units)}, held)
  {
    var b := Run(rs[i].at, units);
    TakeUnion(rs, i, units);
    assert Apart(rs[0], rs[i]);
    forall q | q in live ensures LiveBlock(m1, arena, ts, q) && Apart2(q, b) && Apart2(b, q) {
      assert LiveBlock(m0, arena, rs, q);
      assert Covers(q, q.at);
    }
    assert Covers(b, b.at);
    assert LiveBlock(m1, arena, ts, b);
  }

  /** A fresh page, even after coalescing, fits any small request. */
  lemma PageFits(rs: seq<Run>, page: Addr, units: nat)
    requires Canonical(rs) && units <= PAGE_UNITS && forall x :: Covers(Run(page, PAGE_UNITS), x) ==> InRuns(rs, x)
    ensures !NoFit(rs, units)
  {
    var k := RunOf(rs, page, PAGE_UNITS);
    assert rs[k].len >= units;
  }

  /** Address order has a place for every block that is not on the list. */
  lemma {:induction false} SlotExists(rs: seq<Run>, b: Run) returns (k: nat)
    requires Canonical(rs) && rs != [] && rs[0].at < b.at && b.len > 0 && DisjointFrom(rs, b)
    ensures 0 < k <= |rs| && SlotFor(rs, b, k)
  {
    k := |rs|;
    while k > 0 && b.at < rs[k - 1].at
      invariant 0 <= k <= |rs| && forall j :: k <= j < |rs| ==> b.at < rs[j].at
    {
      k := k - 1;
    }
    assert Covers(b, b.at) && Covers(rs[k - 1], rs[k - 1].at) && InRuns(rs, rs[k - 1].at);
    forall j | 0 <= j < k ensures rs[j].at < b.at {
      HeadsApart(rs, j, k - 1);
    }
  }

  /** The loop test of slob_free stops exactly at the slot. */
  lemma OnlySlot(rs: seq<Run>, b: Run, k: nat, i: nat)
    requires Canonical(rs) && SlotFor(rs, b, k) && 0 < k && i < |rs| && rs[0].at < b.at
    ensures var cur, nx := rs[i].at, NextAt(rs, i);
            (b.at > cur && b.at < nx) || (cur >= nx && (b.at > cur || b.at < nx)) <==> i == k - 1
  {
    HeadsApart(rs, 0, i);
    if i + 1 < |rs| {
      HeadsApart(rs, i, i + 1);
    }
  }

  lemma LinkInTouches(mem: Memory, rs: seq<Run>, b: Run, k: nat)
    requires Ring(mem, rs) && 0 < k <= |rs| && b.at in mem && rs[k - 1].at != b.at
    ensures rs[k - 1].at in mem && mem[rs[k - 1].at].next in mem
    ensures var m := LinkIn(mem, rs[k - 1].at, b.at);
            forall a :: a in mem && a !in Heads(rs) && a != b.at ==> a in m && m[a] == mem[a]
  {
    assert BlockAt(mem, rs, k - 1);
    assert BlockAt(mem, rs, if k < |rs| then k else 0);
  }

  lemma CoalesceHeads(rs: seq<Run>, b: Run, k: nat)
    requires Canonical(rs) && SlotFor(rs, b, k) && k > 0 && rs != []
    requires rs[0].at + rs[0].len < b.at
    ensures var ts := Coalesce(rs, b, k);
            && ts != [] && ts[0] == rs[0]
            && exists s :: 0 <= s < |ts| && ts[s].at == rs[k - 1].at
  {
    var ts := Coalesce(rs, b, k);
    assert ts[k - 1].at == rs[k - 1].at;
  }
}