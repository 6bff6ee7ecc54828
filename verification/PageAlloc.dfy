/** The first-fit page allocator of kern/mm/default_pmm.c on the intrusive list of libs/list.h.
    Pages are indices into the `pages` array; the free-list head has its own address. */
module PageAlloc {
  import opened Lists
  import opened ListRing
  import opened PageRuns
  import opened Wrappers

  /** Address of free_area.free_list. */
  const HEAD: Addr := -1

  /** base would go behind the last block of a non-empty list. */
  predicate TailAppend(xs: seq<Addr>, base: Addr) {
    xs != [] && forall j :: 0 <= j < |xs| ==> xs[j] < base
  }

  /** The position of base in an ascending list. */
  predicate Position(xs: seq<Addr>, base: Addr, k: nat) {
    && k <= |xs| && (forall j :: 0 <= j < k ==> xs[j] < base)
    && (forall j :: k <= j < |xs| ==> base < xs[j])
  }

  predicate Ascending(xs: seq<Addr>) {
    forall i, j :: 0 <= i < j < |xs| ==> xs[i] < xs[j]
  }

  /** What the insertion loop leaves behind when base goes to the tail: the loop body runs
      once more on base's own link, and base ends up as its own predecessor. */
  function TailLinks(m: Memory, base: Addr): Memory
    requires HEAD in m && m[HEAD].prev in m && base in m
  {
    SetPrev(AddBefore(m, HEAD, base), base, base)
  }

  lemma AddBeforeHead(m: Memory, xs: seq<Addr>)
    requires Ring(m, HEAD, xs)
    ensures HEAD in m && m[HEAD].prev in m
  {
    EmptyIff(m, HEAD, xs);
    if xs != [] {
      Neighbours(m, HEAD, xs, |xs| - 1);
    }
  }

  /** After a tail append the links are no doubly linked list at all. */
  lemma TailBreaksRing(m: Memory, xs: seq<Addr>, base: Addr, ys: seq<Addr>)
    requires Ring(m, HEAD, xs) && base !in [HEAD] + xs && base in m
    ensures HEAD in m && m[HEAD].prev in m
    ensures !Ring(TailLinks(m, base), HEAD, ys)
  {
    AddBeforeHead(m, xs);
    var t := TailLinks(m, base);
    assert t[HEAD].prev == base && t[base].prev == base;
    if Ring(t, HEAD, ys) {
      EmptyIff(t, HEAD, ys);
      Neighbours(t, HEAD, ys, |ys| - 1);
      NoSelfPrev(t, ys);
    }
  }

  lemma TailNoRing(m: Memory, xs: seq<Addr>, base: Addr)
    requires Ring(m, HEAD, xs) && base !in [HEAD] + xs && base in m
    ensures HEAD in m && m[HEAD].prev in m
    ensures forall ys :: !Ring(TailLinks(m, base), HEAD, ys)
  {
    AddBeforeHead(m, xs);
    forall ys ensures !Ring(TailLinks(m, base), HEAD, ys) {
      TailBreaksRing(m, xs, base, ys);
    }
  }

  /** The broken list can still be walked forwards. */
  lemma TailWalks(npages: nat, m: Memory, t: Memory, property: map<int, nat>, rs: seq<Run>, b: Run)
    requires Ring(m, HEAD, Heads(rs)) && b.at !in [HEAD] + Heads(rs) && b.at in m && LinkTable(npages, m)
    requires TailAppend(Heads(rs), b.at) && BlocksOk(npages, property, rs)
    requires 0 <= b.at && b.at + b.len <= npages && b.len > 0 && b.at in property && property[b.at] == b.len
    requires HEAD in m && m[HEAD].prev in m && t == TailLinks(m, b.at)
    ensures var ys := Heads(rs) + [b.at];
            && Forward(t, ys) && (forall j :: 0 <= j < |ys| ==> SizeFits(npages, t, property, ys[j]))
            && t[b.at].prev == b.at && forall j :: 0 <= j < |rs| ==> rs[j].at < b.at
  {
    var xs, ys := Heads(rs), Heads(rs) + [b.at];
    RingDistinct(m, HEAD, xs);
    EmptyIff(m, HEAD, xs);
    Neighbours(m, HEAD, xs, |xs| - 1);
    forall i | 0 <= i <= |ys| ensures ForwardAt(t, ys, i) {
      if 0 < i <= |xs| {
        Neighbours(m, HEAD, xs, i - 1);
        assert i < |xs| ==> xs[i - 1] != xs[|xs| - 1];
      }
    }
    forall j | 0 <= j < |ys| ensures SizeFits(npages, t, property, ys[j]) {
      if j < |xs| {
        Neighbours(m, HEAD, xs, j);
        assert BlockFits(npages, property, rs[j]);
      }
    }
    forall j | 0 <= j < |rs| ensures rs[j].at < b.at {
      assert xs[j] < b.at;
    }
  }

  lemma NoSelfPrev(m: Memory, ys: seq<Addr>)
    requires Ring(m, HEAD, ys) && ys != []
    ensures var l := ys[|ys| - 1]; l in m && m[l].prev != l
  {
    Neighbours(m, HEAD, ys, |ys| - 1);
    var c := [HEAD] + ys;
    assert c[|ys|] != c[|ys| - 1];
  }

  /** The harm done: when default_alloc_pages later unlinks that block as a whole, the block
      before it still leads to it, so the pages handed out stay on the free list. */
  lemma TailBlockStaysListed(m: Memory, xs: seq<Addr>, base: Addr)
    requires Ring(m, HEAD, xs) && xs != [] && base !in [HEAD] + xs && base in m
    ensures HEAD in m && m[HEAD].prev in m
    ensures var t := TailLinks(m, base); var last := xs[|xs| - 1];
            && t[base].prev in t && t[base].next in t
            && last in t && Del(t, base)[last].next == base
  {
    EmptyIff(m, HEAD, xs);
    Neighbours(m, HEAD, xs, |xs| - 1);
    assert xs[|xs| - 1] in xs;
  }

  // ----- what the fields of the page array have to say -----

  predicate BlockFits(n: nat, property: map<int, nat>, r: Run) {
    r.at >= 0 && r.len > 0 && r.at + r.len <= n && r.at in property && property[r.at] == r.len
  }

  ghost predicate BlocksOk(n: nat, property: map<int, nat>, rs: seq<Run>) {
    forall i :: 0 <= i < |rs| ==> BlockFits(n, property, rs[i])
  }

  /** PG_property marks exactly the heads of the free blocks. */
  ghost predicate HeadsFlagged(n: nat, flagged: map<int, bool>, rs: seq<Run>) {
    forall p :: p in flagged && 0 <= p < n ==> (flagged[p] <==> p in Heads(rs))
  }

  /** Free pages are neither reserved nor referenced. */
  ghost predicate FreeClean(n: nat, reserved: map<int, bool>, refs: map<int, int>, rs: seq<Run>) {
    forall p :: p in reserved && p in refs && InRuns(rs, p) ==> !reserved[p] && refs[p] == 0
  }

  ghost predicate Table<T>(n: nat, m: map<int, T>) {
    forall p :: p in m <==> 0 <= p < n
  }

  ghost predicate LinkTable(n: nat, m: Memory) {
    forall p :: p in m <==> p == HEAD || 0 <= p < n
  }

  lemma TableSet<T>(n: nat, m: map<int, T>, p: int, v: T)
    requires Table(n, m) && 0 <= p < n
    ensures Table(n, m[p := v]) && p in m
  {
  }

  lemma TableMembers<T>(n: nat, m: map<int, T>)
    requires Table(n, m)
    ensures forall p :: 0 <= p < n ==> p in m
  {
  }

  /** Pages outside [base, base + len) keep their field. */
  ghost predicate Outside<T>(n: nat, m: map<int, T>, m': map<int, T>, base: int, len: nat) {
    forall p :: 0 <= p < n && !(base <= p < base + len) ==> p in m && p in m' && m'[p] == m[p]
  }

  /** The pages of [base, base + len) are no longer reserved and have no reference. */
  ghost predicate Cleared(reserved: map<int, bool>, refs: map<int, int>, base: int, len: nat) {
    forall p :: base <= p < base + len ==> p in reserved && !reserved[p] && p in refs && refs[p] == 0
  }

  lemma LinkTableSame(n: nat, m: Memory, m': Memory)
    requires LinkTable(n, m) && m'.Keys == m.Keys
    ensures LinkTable(n, m')
  {
    assert forall p :: p in m' <==> p in m'.Keys;
  }

  ghost predicate ForwardAt(m: Memory, ys: seq<Addr>, i: int)
    requires 0 <= i <= |ys|
  {
    var a := if i == 0 then HEAD else ys[i - 1];
    a in m && m[a].next == if i < |ys| then ys[i] else HEAD
  }

  /** From the head, next visits ys in order and returns; nothing is said of prev. */
  ghost predicate Forward(m: Memory, ys: seq<Addr>) {
    HEAD !in ys && forall i {:trigger ForwardAt(m, ys, i)} :: 0 <= i <= |ys| ==> ForwardAt(m, ys, i)
  }

  /** Page y heads a block with both neighbours among the links and its pages among the pages. */
  ghost predicate SizeFits(n: nat, links: Memory, property: map<int, nat>, y: Addr) {
    && 0 <= y < n && y in property && y + property[y] <= n
    && y in links && links[y].prev in links && links[y].next in links
  }

  /** The position on the walk of the first block with at least n pages, its length if none. */
  function FirstOn(ys: seq<Addr>, property: map<int, nat>, n: nat): (i: nat)
    requires forall j :: 0 <= j < |ys| ==> ys[j] in property
    ensures i <= |ys| && (i < |ys| ==> property[ys[i]] >= n) && forall j :: 0 <= j < i ==> property[ys[j]] < n
  {
    if ys == [] then 0 else if property[ys[0]] >= n then 0 else 1 + FirstOn(ys[1..], property, n)
  }

  /** The pointer work of default_alloc_pages on a block of len pages. */
  function TakeLinks(m: Memory, page: Addr, n: nat, len: nat): Memory
    requires page in m && m[page].prev in m && m[page].next in m && (len > n ==> page + n in m)
  {
    var d := Del(m, page);
    if len > n then AddAfter(d, m[page].prev, page + n) else d
  }

  class Pmm {
    const npages: nat
    var links: Memory
    var property: map<int, nat>
    var flagged: map<int, bool>     // PG_property
    var reserved: map<int, bool>    // PG_reserved
    var refs: map<int, int>
    var nrFree: int
    ghost var blocks: seq<Run>

    /** The free list is the canonical list of maximal runs of the free pages; its sizes are
        in `property`, PG_property marks exactly the block heads, nr_free is the total. */
    ghost predicate Valid()
      reads this
    {
      && LinkTable(npages, links) && Table(npages, property) && Table(npages, flagged)
      && Table(npages, reserved) && Table(npages, refs)
      && Ring(links, HEAD, Heads(blocks)) && Canonical(blocks)
      && BlocksOk(npages, property, blocks) && HeadsFlagged(npages, flagged, blocks)
      && FreeClean(npages, reserved, refs, blocks) && nrFree == Total(blocks)
    }

    /** default_init, with every page still reserved. */
    constructor (n: nat)
      ensures Valid() && npages == n && blocks == [] && forall p :: 0 <= p < n ==> p in reserved && reserved[p]
    {
      npages := n;
      links := (map p | p in Interval(0, n) :: Link(p, p))[HEAD := Link(HEAD, HEAD)];
      property := map p | p in Interval(0, n) :: 0;
      flagged := map p | p in Interval(0, n) :: false;
      reserved := map p | p in Interval(0, n) :: true;
      refs := map p | p in Interval(0, n) :: 0;
      nrFree, blocks := 0, [];
      new;
      assert LinkedAt(links, [HEAD], 0);
    }

    /** What the walk of default_alloc_pages needs: next leads along ys and back, and the sizes
        recorded there lie within the pages. A list that a tail append broke has it too. */
    ghost predicate Walkable(ys: seq<Addr>)
      reads this
    {
      && LinkTable(npages, links) && Table(npages, property) && Table(npages, flagged)
      && Forward(links, ys) && forall j :: 0 <= j < |ys| ==> SizeFits(npages, links, property, ys[j])
    }

    /** What a tail append of block b behind the blocks rs leaves: the walk reaches b last, b is
        its own predecessor, sizes and total are right. */
    ghost predicate Broken(rs: seq<Run>, b: Run)
      reads this
    {
      && Walkable(Heads(rs) + [b.at]) && b.at in links && links[b.at].prev == b.at && b.len > 0
      && b.at in property && property[b.at] == b.len && BlocksOk(npages, property, rs)
      && nrFree == Total(rs) + b.len && forall j :: 0 <= j < |rs| ==> rs[j].at < b.at
    }

    /** default_alloc_pages over whatever list there is: the first block on the walk that is large
        enough gives its lowest n pages, is unlinked by its own pointers, and its rest goes
        behind the block these name. From a well-formed list a well-formed list results. */
    method AllocPages(n: nat, ghost ys: seq<Addr>) returns (page: Option<int>)
      requires Walkable(ys) && n > 0
      modifies this`links, this`property, this`flagged, this`nrFree, this`blocks
      ensures LinkTable(npages, links) && Table(npages, property) && Table(npages, flagged)
      ensures var i := FirstOn(ys, old(property), n);
              page == if n > old(nrFree) || i == |ys| then None else Some(ys[i])
      ensures page.None? ==> links == old(links) && property == old(property) && flagged == old(flagged)
      ensures page.None? ==> nrFree == old(nrFree) && blocks == old(blocks)
      ensures page.Some? ==>
                var p, len := page.value, old(property)[page.value];
                && links == TakeLinks(old(links), p, n, len) && nrFree == old(nrFree) - n
                && property == (if len > n then old(property)[p + n := len - n] else old(property))
                && flagged == (if len > n then old(flagged)[p + n := true] else old(flagged))[p := false]
      ensures old(Valid()) && ys == Heads(old(blocks)) ==>
                && Valid() && (NoFit(old(blocks), n) ==> page.None? && blocks == old(blocks))
                && (!NoFit(old(blocks), n) ==>
                      exists i: nat :: FirstFit(old(blocks), n, i) && page == Some(old(blocks)[i].at)
                                       && blocks == Take(old(blocks), i, n))
    {
      hide Ring, Canonical, BlocksOk, HeadsFlagged, FreeClean, Take, Total, Table, LinkTable, Heads, Forward, TakeLinks;
      ghost var valid := Valid() && ys == Heads(blocks);
      if valid {
        NoRoom(blocks, n);
      }
      if n > nrFree {
        return None;
      }
      var found, i := FindFit(n, ys);
      if valid {
        SizesOnList(npages, property, blocks);
      }
      if found == HEAD {
        return None;
      }
      ghost var rs := blocks;
      if valid {
        TakeKeeps(npages, links, property, flagged, reserved, refs, rs, i, n);
      }
      TakePage(found, n);
      if valid {
        blocks := Take(rs, i, n);
        assert FirstFit(rs, n, i);
      }
      return Some(found);
    }

    /** The search loop. */
    method FindFit(n: nat, ghost ys: seq<Addr>) returns (found: Addr, ghost i: nat)
      requires Walkable(ys) && n > 0
      ensures i <= |ys| && forall j :: 0 <= j < i ==> property[ys[j]] < n
      ensures found == HEAD <==> i == |ys|
      ensures found != HEAD ==> found == ys[i] && property[ys[i]] >= n
    {
      assert ForwardAt(links, ys, 0);
      var le := links[HEAD].next;
      i := 0;
      while le != HEAD
        invariant i <= |ys| && forall j :: 0 <= j < i ==> property[ys[j]] < n
        invariant le == if i < |ys| then ys[i] else HEAD
        invariant le == HEAD <==> i == |ys|
        decreases |ys| - i
      {
        if property[le] >= n {
          return le, i;
        }
        assert ForwardAt(links, ys, i + 1);
        le := links[le].next;
        i := i + 1;
      }
      return HEAD, i;
    }

    /** Unlinking and splitting the chosen block: its rest, if any, goes behind the block its own
        prev names. */
    method TakePage(page: int, n: nat)
      requires LinkTable(npages, links) && Table(npages, property) && Table(npages, flagged)
      requires SizeFits(npages, links, property, page) && 0 < n <= property[page]
      modifies this`links, this`property, this`flagged, this`nrFree
      ensures LinkTable(npages, links) && Table(npages, property) && Table(npages, flagged)
      ensures var len := old(property)[page];
              && links == TakeLinks(old(links), page, n, len) && nrFree == old(nrFree) - n
              && property == (if len > n then old(property)[page + n := len - n] else old(property))
              && flagged == (if len > n then old(flagged)[page + n := true] else old(flagged))[page := false]
    {
      var prev := links[page].prev;
      links := Del(links, page);
      if property[page] > n {
        var p := page + n;
        property := property[p := property[page] - n];
        flagged := flagged[p := true];
        links := AddAfter(links, prev, p);
      }
      nrFree := nrFree - n;
      flagged := flagged[page := false];
    }

    // ----- default_free_pages and default_init_memmap -----

    /** Clearing flags and reference counts of the pages given back. */
    method ResetPages(base: int, n: nat)
      requires Table(npages, reserved) && Table(npages, flagged) && Table(npages, refs)
      requires 0 <= base && base + n <= npages
      modifies this`reserved, this`flagged, this`refs
      ensures Table(npages, reserved) && Table(npages, flagged) && Table(npages, refs)
      ensures forall p :: base <= p < base + n ==> !reserved[p] && !flagged[p] && refs[p] == 0
      ensures forall p :: 0 <= p < npages && !(base <= p < base + n) ==>
                reserved[p] == old(reserved)[p] && flagged[p] == old(flagged)[p] && refs[p] == old(refs)[p]
    {
      var p := base;
      while p != base + n
        invariant base <= p <= base + n
        invariant Table(npages, reserved) && Table(npages, flagged) && Table(npages, refs)
        invariant forall q :: base <= q < p ==> !reserved[q] && !flagged[q] && refs[q] == 0
        invariant forall q :: 0 <= q < npages && !(base <= q < p) ==>
                    reserved[q] == old(reserved)[q] && flagged[q] == old(flagged)[q] && refs[q] == old(refs)[q]
      {
        reserved := reserved[p := false];
        flagged := flagged[p := false];
        refs := refs[p := 0];
        p := p + 1;
      }
    }

    /** The insertion loop shared by default_init_memmap and default_free_pages. It keeps the
        list well formed exactly when base is not appended to a non-empty list. */
    method InsertLink(base: int, ghost xs: seq<Addr>) returns (ghost k: nat)
      requires Ring(links, HEAD, xs) && base !in [HEAD] + xs && base in links
      requires Ascending(xs)
      modifies this`links
      ensures Position(xs, base, k) && links.Keys == old(links).Keys
      ensures !TailAppend(xs, base) ==> Ring(links, HEAD, xs[..k] + [base] + xs[k..])
      ensures HEAD in old(links) && old(links)[HEAD].prev in old(links)
      ensures TailAppend(xs, base) ==> k == |xs| && links == TailLinks(old(links), base)
    {
      ghost var l0 := links;
      EmptyIff(l0, HEAD, xs);
      AddBeforeHead(l0, xs);
      if links[HEAD].next == HEAD {
        AddFirstLast(l0, HEAD, xs, base);
        links := AddAfter(links, HEAD, base);
        assert [base] + xs == xs[..0] + [base] + xs[0..];
        return 0;
      }
      RingDistinct(l0, HEAD, xs);
      var le := links[HEAD].next;
      k := 0;
      while le != HEAD
        invariant k < |xs| ==> le != HEAD
        invariant k < |xs| ==> links == l0 && le == xs[k]
        invariant k <= |xs| && forall j :: 0 <= j < k ==> xs[j] < base
        invariant k == |xs| ==> (le == base && links == AddBefore(l0, HEAD, base))
                                || (le == HEAD && links == TailLinks(l0, base))
        decreases |xs| - k, if le == HEAD then 0 else 1
      {
        if k < |xs| {
          Neighbours(l0, HEAD, xs, k);
          assert xs[k] in xs && base != xs[k];
        }
        if base < le {
          PositionFound(xs, base, k);
          InsertHere(l0, xs, k, base);
          links := AddBefore(links, le, base);
          return k;
        } else if links[le].next == HEAD {
          links := AddAfter(links, le, base);
        }
        le := links[le].next;
        if k < |xs| {
          k := k + 1;
        }
      }
    }

    /** Merging block b, the successor of block a in the list, into a. */
    method JoinNext(a: int, b: int, ghost rs: seq<Run>, ghost i: nat)
      requires Listing(npages, links, property, flagged, rs) && i + 1 < |rs|
      requires a == rs[i].at && b == rs[i + 1].at && a + rs[i].len == b
      requires LinkTable(npages, links) && Table(npages, property) && Table(npages, flagged)
      modifies this`links, this`property, this`flagged
      ensures Listing(npages, links, property, flagged, JoinRuns(rs, i))
      ensures LinkTable(npages, links) && Table(npages, property) && Table(npages, flagged)
    {
      hide Listing, LinkTable, Table, Del, JoinRuns;
      JoinKeeps(npages, links, property, flagged, rs, i);
      TableSet<nat>(npages, property, a, property[a] + property[b]);
      TableSet(npages, flagged, b, false);
      LinkTableSame(npages, links, Del(links, b));
      property := property[a := property[a] + property[b]];
      flagged := flagged[b := false];
      links := Del(links, b);
    }

    /** The two merges at the end of default_free_pages, around the block just inserted.
        After a tail append (`tail`) neither test succeeds. */
    method MergeAround(base: int, ghost tail: bool, ghost rs: seq<Run>, ghost b: Run, ghost k: nat)
      requires k <= |rs| && b.at == base
      requires !tail ==> Listing(npages, links, property, flagged, rs[..k] + [b] + rs[k..])
      requires tail ==> base in links && links[base] == Link(base, HEAD) && base in property && property[base] > 0
      requires LinkTable(npages, links) && Table(npages, property) && Table(npages, flagged)
      modifies this`links, this`property, this`flagged
      ensures !tail ==> Listing(npages, links, property, flagged, Coalesce(rs, b, k))
      ensures tail ==> links == old(links) && property == old(property) && flagged == old(flagged)
      ensures LinkTable(npages, links) && Table(npages, property) && Table(npages, flagged)
    {
      hide Listing, LinkTable, Table, Coalesce, JoinRuns;
      ghost var r0 := rs[..k] + [b] + rs[k..];
      ghost var r1 := r0;
      ghost var j := k;
      var mid := base;
      if !tail {
        ListingAt(npages, links, property, flagged, r0, k);
        JoinedLeft(rs, b, k);
      }
      var le := links[base].prev;
      if le != HEAD {
        if !tail {
          ListingAt(npages, links, property, flagged, r0, k - 1);
        }
        if le + property[le] == base {
          JoinNext(le, base, r0, k - 1);
          mid := le;
          j := k - 1;
          r1 := JoinRuns(r0, k - 1);
        }
      }
      if !tail {
        ListingAt(npages, links, property, flagged, r1, j);
      }
      le := links[mid].next;
      if le != HEAD {
        ListingAt(npages, links, property, flagged, r1, j + 1);
        if mid + property[mid] == le {
          JoinNext(mid, le, r1, j);
        }
      }
    }

    /** The loop of default_init_memmap also clears `property`. */
    method ZeroProperty(base: int, n: nat)
      requires Valid() && 0 <= base && base + n <= npages && DisjointFrom(blocks, Run(base, n))
      modifies this`property
      ensures Valid()
    {
      ghost var p0 := property;
      var p := base;
      while p != base + n
        invariant base <= p <= base + n && Table(npages, property)
        invariant forall q :: 0 <= q < npages && !(base <= q < base + n) ==> property[q] == p0[q]
      {
        property := property[p := 0];
        p := p + 1;
      }
      forall i | 0 <= i < |blocks| ensures BlockFits(npages, property, blocks[i]) {
        assert BlockFits(npages, p0, blocks[i]) && Covers(blocks[i], blocks[i].at);
        assert InRuns(blocks, blocks[i].at) && !Covers(Run(base, n), blocks[i].at);
      }
    }

    /** Reset, record and link the block, without merging. */
    method LinkBlock(base: int, n: nat) returns (ghost k: nat)
      requires Valid() && n > 0 && 0 <= base && base + n <= npages
      requires DisjointFrom(blocks, Run(base, n))
      modifies this`links, this`property, this`flagged, this`reserved, this`refs, this`nrFree
      ensures LinkTable(npages, links) && Table(npages, property) && Table(npages, flagged)
      ensures Table(npages, reserved) && Table(npages, refs)
      ensures nrFree == old(nrFree) + n && k <= |blocks| && SlotFor(blocks, Run(base, n), k)
      ensures FreeClean(npages, reserved, refs, blocks) && base !in [HEAD] + Heads(blocks) && base in old(links)
      ensures Cleared(reserved, refs, base, n)
      ensures Outside(npages, old(reserved), reserved, base, n) && Outside(npages, old(refs), refs, base, n)
      ensures !TailAppend(Heads(blocks), base) ==>
                Listing(npages, links, property, flagged, blocks[..k] + [Run(base, n)] + blocks[k..])
      ensures TailAppend(Heads(blocks), base) ==>
                && base in links && links[base] == Link(base, HEAD) && base in property && property[base] == n
                && k == |blocks| && HEAD in old(links) && old(links)[HEAD].prev in old(links) && base in old(links)
                && links == TailLinks(old(links), base) && BlocksOk(npages, property, blocks)
    {
      hide Ring, Canonical, BlocksOk, HeadsFlagged, FreeClean, Table, LinkTable, Heads, Listing, TailLinks,
           TailAppend, DisjointFrom, Total, SlotFor, Ascending, Position;
      ghost var f0, v0, c0, m0, p0 := flagged, reserved, refs, links, property;
      TableMembers(npages, v0);
      TableMembers(npages, c0);
      ResetPages(base, n);
      CleanKept(npages, v0, c0, reserved, refs, blocks, Run(base, n));
      TableSet<nat>(npages, property, base, n);
      TableSet(npages, flagged, base, true);
      property := property[base := n];
      flagged := flagged[base := true];
      nrFree := nrFree + n;
      HeadsReady(npages, links, property, blocks, base, n);
      k := InsertLink(base, Heads(blocks));
      LinkTableSame(npages, m0, links);
      FlagsKnown(npages, f0, flagged, base, n);
      LinkedListing(npages, m0, links, p0, f0, flagged, blocks, Run(base, n), k);
      OthersFit(npages, p0, blocks, base, n);
      TableMembers(npages, reserved);
      TableMembers(npages, refs);
    }

    /** default_free_pages. The caller gives back pages that are neither reserved nor block
        heads (the source asserts this) nor otherwise free. Unless the block goes behind the
        last block of a non-empty list, the list is again the canonical one, with exactly
        these pages added; otherwise the links are no doubly linked list any more. */
    method FreePages(base: int, n: nat)
      requires Valid() && n > 0 && 0 <= base && base + n <= npages
      requires forall p :: base <= p < base + n ==> p in reserved && !reserved[p] && p in flagged && !flagged[p]
      requires DisjointFrom(blocks, Run(base, n))
      modifies this
      ensures nrFree == old(nrFree) + n && Cleared(reserved, refs, base, n)
      ensures Outside(npages, old(reserved), reserved, base, n) && Outside(npages, old(refs), refs, base, n)
      ensures !TailAppend(Heads(old(blocks)), base) ==>
                && Valid()
                && exists k: nat :: SlotFor(old(blocks), Run(base, n), k) && blocks == Coalesce(old(blocks), Run(base, n), k)
      ensures TailAppend(Heads(old(blocks)), base) ==> Broken(old(blocks), Run(base, n))
      ensures (exists xs :: Ring(links, HEAD, xs)) <==> !TailAppend(Heads(old(blocks)), base)
    {
      hide Ring, Canonical, BlocksOk, HeadsFlagged, FreeClean, Table, LinkTable, Heads, Listing,
           TailAppend, DisjointFrom, Total, SlotFor;
      ghost var rs := blocks;
      ghost var m0 := links;
      ghost var b := Run(base, n);
      ghost var tail := TailAppend(Heads(blocks), base);
      var k := LinkBlock(base, n);
      MergeAround(base, tail, rs, b, k);
      if tail {
        TailNoRing(m0, Heads(rs), base);
        TailWalks(npages, m0, links, property, rs, b);
      } else {
        blocks := Coalesce(rs, b, k);
        FreeKeeps(npages, reserved, refs, rs, b, k);
        ListingRing(npages, links, property, flagged, blocks);
        assert Ring(links, HEAD, Heads(blocks));
      }
    }

    /** default_init_memmap: as default_free_pages, on reserved pages and without merging. The
        block goes to its place in address order; blocks that touch stay two. */
    method InitMemmap(base: int, n: nat)
      requires Valid() && n > 0 && 0 <= base && base + n <= npages
      requires forall p :: base <= p < base + n ==> p in reserved && reserved[p]
      modifies this
      ensures nrFree == old(nrFree) + n && Cleared(reserved, refs, base, n)
      ensures Outside(npages, old(reserved), reserved, base, n) && Outside(npages, old(refs), refs, base, n)
      ensures old(blocks) == [] ==> Valid() && blocks == [Run(base, n)]
      ensures !TailAppend(Heads(old(blocks)), base) ==>
                && Listing(npages, links, property, flagged, blocks)
                && exists k: nat :: SlotFor(old(blocks), Run(base, n), k)
                                    && blocks == old(blocks)[..k] + [Run(base, n)] + old(blocks)[k..]
      ensures TailAppend(Heads(old(blocks)), base) ==> Broken(old(blocks), Run(base, n))
      ensures (exists xs :: Ring(links, HEAD, xs)) <==> !TailAppend(Heads(old(blocks)), base)
    {
      hide Ring, Canonical, BlocksOk, HeadsFlagged, FreeClean, Table, LinkTable, Heads, Listing,
           TailAppend, DisjointFrom, Total, SlotFor;
      ghost var rs := blocks;
      ghost var m0 := links;
      ghost var b := Run(base, n);
      ghost var tail := TailAppend(Heads(blocks), base);
      EmptyNotTail(rs, base);
      ReservedNotFree(npages, reserved, refs, blocks, b);
      ZeroProperty(base, n);
      var k := LinkBlock(base, n);
      if tail {
        TailNoRing(m0, Heads(rs), base);
        TailWalks(npages, m0, links, property, rs, b);
      } else {
        ghost var ts := rs[..k] + [b] + rs[k..];
        ListingRing(npages, links, property, flagged, ts);
        if rs == [] {
          FreeKeeps(npages, reserved, refs, rs, b, k);
          assert ts == [b] && Coalesce(rs, b, k) == [b];
        }
        blocks := ts;
        assert Ring(links, HEAD, Heads(blocks));
      }
    }
  }

  /** Two pages, allocated together and given back one by one in address order: the second goes to the
      tail of a list that is not empty, and the links are no list any more. */
  method TailRun() returns (pmm: Pmm)
    ensures forall xs :: !Ring(pmm.links, HEAD, xs)
  {
    hide Ring, Canonical, BlocksOk, HeadsFlagged, FreeClean, LinkTable, Listing, Take, NoFit, FirstFit, Coalesce,
         DisjointFrom, Total, SlotFor, Heads, TailAppend, Forward, TakeLinks, SizeFits, FirstOn;
    pmm := new Pmm(2);
    pmm.InitMemmap(0, 2);
    WholeBlock(2);
    ListWalks(2, pmm.property, pmm.links, pmm.blocks);
    var p := pmm.AllocPages(2, Heads(pmm.blocks));
    assert p == Some(0) && pmm.blocks == [];
    FreeOf(pmm.flagged, pmm.blocks);
    pmm.FreePages(0, 1);
    assert pmm.blocks == [Run(0, 1)];
    FreeOf(pmm.flagged, pmm.blocks);
    pmm.FreePages(1, 1);
  }

  /** Unlinking the tail block through its own prev leaves it on the walk, the rest behind it. */
  lemma TailTaken(npages: nat, m: Memory, property: map<int, nat>, rs: seq<Run>, b: Run, n: nat)
    requires Forward(m, Heads(rs) + [b.at]) && LinkTable(npages, m) && b.at in m && m[b.at].prev == b.at
    requires forall j :: 0 <= j <= |rs| ==> SizeFits(npages, m, property, (Heads(rs) + [b.at])[j])
    requires b.at in property && property[b.at] == b.len && 0 < n <= b.len && b.at + b.len <= npages
    requires forall j :: 0 <= j < |rs| ==> rs[j].at < b.at
    ensures m[b.at].next in m && (b.len > n ==> b.at + n in m)
    ensures var t := TakeLinks(m, b.at, n, b.len); var rest := if b.len > n then [b.at + n] else [];
            var size := if b.len > n then property[b.at + n := b.len - n] else property;
            var ys := Heads(rs) + [b.at] + rest;
            LinkTable(npages, t) && Forward(t, ys) && forall j :: 0 <= j < |ys| ==> SizeFits(npages, t, size, ys[j])
  {
    var xs := Heads(rs) + [b.at];
    assert ForwardAt(m, xs, |xs|) && xs[|xs| - 1] == b.at;
    var t := TakeLinks(m, b.at, n, b.len);
    var ys := xs + if b.len > n then [b.at + n] else [];
    forall i | 0 <= i <= |ys| ensures ForwardAt(t, ys, i) {
      if i < |xs| {
        assert ForwardAt(m, xs, i);
      }
    }
    var size := if b.len > n then property[b.at + n := b.len - n] else property;
    forall j | 0 <= j < |ys| ensures SizeFits(npages, t, size, ys[j]) {
      if j < |xs| {
        assert SizeFits(npages, m, property, xs[j]);
      }
    }
  }

  /** The walk stops at the tail block exactly when it is the first that is large enough. */
  lemma TailFirst(npages: nat, size: map<int, nat>, rs: seq<Run>, b: Run, rest: seq<Addr>, n: nat)
    requires BlocksOk(npages, size, rs) && b.at in size && size[b.at] == b.len
    requires (forall j :: 0 <= j < |rs| ==> rs[j].at < b.at) && forall j :: 0 <= j < |rest| ==> rest[j] in size && rest[j] > b.at
    ensures var ys := Heads(rs) + [b.at] + rest;
            && (forall j :: 0 <= j < |ys| ==> ys[j] in size)
            && var i := FirstOn(ys, size, n); (i < |ys| && ys[i] == b.at <==> NoFit(rs, n) && n <= b.len)
  {
    var ys := Heads(rs) + [b.at] + rest;
    forall j | 0 <= j < |rs| ensures ys[j] in size && size[ys[j]] == rs[j].len {
      assert BlockFits(npages, size, rs[j]);
    }
    assert ys[|rs|] == b.at;
    forall j | 0 <= j < |rest| ensures ys[|rs| + 1 + j] == rest[j] {
    }
    assert forall j :: 0 <= j < |ys| ==> ys[j] in size;
    var i := FirstOn(ys, size, n);
    assert i < |ys| && ys[i] == b.at <==> i == |rs|;
  }

  /** A second allocation after the tail block has been handed out. The same pages come again
      exactly when no block before them is large enough, theirs is, and nr_free admits it: the
      recorded size of a block does not shrink when it is handed out. */
  method AllocTwice(pmm: Pmm, n1: nat, n2: nat, tail: int, ghost rs: seq<Run>, ghost b: Run)
    returns (p: Option<int>, q: Option<int>)
    requires pmm.Broken(rs, b) && n1 > 0 && n2 > 0 && tail == b.at
    modifies pmm
    ensures p == Some(tail) <==> NoFit(rs, n1) && n1 <= b.len
    ensures p == Some(tail) ==>
              (q == Some(tail) <==> NoFit(rs, n2) && n2 <= b.len && n1 + n2 <= Total(rs) + b.len)
  {
    hide Forward, LinkTable, Table, TakeLinks, BlocksOk, Total, Heads, NoFit, SizeFits, FirstOn;
    ghost var prop := pmm.property;
    assert Heads(rs) + [b.at] + [] == Heads(rs) + [b.at];
    TailFirst(pmm.npages, prop, rs, b, [], n1);
    TailSize(pmm.npages, pmm.links, prop, rs, b);
    ghost var took := NoFit(rs, n1) && n1 <= b.len;
    if took {
      TailTaken(pmm.npages, pmm.links, prop, rs, b, n1);
    }
    p := pmm.AllocPages(n1, Heads(rs) + [b.at]);
    q := None;
    if p == Some(tail) {
      ghost var rest := if b.len > n1 then [b.at + n1] else [];
      ghost var size := if b.len > n1 then prop[b.at + n1 := b.len - n1] else prop;
      RestFits(pmm.npages, prop, rs, b, n1);
      TailFirst(pmm.npages, size, rs, b, rest, n2);
      q := pmm.AllocPages(n2, Heads(rs) + [b.at] + rest);
    }
  }

  lemma TailSize(n: nat, links: Memory, property: map<int, nat>, rs: seq<Run>, b: Run)
    requires forall j :: 0 <= j <= |rs| ==> SizeFits(n, links, property, (Heads(rs) + [b.at])[j])
    requires b.at in property && property[b.at] == b.len
    ensures b.at + b.len <= n
  {
    assert (Heads(rs) + [b.at])[|rs|] == b.at;
  }

  lemma RestFits(n: nat, property: map<int, nat>, rs: seq<Run>, b: Run, n1: nat)
    requires BlocksOk(n, property, rs) && forall j :: 0 <= j < |rs| ==> rs[j].at < b.at
    ensures n1 < b.len ==> BlocksOk(n, property[b.at + n1 := b.len - n1], rs)
  {
    if n1 < b.len {
      forall i | 0 <= i < |rs| ensures BlockFits(n, property[b.at + n1 := b.len - n1], rs[i]) {
        assert BlockFits(n, property, rs[i]);
      }
    }
  }

  /** Six pages: three free blocks of 1, 1 and 2 pages are left, the last by a tail append. Asked
      for two pages twice, the allocator gives pages 4 and 5 both times. */
  method TailTwice() returns (p: Option<int>, q: Option<int>)
    ensures p == Some(4) && q == Some(4)
  {
    hide Ring, Canonical, BlocksOk, HeadsFlagged, FreeClean, LinkTable, Listing, Take, NoFit, FirstFit, Coalesce,
         DisjointFrom, Total, SlotFor, Heads, TailAppend, Forward, TakeLinks, SizeFits, FirstOn;
    var pmm := new Pmm(6);
    pmm.InitMemmap(0, 6);
    WholeBlock(6);
    ListWalks(6, pmm.property, pmm.links, pmm.blocks);
    var all := pmm.AllocPages(6, Heads(pmm.blocks));
    assert all == Some(0) && pmm.blocks == [];
    SixPages(pmm.flagged, pmm.blocks);
    pmm.FreePages(2, 1);
    assert pmm.blocks == [Run(2, 1)];
    SixPages(pmm.flagged, pmm.blocks);
    pmm.FreePages(0, 1);
    assert pmm.blocks == [Run(0, 1), Run(2, 1)];
    SixPages(pmm.flagged, pmm.blocks);
    ghost var rs := pmm.blocks;
    pmm.FreePages(4, 2);
    p, q := AllocTwice(pmm, 2, 2, 4, rs, Run(4, 2));
  }

  lemma WholeBlock(n: nat)
    requires n > 0
    ensures !NoFit([Run(0, n)], n) && Take([Run(0, n)], 0, n) == []
    ensures forall i: nat :: FirstFit([Run(0, n)], n, i) ==> i == 0
  {
    var rs := [Run(0, n)];
    assert rs[0] == Run(0, n) && rs[..0] == [] && rs[1..] == [];
  }

  lemma SixPages(flagged: map<int, bool>, rs: seq<Run>)
    requires HeadsFlagged(6, flagged, rs) && Table(6, flagged)
    ensures rs == [] ==>
              && !flagged[2] && !TailAppend(Heads(rs), 2) && DisjointFrom(rs, Run(2, 1))
              && forall k: nat :: SlotFor(rs, Run(2, 1), k) ==> Coalesce(rs, Run(2, 1), k) == [Run(2, 1)]
    ensures rs == [Run(2, 1)] ==>
              && !flagged[0] && !TailAppend(Heads(rs), 0) && DisjointFrom(rs, Run(0, 1))
              && forall k: nat :: SlotFor(rs, Run(0, 1), k) ==> Coalesce(rs, Run(0, 1), k) == [Run(0, 1), Run(2, 1)]
    ensures rs == [Run(0, 1), Run(2, 1)] ==>
              && !flagged[4] && !flagged[5] && TailAppend(Heads(rs), 4) && DisjointFrom(rs, Run(4, 2))
              && NoFit(rs, 2) && Total(rs) == 2
  {
    assert rs == [Run(2, 1)] ==> Heads(rs) == [2] && rs[0] == Run(2, 1);
    OneBefore();
    assert rs == [Run(0, 1), Run(2, 1)] ==> Heads(rs) == [0, 2] && rs[0] == Run(0, 1) && rs[1] == Run(2, 1);
    assert rs == [Run(0, 1), Run(2, 1)] ==> rs[1..] == [Run(2, 1)] && [Run(2, 1)][1..] == [];
  }

  lemma OneBefore()
    ensures forall k: nat :: SlotFor([Run(2, 1)], Run(0, 1), k) ==> k == 0
    ensures Coalesce([Run(2, 1)], Run(0, 1), 0) == [Run(0, 1), Run(2, 1)]
  {
    var rs := [Run(2, 1)];
    assert rs[0] == Run(2, 1);
  }

  lemma FreeOf(flagged: map<int, bool>, rs: seq<Run>)
    requires HeadsFlagged(2, flagged, rs) && Table(2, flagged)
    ensures rs == [] ==> !flagged[0] && !TailAppend(Heads(rs), 0) && DisjointFrom(rs, Run(0, 1))
    ensures rs == [] ==> forall k: nat :: SlotFor(rs, Run(0, 1), k) ==> Coalesce(rs, Run(0, 1), k) == [Run(0, 1)]
    ensures rs == [Run(0, 1)] ==> !flagged[1] && TailAppend(Heads(rs), 1) && DisjointFrom(rs, Run(1, 1))
  {
    assert rs == [Run(0, 1)] ==> Heads(rs) == [0];
  }

  /** The list, the sizes and the head flags agree on the blocks rs. */
  ghost predicate Listing(n: nat, links: Memory, property: map<int, nat>, flagged: map<int, bool>, rs: seq<Run>) {
    Ring(links, HEAD, Heads(rs)) && BlocksOk(n, property, rs) && HeadsFlagged(n, flagged, rs)
  }

  /** Blocks i and i + 1 as one block. */
  function JoinRuns(rs: seq<Run>, i: nat): seq<Run>
    requires i + 1 < |rs|
  {
    rs[..i] + [Run(rs[i].at, rs[i].len + rs[i + 1].len)] + rs[i + 2..]
  }

  lemma ListingAt(n: nat, links: Memory, property: map<int, nat>, flagged: map<int, bool>, rs: seq<Run>, i: int)
    requires Listing(n, links, property, flagged, rs) && 0 <= i < |rs|
    ensures BlockFits(n, property, rs[i]) && rs[i].at in links
    ensures links[rs[i].at].prev == (if i > 0 then rs[i - 1].at else HEAD)
    ensures links[rs[i].at].next == (if i + 1 < |rs| then rs[i + 1].at else HEAD)
    ensures i > 0 ==> rs[i - 1].at != HEAD
    ensures i + 1 < |rs| ==> rs[i + 1].at != HEAD
  {
    Neighbours(links, HEAD, Heads(rs), i);
    RingDistinct(links, HEAD, Heads(rs));
    if i > 0 { Neighbours(links, HEAD, Heads(rs), i - 1); }
    if i + 1 < |rs| { Neighbours(links, HEAD, Heads(rs), i + 1); }
  }

  lemma JoinKeeps(n: nat, links: Memory, property: map<int, nat>, flagged: map<int, bool>, rs: seq<Run>, i: nat)
    requires Listing(n, links, property, flagged, rs) && i + 1 < |rs| && rs[i].at + rs[i].len == rs[i + 1].at
    ensures var a, b := rs[i].at, rs[i + 1].at;
            && a in property && b in property && 0 <= a < n && 0 <= b < n
            && b in links && links[b].prev in links && links[b].next in links
            && Del(links, b).Keys == links.Keys
            && Listing(n, Del(links, b), property[a := property[a] + property[b]], flagged[b := false], JoinRuns(rs, i))
  {
    var xs := Heads(rs);
    var a, b := rs[i].at, rs[i + 1].at;
    assert BlockFits(n, property, rs[i]) && BlockFits(n, property, rs[i + 1]);
    RingDistinct(links, HEAD, xs);
    DelAt(links, HEAD, xs, i + 1);
    var ts := JoinRuns(rs, i);
    assert xs[..i + 1] + xs[i + 2..] == Heads(ts);
    JoinBlocks(n, property, rs, i);
    JoinFlags(n, flagged, rs, i);
  }

  lemma JoinBlocks(n: nat, property: map<int, nat>, rs: seq<Run>, i: nat)
    requires BlocksOk(n, property, rs) && i + 1 < |rs| && rs[i].at + rs[i].len == rs[i + 1].at
    requires Distinct(Heads(rs))
    ensures rs[i].at in property && rs[i + 1].at in property
    ensures BlocksOk(n, property[rs[i].at := property[rs[i].at] + property[rs[i + 1].at]], JoinRuns(rs, i))
  {
    assert BlockFits(n, property, rs[i]) && BlockFits(n, property, rs[i + 1]);
    var ts := JoinRuns(rs, i);
    forall j | 0 <= j < |ts|
      ensures BlockFits(n, property[rs[i].at := property[rs[i].at] + property[rs[i + 1].at]], ts[j])
    {
      var k := if j <= i then j else j + 1;
      assert BlockFits(n, property, rs[k]);
      assert Heads(rs)[k] != Heads(rs)[i] || k == i;
    }
  }

  lemma JoinFlags(n: nat, flagged: map<int, bool>, rs: seq<Run>, i: nat)
    requires HeadsFlagged(n, flagged, rs) && i + 1 < |rs| && Distinct(Heads(rs))
    ensures HeadsFlagged(n, flagged[rs[i + 1].at := false], JoinRuns(rs, i))
  {
    var xs, ts := Heads(rs), JoinRuns(rs, i);
    assert Heads(ts) == xs[..i + 1] + xs[i + 2..];
    WithoutAt(xs, i + 1);
    WithoutDistinct(xs, xs[i + 1]);
  }

  /** Joining first to the left and then to the right is Coalesce. */
  lemma JoinedLeft(rs: seq<Run>, b: Run, k: nat)
    requires k <= |rs|
    ensures var r0 := rs[..k] + [b] + rs[k..];
            var r1 := if JoinsLeft(rs, b, k) then JoinRuns(r0, k - 1) else r0;
            var j := if JoinsLeft(rs, b, k) then k - 1 else k;
            && (k > 0 ==> r0[k - 1] == rs[k - 1]) && r0[k] == b
            && j < |r1| && r1[j].at + r1[j].len == b.at + b.len
            && r1[j].at == (if JoinsLeft(rs, b, k) then rs[k - 1].at else b.at)
            && (j + 1 < |r1| <==> k < |rs|) && (k < |rs| ==> r1[j + 1] == rs[k])
            && (if JoinsRight(rs, b, k) then JoinRuns(r1, j) else r1) == Coalesce(rs, b, k)
  {
    hide Coalesce;
    JoinedBoth(rs, b, k);
  }

  lemma JoinedBoth(rs: seq<Run>, b: Run, k: nat)
    requires k <= |rs|
    ensures var r0 := rs[..k] + [b] + rs[k..];
            var r1 := if JoinsLeft(rs, b, k) then JoinRuns(r0, k - 1) else r0;
            var j := if JoinsLeft(rs, b, k) then k - 1 else k;
            j < |r1| && (JoinsRight(rs, b, k) ==> j + 1 < |r1|)
            && (if JoinsRight(rs, b, k) then JoinRuns(r1, j) else r1) == Coalesce(rs, b, k)
  {
    hide JoinRuns;
    var r0 := rs[..k] + [b] + rs[k..];
    var lo, hi := Lo(rs, b, k), Hi(rs, b, k);
    var left := if JoinsLeft(rs, b, k) then Run(rs[k - 1].at, rs[k - 1].len + b.len) else b;
    if JoinsLeft(rs, b, k) {
      assert r0 == rs[..lo] + [rs[k - 1], b] + rs[k..];
      JoinSlices(rs[..lo], rs[k - 1], b, rs[k..]);
    }
    var r1 := rs[..lo] + [left] + rs[k..];
    if JoinsRight(rs, b, k) {
      assert r1 == rs[..lo] + [left, rs[k]] + rs[hi..];
      JoinSlices(rs[..lo], left, rs[k], rs[hi..]);
    }
  }

  lemma JoinSlices(a: seq<Run>, x: Run, y: Run, c: seq<Run>)
    ensures JoinRuns(a + [x, y] + c, |a|) == a + [Run(x.at, x.len + y.len)] + c
  {
    var s := a + [x, y] + c;
    assert s[..|a|] == a && s[|a| + 2..] == c;
  }

  // ----- the bookkeeping of giving a block back -----

  lemma CleanKept(n: nat, v0: map<int, bool>, c0: map<int, int>, v1: map<int, bool>, c1: map<int, int>,
                  rs: seq<Run>, b: Run)
    requires FreeClean(n, v0, c0, rs) && Table(n, v0) && Table(n, c0) && Table(n, v1) && Table(n, c1)
    requires forall p :: 0 <= p < n && Covers(b, p) ==> !v1[p] && c1[p] == 0
    requires forall p :: 0 <= p < n && !Covers(b, p) ==> v1[p] == v0[p] && c1[p] == c0[p]
    ensures FreeClean(n, v1, c1, rs)
  {
  }

  lemma OthersFit(n: nat, property: map<int, nat>, rs: seq<Run>, base: int, len: nat)
    requires BlocksOk(n, property, rs) && base !in Heads(rs)
    ensures BlocksOk(n, property[base := len], rs)
  {
    forall i | 0 <= i < |rs| ensures BlockFits(n, property[base := len], rs[i]) {
      assert BlockFits(n, property, rs[i]) && Heads(rs)[i] == rs[i].at;
    }
  }

  lemma FlagsKnown(n: nat, f0: map<int, bool>, f: map<int, bool>, base: int, len: nat)
    requires Table(n, f0) && Table(n, f)
    ensures forall p :: p in f <==> p in f0
  {
  }

  lemma HeadsReady(n: nat, links: Memory, property: map<int, nat>, rs: seq<Run>, base: int, len: nat)
    requires LinkTable(n, links) && Canonical(rs) && DisjointFrom(rs, Run(base, len)) && 0 <= base
    requires base + len <= n && len > 0
    ensures Ascending(Heads(rs)) && base !in [HEAD] + Heads(rs) && base in links
  {
    var xs := Heads(rs);
    forall i, j | 0 <= i < j < |xs| ensures xs[i] < xs[j] {
      assert Apart(rs[i], rs[j]);
    }
    forall i | 0 <= i < |xs| ensures xs[i] != base {
      assert Covers(rs[i], rs[i].at) && InRuns(rs, rs[i].at);
      assert base == xs[i] ==> Covers(Run(base, len), rs[i].at);
    }
  }

  lemma LinkedListing(n: nat, m0: Memory, m1: Memory, p0: map<int, nat>, f0: map<int, bool>, f: map<int, bool>,
                      rs: seq<Run>, b: Run, k: nat)
    requires Ring(m0, HEAD, Heads(rs)) && BlocksOk(n, p0, rs) && HeadsFlagged(n, f0, rs)
    requires b.len > 0 && 0 <= b.at && b.at + b.len <= n && DisjointFrom(rs, b)
    requires b.at !in [HEAD] + Heads(rs) && b.at in m0 && b.at in f && f[b.at] && b.at in p0
    requires forall p :: p in f <==> p in f0
    requires forall p :: p in f && 0 <= p < n && p != b.at ==> f[p] == (!Covers(b, p) && f0[p])
    requires Position(Heads(rs), b.at, k)
    requires !TailAppend(Heads(rs), b.at) ==> Ring(m1, HEAD, Heads(rs)[..k] + [b.at] + Heads(rs)[k..])
    requires HEAD in m0 && m0[HEAD].prev in m0
    requires TailAppend(Heads(rs), b.at) ==> m1 == TailLinks(m0, b.at)
    ensures SlotFor(rs, b, k) && k <= |rs|
    ensures !TailAppend(Heads(rs), b.at) ==> Listing(n, m1, p0[b.at := b.len], f, rs[..k] + [b] + rs[k..])
    ensures TailAppend(Heads(rs), b.at) ==> b.at in m1 && m1[b.at] == Link(b.at, HEAD)
  {
    var xs, ts := Heads(rs), rs[..k] + [b] + rs[k..];
    SlotOfPosition(rs, b, k);
    if TailAppend(xs, b.at) {
      EmptyIff(m0, HEAD, xs);
    } else {
      assert Heads(ts) == xs[..k] + [b.at] + xs[k..];
      InsertBlocks(n, p0, rs, b, k);
      InsertFlags(n, f0, f, rs, b, k);
    }
  }

  lemma SlotOfPosition(rs: seq<Run>, b: Run, k: nat)
    requires Position(Heads(rs), b.at, k)
    ensures SlotFor(rs, b, k)
  {
    var xs := Heads(rs);
    forall j | 0 <= j < k ensures rs[j].at < b.at {
      assert xs[j] < b.at;
    }
    forall j | k <= j < |rs| ensures b.at < rs[j].at {
      assert b.at < xs[j];
    }
  }

  lemma InsertBlocks(n: nat, property: map<int, nat>, rs: seq<Run>, b: Run, k: nat)
    requires BlocksOk(n, property, rs) && k <= |rs| && b.at !in Heads(rs)
    requires b.len > 0 && 0 <= b.at && b.at + b.len <= n
    ensures BlocksOk(n, property[b.at := b.len], rs[..k] + [b] + rs[k..])
  {
    var ts := rs[..k] + [b] + rs[k..];
    forall j | 0 <= j < |ts| ensures BlockFits(n, property[b.at := b.len], ts[j]) {
      if j != k {
        var i := if j < k then j else j - 1;
        assert BlockFits(n, property, rs[i]) && Heads(rs)[i] != b.at;
      }
    }
  }

  lemma InsertFlags(n: nat, f0: map<int, bool>, f: map<int, bool>, rs: seq<Run>, b: Run, k: nat)
    requires HeadsFlagged(n, f0, rs) && k <= |rs| && b.at in f && f[b.at] && DisjointFrom(rs, b)
    requires forall i :: 0 <= i < |rs| ==> rs[i].len > 0
    requires forall p :: p in f <==> p in f0
    requires forall p :: p in f && 0 <= p < n && p != b.at ==> f[p] == (!Covers(b, p) && f0[p])
    ensures HeadsFlagged(n, f, rs[..k] + [b] + rs[k..])
  {
    var xs, ts := Heads(rs), rs[..k] + [b] + rs[k..];
    assert Heads(ts) == xs[..k] + [b.at] + xs[k..];
    assert xs == xs[..k] + xs[k..];
    forall p | p in f && 0 <= p < n ensures f[p] <==> p in Heads(ts) {
      if p in xs && Covers(b, p) {
        HeadCovered(rs, p);
      }
    }
  }

  lemma HeadCovered(rs: seq<Run>, p: int)
    requires p in Heads(rs) && forall i :: 0 <= i < |rs| ==> rs[i].len > 0
    ensures InRuns(rs, p)
  {
    var i :| 0 <= i < |rs| && Heads(rs)[i] == p;
    assert Covers(rs[i], p);
  }

  lemma ListingRing(n: nat, links: Memory, property: map<int, nat>, flagged: map<int, bool>, rs: seq<Run>)
    requires Listing(n, links, property, flagged, rs)
    ensures Ring(links, HEAD, Heads(rs)) && BlocksOk(n, property, rs) && HeadsFlagged(n, flagged, rs)
  {
  }

  lemma EmptyNotTail(rs: seq<Run>, base: int)
    ensures rs == [] ==> !TailAppend(Heads(rs), base)
  {
  }

  lemma ReservedNotFree(n: nat, reserved: map<int, bool>, refs: map<int, int>, rs: seq<Run>, b: Run)
    requires FreeClean(n, reserved, refs, rs) && Table(n, refs)
    requires forall p :: Covers(b, p) ==> p in reserved && reserved[p] && 0 <= p < n
    ensures DisjointFrom(rs, b)
  {
  }

  lemma FreeKeeps(n: nat, reserved: map<int, bool>, refs: map<int, int>, rs: seq<Run>, b: Run, k: nat)
    requires Canonical(rs) && SlotFor(rs, b, k) && DisjointFrom(rs, b) && b.len > 0
    requires FreeClean(n, reserved, refs, rs)
    requires forall p :: Covers(b, p) ==> p in reserved && p in refs && !reserved[p] && refs[p] == 0
    ensures Canonical(Coalesce(rs, b, k)) && Total(Coalesce(rs, b, k)) == Total(rs) + b.len
    ensures FreeClean(n, reserved, refs, Coalesce(rs, b, k))
  {
    CoalesceCanonical(rs, b, k);
    CoalesceTotal(rs, b, k);
    forall p | p in reserved && p in refs && InRuns(Coalesce(rs, b, k), p) ensures !reserved[p] && refs[p] == 0 {
      CoalescePages(rs, b, k, p);
    }
  }

  lemma PositionFound(xs: seq<Addr>, base: Addr, k: nat)
    requires k < |xs| && Ascending(xs) && base < xs[k] && forall j :: 0 <= j < k ==> xs[j] < base
    ensures Position(xs, base, k) && !TailAppend(xs, base)
  {
  }

  /** list_add_before the first larger block. */
  lemma InsertHere(m: Memory, xs: seq<Addr>, k: nat, base: Addr)
    requires Ring(m, HEAD, xs) && k < |xs| && base !in [HEAD] + xs && base in m
    ensures xs[k] in m && m[xs[k]].prev in m
    ensures Ring(AddBefore(m, xs[k], base), HEAD, xs[..k] + [base] + xs[k..])
    ensures AddBefore(m, xs[k], base).Keys == m.Keys
  {
    Neighbours(m, HEAD, xs, k);
    AddAt(m, HEAD, xs, k, base);
    var c := [HEAD] + xs;
    assert After(c, k) == xs[k];
    assert c[k] == m[xs[k]].prev;
  }

  /** A well-formed list can be walked, and its sizes are those of the blocks. */
  lemma ListWalks(npages: nat, property: map<int, nat>, links: Memory, rs: seq<Run>)
    requires Ring(links, HEAD, Heads(rs)) && BlocksOk(npages, property, rs) && LinkTable(npages, links)
    ensures Forward(links, Heads(rs)) && forall j :: 0 <= j < |rs| ==> SizeFits(npages, links, property, rs[j].at)
  {
    var ys := Heads(rs);
    RingDistinct(links, HEAD, ys);
    EmptyIff(links, HEAD, ys);
    forall i | 0 <= i <= |ys| ensures ForwardAt(links, ys, i) {
      if i > 0 {
        Neighbours(links, HEAD, ys, i - 1);
      }
    }
    forall i | 0 <= i < |rs| ensures SizeFits(npages, links, property, rs[i].at) {
      Neighbours(links, HEAD, ys, i);
      assert BlockFits(npages, property, rs[i]);
    }
  }

  lemma SizesOnList(npages: nat, property: map<int, nat>, rs: seq<Run>)
    requires BlocksOk(npages, property, rs)
    ensures forall i :: 0 <= i < |rs| ==> Heads(rs)[i] in property && property[Heads(rs)[i]] == rs[i].len
  {
    forall i | 0 <= i < |rs| ensures Heads(rs)[i] in property && property[Heads(rs)[i]] == rs[i].len {
      assert BlockFits(npages, property, rs[i]);
    }
  }

  /** Unlinking, splitting and relinking keep all tables in agreement. */
  lemma TakeKeeps(npages: nat, links: Memory, property: map<int, nat>, flagged: map<int, bool>,
                  reserved: map<int, bool>, refs: map<int, int>, rs: seq<Run>, i: nat, n: nat)
    requires Ring(links, HEAD, Heads(rs)) && Canonical(rs) && BlocksOk(npages, property, rs) && LinkTable(npages, links)
    requires HeadsFlagged(npages, flagged, rs) && FreeClean(npages, reserved, refs, rs) && Table(npages, property)
    requires Table(npages, flagged) && i < |rs| && 0 < n <= rs[i].len
    ensures var ts, page, len := Take(rs, i, n), rs[i].at, rs[i].len;
            && page in links && links[page].prev in links && links[page].next in links && (len > n ==> page + n in links)
            && Ring(TakeLinks(links, page, n, len), HEAD, Heads(ts)) && Canonical(ts) && Total(ts) == Total(rs) - n
            && BlocksOk(npages, if len > n then property[page + n := len - n] else property, ts)
            && HeadsFlagged(npages, (if len > n then flagged[page + n := true] else flagged)[page := false], ts)
            && FreeClean(npages, reserved, refs, ts)
  {
    hide Ring, Canonical, HeadsFlagged, FreeClean, Take, Total, Del, AddAfter, Heads;
    BlockKnown(npages, property, links, rs, i, n);
    TakeCanonical(rs, i, n);
    TakeTotal(rs, i, n);
    RelinkTaken(links, rs, i, n);
    TakeBlocks(npages, property, rs, i, n);
    TakeFlags(npages, flagged, rs, i, n);
    TakeClean(npages, reserved, refs, rs, i, n);
  }

  lemma BlockKnown(npages: nat, property: map<int, nat>, links: Memory, rs: seq<Run>, i: nat, n: nat)
    requires BlocksOk(npages, property, rs) && LinkTable(npages, links) && i < |rs| && n <= rs[i].len
    ensures BlockFits(npages, property, rs[i]) && rs[i].at in links
    ensures rs[i].at + n < npages ==> rs[i].at + n in links
  {
  }

  lemma NoRoom(rs: seq<Run>, n: nat)
    ensures n > Total(rs) ==> NoFit(rs, n)
  {
    forall j | 0 <= j < |rs| ensures rs[j].len <= Total(rs) {
      TotalBounds(rs, j);
    }
  }

  /** The pointer work of an allocation: unlink the block, relink its rest in place. */
  lemma RelinkTaken(m: Memory, rs: seq<Run>, i: nat, n: nat)
    requires Ring(m, HEAD, Heads(rs)) && Canonical(rs) && i < |rs| && 0 < n <= rs[i].len
    requires rs[i].at >= 0 && (rs[i].len > n ==> rs[i].at + n in m)
    ensures var page := rs[i].at;
            && page in m && m[page].prev in m && m[page].next in m
            && var prev := m[page].prev; var d := Del(m, page);
            && prev in d && d[prev].next in d && d.Keys == m.Keys
            && (rs[i].len > n ==> AddAfter(d, prev, page + n).Keys == m.Keys)
            && Ring(if rs[i].len > n then AddAfter(d, prev, page + n) else d, HEAD, Heads(Take(rs, i, n)))
  {
    var xs := Heads(rs);
    Neighbours(m, HEAD, xs, i);
    DelAt(m, HEAD, xs, i);
    var ys := xs[..i] + xs[i + 1..];
    var d := Del(m, xs[i]);
    var c := [HEAD] + ys;
    assert c[i] == m[xs[i]].prev;
    assert LinkedAt(d, c, i);
    if rs[i].len > n {
      var p := rs[i].at + n;
      forall j | 0 <= j < |ys| ensures ys[j] != p {
        var k := if j < i then j else j + 1;
        assert k < i ==> Apart(rs[k], rs[i]);
        assert k > i ==> Apart(rs[i], rs[k]);
      }
      AddAt(d, HEAD, ys, i, p);
      assert ys[..i] + [p] + ys[i..] == Heads(Take(rs, i, n));
    } else {
      assert ys == Heads(Take(rs, i, n));
    }
  }

  lemma TakeBlocks(npages: nat, property: map<int, nat>, rs: seq<Run>, i: nat, n: nat)
    requires Canonical(rs) && BlocksOk(npages, property, rs) && i < |rs| && 0 < n <= rs[i].len
    ensures BlocksOk(npages, if rs[i].len > n then property[rs[i].at + n := rs[i].len - n] else property, Take(rs, i, n))
  {
    var property' := if rs[i].len > n then property[rs[i].at + n := rs[i].len - n] else property;
    forall j | 0 <= j < |Take(rs, i, n)| ensures BlockFits(npages, property', Take(rs, i, n)[j]) {
      TakeAt(rs, i, n, j);
      var k := Source(rs, i, n, j);
      assert BlockFits(npages, property, rs[k]);
      assert k < i ==> Apart(rs[k], rs[i]);
      assert k > i ==> Apart(rs[i], rs[k]);
    }
  }

  lemma TakeFlags(npages: nat, flagged: map<int, bool>, rs: seq<Run>, i: nat, n: nat)
    requires Canonical(rs) && HeadsFlagged(npages, flagged, rs) && i < |rs| && 0 < n <= rs[i].len
    ensures HeadsFlagged(npages,
              (if rs[i].len > n then flagged[rs[i].at + n := true] else flagged)[rs[i].at := false], Take(rs, i, n))
  {
    hide Take, Canonical;
    var f := (if rs[i].len > n then flagged[rs[i].at + n := true] else flagged)[rs[i].at := false];
    forall p | p in f && 0 <= p < npages ensures f[p] <==> p in Heads(Take(rs, i, n)) {
      HeadsTake(rs, i, n, p);
    }
  }

  lemma TakeClean(npages: nat, reserved: map<int, bool>, refs: map<int, int>, rs: seq<Run>, i: nat, n: nat)
    requires Canonical(rs) && FreeClean(npages, reserved, refs, rs) && i < |rs| && 0 < n <= rs[i].len
    ensures FreeClean(npages, reserved, refs, Take(rs, i, n))
  {
    forall p | p in reserved && p in refs && InRuns(Take(rs, i, n), p) ensures !reserved[p] && refs[p] == 0 {
      TakePages(rs, i, n, p);
    }
  }

  lemma HeadsTake(rs: seq<Run>, i: nat, n: nat, p: int)
    requires Canonical(rs) && i < |rs| && 0 < n <= rs[i].len
    ensures p in Heads(Take(rs, i, n)) <==>
              (p in Heads(rs) && p != rs[i].at) || (rs[i].len > n && p == rs[i].at + n)
  {
    hide Canonical, Take, Source;
    var ts := Take(rs, i, n);
    if p in Heads(ts) {
      var j :| 0 <= j < |ts| && Heads(ts)[j] == p;
      HeadOfTake(rs, i, n, j);
    }
    if (p in Heads(rs) && p != rs[i].at) || (rs[i].len > n && p == rs[i].at + n) {
      HeadInTake(rs, i, n, p);
    }
  }

  lemma HeadOfTake(rs: seq<Run>, i: nat, n: nat, j: nat)
    requires Canonical(rs) && i < |rs| && 0 < n <= rs[i].len && j < |Take(rs, i, n)|
    ensures var p := Heads(Take(rs, i, n))[j];
            (p in Heads(rs) && p != rs[i].at) || (rs[i].len > n && p == rs[i].at + n)
  {
    hide Take;
    TakeAt(rs, i, n, j);
    var k := Source(rs, i, n, j);
    assert Heads(rs)[k] == rs[k].at;
    assert k < i ==> Apart(rs[k], rs[i]);
    assert k > i ==> Apart(rs[i], rs[k]);
  }

  lemma HeadInTake(rs: seq<Run>, i: nat, n: nat, p: int)
    requires Canonical(rs) && i < |rs| && 0 < n <= rs[i].len
    requires (p in Heads(rs) && p != rs[i].at) || (rs[i].len > n && p == rs[i].at + n)
    ensures p in Heads(Take(rs, i, n))
  {
    hide Canonical;
    var ts := Take(rs, i, n);
    if rs[i].len > n && p == rs[i].at + n {
      TakeAt(rs, i, n, i);
      assert Heads(ts)[i] == p;
    } else {
      var k :| 0 <= k < |rs| && Heads(rs)[k] == p;
      var j := if k <= i || rs[i].len > n then k else k - 1;
      TakeAt(rs, i, n, j);
      assert Heads(ts)[j] == p;
    }
  }
}
