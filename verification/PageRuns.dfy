/** A set of free pages as a list of runs of consecutive pages: the free list of
    kern/mm/default_pmm.c seen as a value. */
module PageRuns {
  /** A free block: its head page and its number of pages. */
  datatype Run = Run(at: int, len: nat)

  /** The first pages of the runs. */
  function Heads(rs: seq<Run>): (xs: seq<int>)
    ensures |xs| == |rs| && forall i :: 0 <= i < |rs| ==> xs[i] == rs[i].at
  {
    seq(|rs|, i requires 0 <= i < |rs| => rs[i].at)
  }

  predicate Covers(r: Run, x: int) {
    r.at <= x < r.at + r.len
  }

  ghost predicate InRuns(rs: seq<Run>, x: int) {
    exists i :: 0 <= i < |rs| && Covers(rs[i], x)
  }

  /** Ends before the other begins, with a page in between. */
  predicate Apart(r: Run, s: Run) {
    r.at + r.len < s.at
  }

  /** Ascending, non-empty and pairwise non-adjacent: maximal runs in address order. */
  predicate Canonical(rs: seq<Run>) {
    && (forall i :: 0 <= i < |rs| ==> rs[i].len > 0)
    && (forall i, j :: 0 <= i < j < |rs| ==> Apart(rs[i], rs[j]))
  }

  function Total(rs: seq<Run>): nat {
    if rs == [] then 0 else rs[0].len + Total(rs[1..])
  }

  // ----- uniqueness -----

  lemma InRunsSplit(rs: seq<Run>, x: int)
    requires rs != []
    ensures InRuns(rs, x) <==> Covers(rs[0], x) || InRuns(rs[1..], x)
  {
    if InRuns(rs[1..], x) {
      var i :| 0 <= i < |rs[1..]| && Covers(rs[1..][i], x);
      assert Covers(rs[i + 1], x);
    }
    if InRuns(rs, x) && !Covers(rs[0], x) {
      var i :| 0 <= i < |rs| && Covers(rs[i], x);
      assert Covers(rs[1..][i - 1], x);
    }
  }

  lemma TailAbove(rs: seq<Run>, x: int)
    requires Canonical(rs) && rs != [] && InRuns(rs[1..], x)
    ensures x > rs[0].at + rs[0].len
  {
    var i :| 0 <= i < |rs[1..]| && Covers(rs[1..][i], x);
    assert Apart(rs[0], rs[i + 1]);
  }

  lemma FirstAtMost(rs: seq<Run>, ss: seq<Run>)
    requires Canonical(rs) && Canonical(ss) && rs != [] && ss != []
    requires forall x :: InRuns(rs, x) ==> InRuns(ss, x)
    ensures ss[0].at <= rs[0].at
    ensures ss[0].at == rs[0].at ==> rs[0].len <= ss[0].len
  {
    assert Covers(rs[0], rs[0].at);
    assert InRuns(rs, rs[0].at);
    InRunsSplit(ss, rs[0].at);
    if InRuns(ss[1..], rs[0].at) {
      TailAbove(ss, rs[0].at);
    }
    if ss[0].at == rs[0].at && ss[0].len < rs[0].len {
      var y := ss[0].at + ss[0].len;
      assert Covers(rs[0], y) && InRuns(rs, y);
      InRunsSplit(ss, y);
      TailAbove(ss, y);
    }
  }

  /** A set of pages has only one decomposition into maximal runs. */
  lemma {:induction false} CanonicalUnique(rs: seq<Run>, ss: seq<Run>)
    requires Canonical(rs) && Canonical(ss)
    requires forall x :: InRuns(rs, x) <==> InRuns(ss, x)
    ensures rs == ss
  {
    HeadCovered(rs);
    HeadCovered(ss);
    if rs != [] && ss != [] {
      FirstAtMost(rs, ss);
      FirstAtMost(ss, rs);
      forall x ensures InRuns(rs[1..], x) <==> InRuns(ss[1..], x) {
        InRunsSplit(rs, x);
        InRunsSplit(ss, x);
        if InRuns(rs[1..], x) { TailAbove(rs, x); }
        if InRuns(ss[1..], x) { TailAbove(ss, x); }
      }
      CanonicalUnique(rs[1..], ss[1..]);
      assert rs == [rs[0]] + rs[1..] && ss == [ss[0]] + ss[1..];
    }
  }

  lemma HeadCovered(rs: seq<Run>)
    requires Canonical(rs)
    ensures rs != [] ==> InRuns(rs, rs[0].at)
  {
    assert rs != [] ==> Covers(rs[0], rs[0].at);
  }

  // ----- the size of the free set -----

  function Interval(at: int, len: nat): (s: set<int>)
    ensures forall x :: x in s <==> at <= x < at + len
    ensures |s| == len
    decreases len
  {
    if len == 0 then {} else Interval(at, len - 1) + {at + len - 1}
  }

  function PageSet(rs: seq<Run>): (s: set<int>)
    ensures forall x :: x in s <==> InRuns(rs, x)
  {
    if rs == [] then {} else
      var s := Interval(rs[0].at, rs[0].len) + PageSet(rs[1..]);
      assert forall x :: x in s <==> InRuns(rs, x) by {
        forall x ensures x in s <==> InRuns(rs, x) {
          InRunsSplit(rs, x);
        }
      }
      s
  }

  /** The block sizes of disjoint blocks add up to the number of free pages. */
  lemma {:induction false} TotalIsSize(rs: seq<Run>)
    requires Canonical(rs)
    ensures |PageSet(rs)| == Total(rs)
  {
    if rs != [] {
      forall x | x in PageSet(rs[1..]) ensures x !in Interval(rs[0].at, rs[0].len) {
        TailAbove(rs, x);
      }
      assert PageSet(rs) == Interval(rs[0].at, rs[0].len) + PageSet(rs[1..]);
      TotalIsSize(rs[1..]);
    }
  }

  lemma {:induction false} TotalConcat(rs: seq<Run>, ss: seq<Run>)
    ensures Total(rs + ss) == Total(rs) + Total(ss)
  {
    if rs == [] {
      assert [] + ss == ss;
    } else {
      assert (rs + ss)[1..] == rs[1..] + ss;
      TotalConcat(rs[1..], ss);
    }
  }

  lemma {:induction false} TotalBounds(rs: seq<Run>, i: nat)
    requires i < |rs|
    ensures rs[i].len <= Total(rs)
  {
    if i > 0 {
      TotalBounds(rs[1..], i - 1);
    }
  }

  // ----- first fit -----

  /** The first block of at least n pages. */
  predicate FirstFit(rs: seq<Run>, n: nat, i: nat) {
    i < |rs| && rs[i].len >= n && forall j :: 0 <= j < i ==> rs[j].len < n
  }

  predicate NoFit(rs: seq<Run>, n: nat) {
    forall j :: 0 <= j < |rs| ==> rs[j].len < n
  }

  function Rest(r: Run, n: nat): seq<Run>
    requires n <= r.len
  {
    if r.len > n then [Run(r.at + n, r.len - n)] else []
  }

  /** The list after taking the first n pages of block i. */
  function Take(rs: seq<Run>, i: nat, n: nat): seq<Run>
    requires i < |rs| && n <= rs[i].len
  {
    rs[..i] + Rest(rs[i], n) + rs[i + 1..]
  }

  /** The block of rs that block j of Take(rs, i, n) comes from. */
  function Source(rs: seq<Run>, i: nat, n: nat, j: nat): nat
    requires i < |rs| && n <= rs[i].len
  {
    if j < i || rs[i].len > n then j else j + 1
  }

  lemma TakeAt(rs: seq<Run>, i: nat, n: nat, j: nat)
    requires i < |rs| && n <= rs[i].len && j < |Take(rs, i, n)|
    ensures Source(rs, i, n, j) < |rs|
    ensures Take(rs, i, n)[j] ==
              if Source(rs, i, n, j) == i then Run(rs[i].at + n, rs[i].len - n) else rs[Source(rs, i, n, j)]
    ensures Source(rs, i, n, j) == i ==> rs[i].len > n
  {
  }

  lemma TakenPage(rs: seq<Run>, i: nat, n: nat, x: int)
    requires Canonical(rs) && i < |rs| && 0 < n <= rs[i].len && InRuns(Take(rs, i, n), x)
    ensures InRuns(rs, x) && !(rs[i].at <= x < rs[i].at + n)
  {
    hide Take;
    var ts := Take(rs, i, n);
    var j :| 0 <= j < |ts| && Covers(ts[j], x);
    TakeAt(rs, i, n, j);
    var k := Source(rs, i, n, j);
    assert Covers(rs[k], x);
    assert k < i ==> Apart(rs[k], rs[i]);
    assert k > i ==> Apart(rs[i], rs[k]);
  }

  lemma KeptPage(rs: seq<Run>, i: nat, n: nat, x: int)
    requires Canonical(rs) && i < |rs| && 0 < n <= rs[i].len && InRuns(rs, x) && !(rs[i].at <= x < rs[i].at + n)
    ensures InRuns(Take(rs, i, n), x)
  {
    var ts := Take(rs, i, n);
    var k :| 0 <= k < |rs| && Covers(rs[k], x);
    var j := if k <= i || rs[i].len > n then k else k - 1;
    TakeAt(rs, i, n, j);
    assert Covers(ts[j], x);
  }

  lemma TakePages(rs: seq<Run>, i: nat, n: nat, x: int)
    requires Canonical(rs) && i < |rs| && 0 < n <= rs[i].len
    ensures InRuns(Take(rs, i, n), x) <==> InRuns(rs, x) && !(rs[i].at <= x < rs[i].at + n)
  {
    hide Take, Canonical, InRuns;
    if InRuns(Take(rs, i, n), x) {
      TakenPage(rs, i, n, x);
    }
    if InRuns(rs, x) && !(rs[i].at <= x < rs[i].at + n) {
      KeptPage(rs, i, n, x);
    }
  }

  lemma TakeTotal(rs: seq<Run>, i: nat, n: nat)
    requires i < |rs| && n <= rs[i].len
    ensures Total(Take(rs, i, n)) == Total(rs) - n
  {
    assert rs == rs[..i] + [rs[i]] + rs[i + 1..];
    TotalConcat(rs[..i], [rs[i]]);
    TotalConcat(rs[..i] + [rs[i]], rs[i + 1..]);
    TotalConcat(rs[..i], Rest(rs[i], n));
    TotalConcat(rs[..i] + Rest(rs[i], n), rs[i + 1..]);
  }

  lemma TakeCanonical(rs: seq<Run>, i: nat, n: nat)
    requires Canonical(rs) && i < |rs| && 0 < n <= rs[i].len
    ensures Canonical(Take(rs, i, n))
  {
    var ts := Take(rs, i, n);
    hide Take;
    forall j | 0 <= j < |ts| ensures ts[j].len > 0 {
      TakeAt(rs, i, n, j);
    }
    forall j, k | 0 <= j < k < |ts| ensures Apart(ts[j], ts[k]) {
      TakeAt(rs, i, n, j);
      TakeAt(rs, i, n, k);
      assert Apart(rs[Source(rs, i, n, j)], rs[Source(rs, i, n, k)]);
    }
  }

  /** First fit returns the lowest page at which n free pages start a maximal run. */
  lemma FirstFitIsLowest(rs: seq<Run>, n: nat, i: nat, a: int)
    requires Canonical(rs) && n > 0 && FirstFit(rs, n, i)
    requires forall x :: a <= x < a + n ==> InRuns(rs, x)
    ensures rs[i].at <= a
  {
    if a < rs[i].at {
      var k := RunOf(rs, a, n);
    }
  }

  /** The page after a maximal run is not free. */
  lemma EdgeNotFree(rs: seq<Run>, k: nat)
    requires Canonical(rs) && k < |rs|
    ensures !InRuns(rs, rs[k].at + rs[k].len)
  {
    var e := rs[k].at + rs[k].len;
    forall j | 0 <= j < |rs| ensures !Covers(rs[j], e) {
      assert j < k ==> Apart(rs[j], rs[k]);
      assert j > k ==> Apart(rs[k], rs[j]);
    }
  }

  /** n consecutive free pages lie inside one block. */
  lemma RunOf(rs: seq<Run>, a: int, n: nat) returns (k: nat)
    requires Canonical(rs) && n > 0 && forall x :: a <= x < a + n ==> InRuns(rs, x)
    ensures k < |rs| && rs[k].at <= a && a + n <= rs[k].at + rs[k].len
  {
    assert InRuns(rs, a);
    k :| 0 <= k < |rs| && Covers(rs[k], a);
    EdgeNotFree(rs, k);
  }

  // ----- freeing -----

  /** Position i in address order for a block b. */
  predicate SlotFor(rs: seq<Run>, b: Run, i: nat) {
    && i <= |rs| && (forall j :: 0 <= j < i ==> rs[j].at < b.at)
    && (forall j :: i <= j < |rs| ==> b.at < rs[j].at)
  }

  ghost predicate DisjointFrom(rs: seq<Run>, b: Run) {
    forall x :: Covers(b, x) ==> !InRuns(rs, x)
  }

  predicate JoinsLeft(rs: seq<Run>, b: Run, i: nat)
    requires i <= |rs|
  {
    i > 0 && rs[i - 1].at + rs[i - 1].len == b.at
  }

  predicate JoinsRight(rs: seq<Run>, b: Run, i: nat)
    requires i <= |rs|
  {
    i < |rs| && b.at + b.len == rs[i].at
  }

  /** b merged with the free blocks it touches. */
  function Joined(rs: seq<Run>, b: Run, i: nat): Run
    requires i <= |rs|
  {
    var a := if JoinsLeft(rs, b, i) then rs[i - 1].at else b.at;
    var e := if JoinsRight(rs, b, i) then rs[i].len else 0;
    Run(a, (if JoinsLeft(rs, b, i) then rs[i - 1].len else 0) + b.len + e)
  }

  function Lo(rs: seq<Run>, b: Run, i: nat): nat
    requires i <= |rs|
  {
    if JoinsLeft(rs, b, i) then i - 1 else i
  }

  function Hi(rs: seq<Run>, b: Run, i: nat): nat
    requires i <= |rs|
    ensures Lo(rs, b, i) <= Hi(rs, b, i) <= |rs|
  {
    if JoinsRight(rs, b, i) then i + 1 else i
  }

  /** The list after freeing b at position i. */
  function Coalesce(rs: seq<Run>, b: Run, i: nat): seq<Run>
    requires i <= |rs|
  {
    rs[..Lo(rs, b, i)] + [Joined(rs, b, i)] + rs[Hi(rs, b, i)..]
  }

  /** Disjoint blocks at their place in address order do not overlap their neighbours. */
  lemma SlotApart(rs: seq<Run>, b: Run, i: nat, j: nat)
    requires Canonical(rs) && SlotFor(rs, b, i) && DisjointFrom(rs, b) && b.len > 0 && j < |rs|
    ensures j < i ==> rs[j].at + rs[j].len <= b.at
    ensures j >= i ==> b.at + b.len <= rs[j].at
  {
    if j < i && rs[j].at + rs[j].len > b.at {
      assert Covers(b, b.at) && Covers(rs[j], b.at);
    }
    if j >= i && b.at + b.len > rs[j].at {
      assert Covers(b, rs[j].at) && Covers(rs[j], rs[j].at);
    }
  }

  lemma JoinedApart(rs: seq<Run>, b: Run, i: nat, j: nat)
    requires Canonical(rs) && SlotFor(rs, b, i) && DisjointFrom(rs, b) && b.len > 0 && j < |rs|
    ensures j < Lo(rs, b, i) ==> Apart(rs[j], Joined(rs, b, i))
    ensures j >= Hi(rs, b, i) ==> Apart(Joined(rs, b, i), rs[j])
  {
    SlotApart(rs, b, i, j);
    if i > 0 {
      SlotApart(rs, b, i, i - 1);
      assert j < i - 1 ==> Apart(rs[j], rs[i - 1]);
    }
    if i < |rs| {
      SlotApart(rs, b, i, i);
      assert j > i ==> Apart(rs[i], rs[j]);
    }
  }

  /** Freeing a block keeps the runs maximal. */
  lemma CoalesceCanonical(rs: seq<Run>, b: Run, i: nat)
    requires Canonical(rs) && SlotFor(rs, b, i) && DisjointFrom(rs, b) && b.len > 0
    ensures Canonical(Coalesce(rs, b, i))
  {
    var ts := Coalesce(rs, b, i);
    var lo, hi := Lo(rs, b, i), Hi(rs, b, i);
    forall j, k | 0 <= j < k < |ts| ensures Apart(ts[j], ts[k]) {
      var j' := if j < lo then j else j - lo - 1 + hi;
      var k' := if k < lo then k else k - lo - 1 + hi;
      if j == lo {
        JoinedApart(rs, b, i, k');
      } else if k == lo {
        JoinedApart(rs, b, i, j');
      } else {
        assert Apart(rs[j'], rs[k']);
      }
    }
  }

  lemma InRunsConcat(rs: seq<Run>, ss: seq<Run>, x: int)
    ensures InRuns(rs + ss, x) <==> InRuns(rs, x) || InRuns(ss, x)
  {
    if InRuns(rs, x) {
      var i :| 0 <= i < |rs| && Covers(rs[i], x);
      assert Covers((rs + ss)[i], x);
    }
    if InRuns(ss, x) {
      var i :| 0 <= i < |ss| && Covers(ss[i], x);
      assert Covers((rs + ss)[|rs| + i], x);
    }
    if InRuns(rs + ss, x) {
      var i :| 0 <= i < |rs + ss| && Covers((rs + ss)[i], x);
      assert if i < |rs| then Covers(rs[i], x) else Covers(ss[i - |rs|], x);
    }
  }

  lemma JoinedPages(rs: seq<Run>, b: Run, i: nat, x: int)
    requires i <= |rs|
    ensures Covers(Joined(rs, b, i), x) <==> InRuns(rs[Lo(rs, b, i)..Hi(rs, b, i)], x) || Covers(b, x)
  {
    var mid := rs[Lo(rs, b, i)..Hi(rs, b, i)];
    if JoinsLeft(rs, b, i) {
      assert mid[0] == rs[i - 1];
      assert Covers(rs[i - 1], x) ==> InRuns(mid, x);
    }
    if JoinsRight(rs, b, i) {
      assert mid[|mid| - 1] == rs[i];
      assert Covers(rs[i], x) ==> InRuns(mid, x);
    }
  }

  /** Freeing a block adds exactly its pages. */
  lemma CoalescePages(rs: seq<Run>, b: Run, i: nat, x: int)
    requires i <= |rs|
    ensures InRuns(Coalesce(rs, b, i), x) <==> InRuns(rs, x) || Covers(b, x)
  {
    var lo, hi := Lo(rs, b, i), Hi(rs, b, i);
    var j := Joined(rs, b, i);
    JoinedPages(rs, b, i, x);
    hide InRuns, Joined, Lo, Hi, Covers;
    assert rs == rs[..lo] + rs[lo..hi] + rs[hi..];
    InRunsConcat(rs[..lo], rs[lo..hi], x);
    InRunsConcat(rs[..lo] + rs[lo..hi], rs[hi..], x);
    InRunsConcat(rs[..lo], [j], x);
    InRunsConcat(rs[..lo] + [j], rs[hi..], x);
    InSingle(j, x);
  }

  lemma InSingle(r: Run, x: int)
    ensures InRuns([r], x) <==> Covers(r, x)
  {
    assert [r][0] == r;
  }

  lemma CoalesceTotal(rs: seq<Run>, b: Run, i: nat)
    requires i <= |rs|
    ensures Total(Coalesce(rs, b, i)) == Total(rs) + b.len
  {
    hide Total, Joined, Lo, Hi;
    var lo, hi := Lo(rs, b, i), Hi(rs, b, i);
    assert rs == rs[..lo] + rs[lo..hi] + rs[hi..];
    TotalConcat(rs[..lo], rs[lo..hi]);
    TotalConcat(rs[..lo] + rs[lo..hi], rs[hi..]);
    TotalConcat(rs[..lo], [Joined(rs, b, i)]);
    TotalConcat(rs[..lo] + [Joined(rs, b, i)], rs[hi..]);
    MiddleTotal(rs, b, i);
  }

  lemma MiddleTotal(rs: seq<Run>, b: Run, i: nat)
    requires i <= |rs|
    ensures Total([Joined(rs, b, i)]) == Total(rs[Lo(rs, b, i)..Hi(rs, b, i)]) + b.len
  {
    var mid := rs[Lo(rs, b, i)..Hi(rs, b, i)];
    if |mid| == 2 {
      assert mid == [rs[i - 1]] + [rs[i]];
      TotalConcat([rs[i - 1]], [rs[i]]);
    } else if |mid| == 1 {
      assert mid == [if JoinsLeft(rs, b, i) then rs[i - 1] else rs[i]];
    } else {
      assert mid == [];
    }
  }

  /** Freeing what an allocation returned restores the very same list. */
  lemma FreeAfterAlloc(rs: seq<Run>, n: nat, i: nat, k: nat)
    requires Canonical(rs) && i < |rs| && 0 < n <= rs[i].len
    requires SlotFor(Take(rs, i, n), Run(rs[i].at, n), k)
    ensures Coalesce(Take(rs, i, n), Run(rs[i].at, n), k) == rs
  {
    var ts, b := Take(rs, i, n), Run(rs[i].at, n);
    TakeCanonical(rs, i, n);
    forall x ensures InRuns(Coalesce(ts, b, k), x) <==> InRuns(rs, x) {
      TakePages(rs, i, n, x);
      CoalescePages(ts, b, k, x);
      assert Covers(b, x) ==> Covers(rs[i], x);
    }
    forall x | Covers(b, x) ensures !InRuns(ts, x) {
      TakePages(rs, i, n, x);
    }
    CoalesceCanonical(ts, b, k);
    CanonicalUnique(Coalesce(ts, b, k), rs);
  }
}
