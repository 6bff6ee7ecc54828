/** get_pid: the interval trick of kern/process/proc.c. `last` and `safe` are the static
    variables last_pid and next_safe; `pids` lists the pids along proc_list. */
module PidAlloc {
  const MAX_PROCESS := 4096
  const MAX_PID := 8192

  predicate Free(pids: seq<int>, q: int) {
    0 < q < MAX_PID && q !in pids
  }

  /** No pid in use lies strictly between last_pid and next_safe. */
  predicate GapBetween(pids: seq<int>, last: int, safe: int) {
    forall p :: p in pids ==> !(last < p < safe)
  }

  predicate StaticsOk(pids: seq<int>, last: int, safe: int) {
    1 <= last <= MAX_PID && 1 <= safe <= MAX_PID && GapBetween(pids, last, safe)
  }

  /** How many increments of last_pid, wrapping from MAX_PID - 1 to 1, lead from `last` to q. */
  function Steps(last: int, q: int): int {
    if q > last then q - last
    else if last >= MAX_PID - 1 then q
    else MAX_PID - 1 - last + q
  }

  /** r is the first free pid after `last` in cyclic order. */
  ghost predicate NextFree(pids: seq<int>, last: int, r: int) {
    Free(pids, r) && forall q :: Free(pids, q) ==> Steps(last, r) <= Steps(last, q)
  }

  /** The cyclically next free pid is unique, so get_pid is deterministic. */
  lemma NextFreeUnique(pids: seq<int>, last: int, r: int, r': int)
    requires 1 <= last <= MAX_PID && NextFree(pids, last, r) && NextFree(pids, last, r')
    ensures r == r'
  {
    assert Free(pids, r) && Free(pids, r');
  }

  // ----- a free pid exists -----

  function Range(n: nat): (r: set<int>)
    ensures forall x :: x in r <==> 1 <= x <= n
    ensures |r| == n
  {
    if n == 0 then {} else Range(n - 1) + {n}
  }

  function Elements(s: seq<int>): (r: set<int>)
    ensures forall x :: x in r <==> x in s
    ensures |r| <= |s|
  {
    if s == [] then {} else
      assert s == [s[0]] + s[1..];
      Elements(s[1..]) + {s[0]}
  }

  lemma SubsetSize(a: set<int>, b: set<int>)
    requires a <= b
    ensures |a| <= |b|
  {
    assert b == a + (b - a);
  }

  /** MAX_PROCESS is below MAX_PID, so some pid is unused. */
  lemma SomeFree(pids: seq<int>)
    requires |pids| < MAX_PROCESS
    ensures exists q :: Free(pids, q)
  {
    if forall q :: 0 < q < MAX_PID ==> q in pids {
      SubsetSize(Range(MAX_PID - 1), Elements(pids));
    } else {
      var q :| 0 < q < MAX_PID && q !in pids;
      assert Free(pids, q);
    }
  }

  // ----- the scan from label `repeat` -----

  function Ahead(last: int, f: int): int {
    if f >= last then f - last else MAX_PID - 1 - last + f
  }

  method Scan(pids: seq<int>, start: int) returns (last: int, safe: int)
    requires 1 <= start < MAX_PID
    requires exists q :: Free(pids, q)
    ensures Free(pids, last)
    ensures forall q :: Free(pids, q) ==> Ahead(start, last) <= Ahead(start, q)
    ensures last < safe <= MAX_PID
    ensures forall p :: p in pids ==> !(last <= p < safe)
  {
    ghost var f :| Free(pids, f);
    last, safe := start, MAX_PID;
    var scanned := false;
    while !scanned
      invariant 1 <= last < safe <= MAX_PID
      invariant !scanned ==> safe == MAX_PID
      invariant forall q :: Free(pids, q) ==> Ahead(start, q) == Ahead(start, last) + Ahead(last, q)
      invariant scanned ==> forall p :: p in pids ==> !(last <= p < safe)
      decreases Ahead(last, f), !scanned
    {
      var i := 0;
      scanned := true;
      ghost var before := last;
      while i < |pids| && scanned
        invariant 0 <= i <= |pids|
        invariant 1 <= last < safe <= MAX_PID
        invariant !scanned ==> safe == MAX_PID
        invariant forall q :: Free(pids, q) ==> Ahead(start, q) == Ahead(start, last) + Ahead(last, q)
        invariant scanned ==> forall k :: 0 <= k < i ==> !(last <= pids[k] < safe)
        invariant Ahead(last, f) <= Ahead(before, f)
        invariant !scanned ==> Ahead(last, f) < Ahead(before, f)
        decreases |pids| - i, scanned
      {
        if pids[i] == last {
          assert forall q :: Free(pids, q) ==> q != last;
          last := last + 1;
          if last >= safe {
            if last >= MAX_PID {
              last := 1;
            }
            safe := MAX_PID;
            scanned := false;
          }
        } else if pids[i] > last && safe > pids[i] {
          safe := pids[i];
        }
        i := i + 1;
      }
    }
  }

  /** get_pid terminates and returns the next free pid in cyclic order; the static
      variables again bracket a gap once the new pid is in use. */
  method GetPid(pids: seq<int>, last0: int, safe0: int) returns (last: int, safe: int)
    requires |pids| < MAX_PROCESS
    requires StaticsOk(pids, last0, safe0)
    ensures NextFree(pids, last0, last)
    ensures StaticsOk([last] + pids, last, safe)
  {
    SomeFree(pids);
    last, safe := last0 + 1, safe0;
    if last >= MAX_PID {
      last, safe := Scan(pids, 1);
    } else if last >= safe {
      last, safe := Scan(pids, last);
    }
  }
}
