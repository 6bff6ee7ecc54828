/** The pid hash table of kern/process/proc.c: hash32 of libs/hash.c and the bucket lists. */
module PidHash {
  import opened Lists
  import opened ProcModel

  const HASH_LIST_SIZE := 1024
  const GOLDEN_RATIO_PRIME_32: nat := 0x9e37_0001

  /** hash32(pid, 10): the top ten bits of the 32-bit product. */
  function Bucket(pid: int): (b: nat)
    ensures b < HASH_LIST_SIZE
  {
    ((pid % 0x1_0000_0000) * GOLDEN_RATIO_PRIME_32 % 0x1_0000_0000) / 0x40_0000
  }

  ghost predicate BucketOk(b: seq<Ptr>, k: int, procs: map<Ptr, Proc>, list: seq<Ptr>) {
    && Distinct(b)
    && (forall a :: a in b ==> a in list && a in procs && Bucket(procs[a].pid) == k)
    && (forall a :: a in list && a in procs && Bucket(procs[a].pid) == k ==> a in b)
  }

  /** Every bucket holds exactly the listed processes whose pid hashes to it. */
  ghost predicate HashOk(hash: seq<seq<Ptr>>, procs: map<Ptr, Proc>, list: seq<Ptr>) {
    && |hash| == HASH_LIST_SIZE
    && (forall k {:trigger hash[k]} :: 0 <= k < HASH_LIST_SIZE ==> BucketOk(hash[k], k, procs, list))
  }

  lemma HashFrame(hash: seq<seq<Ptr>>, procs: map<Ptr, Proc>, procs': map<Ptr, Proc>, list: seq<Ptr>)
    requires HashOk(hash, procs, list)
    requires procs.Keys == procs'.Keys && forall a :: a in procs ==> procs'[a].pid == procs[a].pid
    ensures HashOk(hash, procs', list)
  {
    forall k | 0 <= k < HASH_LIST_SIZE ensures BucketOk(hash[k], k, procs', list) {
      assert BucketOk(hash[k], k, procs, list);
    }
  }

  lemma HashAdd(hash: seq<seq<Ptr>>, procs: map<Ptr, Proc>, list: seq<Ptr>, a: Ptr, q: Proc)
    requires HashOk(hash, procs, list) && a !in procs && forall x :: x in list ==> x in procs
    ensures var k := Bucket(q.pid);
            HashOk(hash[k := [a] + hash[k]], procs[a := q], [a] + list)
  {
    var k := Bucket(q.pid);
    var h := hash[k := [a] + hash[k]];
    forall j | 0 <= j < HASH_LIST_SIZE ensures BucketOk(h[j], j, procs[a := q], [a] + list) {
      assert BucketOk(hash[j], j, procs, list);
      if j == k {
        DistinctCons(a, hash[k]);
      }
    }
  }

  lemma HashRemove(hash: seq<seq<Ptr>>, procs: map<Ptr, Proc>, list: seq<Ptr>, a: Ptr)
    requires HashOk(hash, procs, list) && a in procs && a in list && Distinct(list)
    ensures var k := Bucket(procs[a].pid);
            HashOk(hash[k := Without(hash[k], a)], procs - {a}, Without(list, a))
  {
    var k := Bucket(procs[a].pid);
    var h := hash[k := Without(hash[k], a)];
    WithoutDistinct(list, a);
    forall j | 0 <= j < HASH_LIST_SIZE ensures BucketOk(h[j], j, procs - {a}, Without(list, a)) {
      assert BucketOk(hash[j], j, procs, list);
      WithoutDistinct(hash[j], a);
    }
  }

  /** find_proc: the bucket scan finds a listed process iff it has that pid. */
  method FindProc(hash: seq<seq<Ptr>>, procs: map<Ptr, Proc>, list: seq<Ptr>, pid: int) returns (r: Ptr)
    requires HashOk(hash, procs, list) && NULL !in list && forall a :: a in list ==> a in procs
    ensures r != NULL ==> r in list && procs[r].pid == pid && 0 < pid < MAX_PID
    ensures r == NULL ==> !(0 < pid < MAX_PID) || forall a :: a in list ==> procs[a].pid != pid
  {
    if 0 < pid < MAX_PID {
      var bucket := hash[Bucket(pid)];
      assert BucketOk(bucket, Bucket(pid), procs, list);
      var i := 0;
      while i < |bucket|
        invariant 0 <= i <= |bucket|
        invariant forall j :: 0 <= j < i ==> procs[bucket[j]].pid != pid
      {
        assert bucket[i] in bucket;
        if procs[bucket[i]].pid == pid {
          return bucket[i];
        }
        i := i + 1;
      }
      forall a | a in list ensures procs[a].pid != pid {
        assert procs[a].pid == pid ==> a in bucket;
      }
    }
    return NULL;
  }
}
