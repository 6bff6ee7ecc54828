/** The circular doubly linked list of libs/list.h at pointer level, and the sequence of
    elements it stands for. */
module ListRing {
  import opened Lists

  /** Address of a list_entry_t. */
  type Addr = int

  datatype Link = Link(prev: Addr, next: Addr)

  type Memory = map<Addr, Link>

  // ----- the code of list.h -----

  function SetNext(m: Memory, a: Addr, v: Addr): Memory
    requires a in m
  {
    m[a := m[a].(next := v)]
  }

  function SetPrev(m: Memory, a: Addr, v: Addr): Memory
    requires a in m
  {
    m[a := m[a].(prev := v)]
  }

  /** __list_add, assignment by assignment. */
  function AddBetween(m: Memory, elm: Addr, prev: Addr, next: Addr): Memory
    requires elm in m && prev in m && next in m
  {
    var m1 := SetPrev(m, next, elm);
    var m2 := SetNext(m1, prev, elm);
    var m3 := SetNext(m2, elm, next);
    SetPrev(m3, elm, prev)
  }

  /** list_add and list_add_after. */
  function AddAfter(m: Memory, at: Addr, elm: Addr): Memory
    requires elm in m && at in m && m[at].next in m
  {
    AddBetween(m, elm, at, m[at].next)
  }

  function AddBefore(m: Memory, at: Addr, elm: Addr): Memory
    requires elm in m && at in m && m[at].prev in m
  {
    AddBetween(m, elm, m[at].prev, at)
  }

  /** list_del. */
  function Del(m: Memory, a: Addr): Memory
    requires a in m && m[a].prev in m && m[a].next in m
  {
    SetPrev(SetNext(m, m[a].prev, m[a].next), m[a].next, m[a].prev)
  }

  /** list_init. */
  function Init(m: Memory, a: Addr): Memory {
    m[a := Link(a, a)]
  }

  // ----- what a list denotes -----

  /** Element after position i of a cycle. */
  function After(c: seq<Addr>, i: int): Addr
    requires 0 <= i < |c|
  {
    if i + 1 < |c| then c[i + 1] else c[0]
  }

  ghost predicate LinkedAt(m: Memory, c: seq<Addr>, i: int)
    requires 0 <= i < |c|
  {
    && c[i] in m && After(c, i) in m
    && m[c[i]].next == After(c, i) && m[After(c, i)].prev == c[i]
  }

  /** From `head`, next visits xs in order and returns; prev is the inverse of next. */
  ghost predicate Ring(m: Memory, head: Addr, xs: seq<Addr>) {
    && Distinct([head] + xs)
    && forall i {:trigger LinkedAt(m, [head] + xs, i)} :: 0 <= i <= |xs| ==> LinkedAt(m, [head] + xs, i)
  }

  lemma RingDistinct(m: Memory, head: Addr, xs: seq<Addr>)
    requires Ring(m, head, xs)
    ensures Distinct(xs) && head !in xs
  {
    var c := [head] + xs;
    forall i, j | 0 <= i < j < |xs| ensures xs[i] != xs[j] {
      assert c[i + 1] != c[j + 1];
    }
    forall i | 0 <= i < |xs| ensures xs[i] != head {
      assert c[0] != c[i + 1];
    }
  }

  /** list_empty. */
  lemma EmptyIff(m: Memory, head: Addr, xs: seq<Addr>)
    requires Ring(m, head, xs)
    ensures head in m && (m[head].next == head <==> xs == [])
    ensures m[head].next == (if xs == [] then head else xs[0])
    ensures m[head].prev == (if xs == [] then head else xs[|xs| - 1])
  {
    var c := [head] + xs;
    assert LinkedAt(m, c, 0) && LinkedAt(m, c, |xs|);
    if xs != [] {
      assert c[0] != c[1];
    }
  }

  /** Neighbours of an element. */
  lemma Neighbours(m: Memory, head: Addr, xs: seq<Addr>, i: nat)
    requires Ring(m, head, xs) && i < |xs|
    ensures xs[i] in m && xs[i] != head
    ensures m[xs[i]].next == (if i + 1 < |xs| then xs[i + 1] else head)
    ensures m[xs[i]].prev == (if i > 0 then xs[i - 1] else head)
    ensures m[xs[i]].next in m && m[xs[i]].prev in m
  {
    var c := [head] + xs;
    assert LinkedAt(m, c, i) && LinkedAt(m, c, i + 1);
    assert c[0] != c[i + 1];
  }

  lemma {:induction false} DistinctInsert(c: seq<Addr>, i: nat, x: Addr)
    requires Distinct(c) && x !in c && i <= |c|
    ensures Distinct(c[..i] + [x] + c[i..])
  {
  }

  /** Linking elm after the i-th entry of the cycle inserts it there. */
  lemma AddAt(m: Memory, head: Addr, xs: seq<Addr>, i: nat, elm: Addr)
    requires Ring(m, head, xs) && i <= |xs| && elm !in [head] + xs && elm in m
    ensures var c := [head] + xs;
            c[i] in m && After(c, i) in m
            && Ring(AddBetween(m, elm, c[i], After(c, i)), head, xs[..i] + [elm] + xs[i..])
  {
    var c := [head] + xs;
    assert LinkedAt(m, c, i);
    var m' := AddBetween(m, elm, c[i], After(c, i));
    var d := [head] + (xs[..i] + [elm] + xs[i..]);
    assert d == c[..i + 1] + [elm] + c[i + 1..];
    DistinctInsert(c, i + 1, elm);
    forall j | 0 <= j < |d| ensures LinkedAt(m', d, j) {
      if j < i {
        assert LinkedAt(m, c, j);
      } else if j > i + 1 {
        assert LinkedAt(m, c, j - 1);
      }
    }
  }

  /** list_add at the head, and list_add_before the head: first and last position. */
  lemma AddFirstLast(m: Memory, head: Addr, xs: seq<Addr>, elm: Addr)
    requires Ring(m, head, xs) && elm !in [head] + xs && elm in m
    ensures head in m && m[head].next in m && m[head].prev in m
    ensures Ring(AddAfter(m, head, elm), head, [elm] + xs)
    ensures Ring(AddBefore(m, head, elm), head, xs + [elm])
  {
    var c := [head] + xs;
    EmptyIff(m, head, xs);
    AddAt(m, head, xs, 0, elm);
    assert xs[..0] + [elm] + xs[0..] == [elm] + xs;
    assert LinkedAt(m, c, 0) && LinkedAt(m, c, |xs|);
    assert c[0] == head && After(c, 0) == m[head].next;
    AddAt(m, head, xs, |xs|, elm);
    assert xs[..|xs|] + [elm] + xs[|xs|..] == xs + [elm];
    assert After(c, |xs|) == head && c[|xs|] == m[head].prev;
  }

  /** list_del of the i-th element removes it. */
  lemma DelAt(m: Memory, head: Addr, xs: seq<Addr>, i: nat)
    requires Ring(m, head, xs) && i < |xs|
    ensures xs[i] in m && m[xs[i]].prev in m && m[xs[i]].next in m
    ensures Ring(Del(m, xs[i]), head, xs[..i] + xs[i + 1..])
  {
    var c := [head] + xs;
    Neighbours(m, head, xs, i);
    var m' := Del(m, xs[i]);
    var d := [head] + (xs[..i] + xs[i + 1..]);
    assert d == c[..i + 1] + c[i + 2..];
    assert LinkedAt(m, c, i) && LinkedAt(m, c, i + 1);
    forall j | 0 <= j < |d| ensures LinkedAt(m', d, j) {
      if j < i {
        assert LinkedAt(m, c, j);
      } else {
        assert LinkedAt(m, c, j + 1);
      }
    }
  }

  /** Writes to entries outside the ring do not matter. */
  lemma RingFrame(m: Memory, m': Memory, head: Addr, xs: seq<Addr>)
    requires Ring(m, head, xs)
    requires forall a :: a in [head] + xs && a in m ==> a in m' && m'[a] == m[a]
    ensures Ring(m', head, xs)
  {
    var c := [head] + xs;
    forall i | 0 <= i < |c| ensures LinkedAt(m', c, i) {
      assert LinkedAt(m, c, i);
      assert c[i] in c && After(c, i) in c;
    }
  }
}
