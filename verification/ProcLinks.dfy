/** The sibling links cptr, optr and yptr of proc_struct as an encoding of one child list
    per process, and the pointer updates of set_links, remove_links and the reparenting
    loop of do_exit as operations on those lists. */
module ProcLinks {
  import opened Lists
  import opened ProcModel

  datatype Links = Links(cptr: Ptr, optr: Ptr, yptr: Ptr)

  /** The i-th entry of a child list, or the null pointer outside it. */
  function At(s: seq<Ptr>, i: int): Ptr {
    if 0 <= i < |s| then s[i] else NULL
  }

  ghost predicate SiblingAt(links: map<Ptr, Links>, s: seq<Ptr>, i: int)
    requires 0 <= i < |s|
  {
    && s[i] in links && s[i] != NULL
    && links[s[i]].optr == At(s, i + 1)
    && links[s[i]].yptr == At(s, i - 1)
  }

  /** The links spell out the child list s from its i-th element on. */
  ghost predicate ChainFrom(links: map<Ptr, Links>, s: seq<Ptr>, from: int) {
    forall i {:trigger SiblingAt(links, s, i)} :: from <= i < |s| && 0 <= i ==> SiblingAt(links, s, i)
  }

  /** The links implement the child lists, and idleproc is in none of them. While do_exit
      moves the children of `but` one by one, the youngest one left keeps a stale yptr. */
  ghost predicate Encodes(links: map<Ptr, Links>, kids: map<Ptr, seq<Ptr>>, but: Ptr) {
    && links.Keys == kids.Keys
    && (forall a :: a in kids ==> links[a].cptr == At(kids[a], 0))
    && (forall a :: a in kids && a != but ==> ChainFrom(links, kids[a], 0))
    && (but in kids ==> ChainFrom(links, kids[but], 1) && HeadChain(links, kids[but]))
  }

  /** The first element's optr is right even when its yptr is not. */
  ghost predicate HeadChain(links: map<Ptr, Links>, s: seq<Ptr>) {
    s != [] ==> s[0] in links && s[0] != NULL && links[s[0]].optr == At(s, 1)
  }

  /** Child lists are duplicate-free and disjoint. */
  ghost predicate Forest(kids: map<Ptr, seq<Ptr>>) {
    && (forall a :: a in kids ==> Distinct(kids[a]))
    && (forall a, b, c :: a in kids && b in kids && c in kids[a] && c in kids[b] ==> a == b)
  }

  // ----- the pointer updates, assignment by assignment -----

  function SetC(links: map<Ptr, Links>, a: Ptr, v: Ptr): map<Ptr, Links>
    requires a in links
  {
    links[a := links[a].(cptr := v)]
  }

  function SetO(links: map<Ptr, Links>, a: Ptr, v: Ptr): map<Ptr, Links>
    requires a in links
  {
    links[a := links[a].(optr := v)]
  }

  function SetY(links: map<Ptr, Links>, a: Ptr, v: Ptr): map<Ptr, Links>
    requires a in links
  {
    links[a := links[a].(yptr := v)]
  }

  /** set_links for a new child a of q. */
  function AddLinks(links: map<Ptr, Links>, a: Ptr, q: Ptr): map<Ptr, Links>
    requires a in links && q in links && (links[q].cptr == NULL || links[q].cptr in links)
  {
    var l1 := SetY(links, a, NULL);
    var l2 := SetO(l1, a, l1[q].cptr);
    var l3 := if l2[a].optr != NULL then SetY(l2, l2[a].optr, a) else l2;
    SetC(l3, q, a)
  }

  /** One round of the reparenting loop: the head child of p moves to the front of h. */
  function MoveLinks(links: map<Ptr, Links>, p: Ptr, h: Ptr): map<Ptr, Links>
    requires p in links && h in links && links[p].cptr in links
    requires links[h].cptr == NULL || links[h].cptr in links
  {
    var c := links[p].cptr;
    var l1 := SetC(links, p, links[c].optr);
    var l2 := SetY(l1, c, NULL);
    var v := l2[h].cptr;
    var l3 := SetO(l2, c, v);
    var l4 := if v != NULL && v in l3 then SetY(l3, v, c) else l3;
    SetC(l4, h, c)
  }

  /** remove_links for a child c of q. */
  function CutLinks(links: map<Ptr, Links>, c: Ptr, q: Ptr): map<Ptr, Links>
    requires c in links && q in links
    requires links[c].optr == NULL || links[c].optr in links
    requires links[c].yptr == NULL || links[c].yptr in links
  {
    var l1 := if links[c].optr != NULL then SetY(links, links[c].optr, links[c].yptr) else links;
    if l1[c].yptr != NULL && l1[c].yptr in l1 then SetO(l1, l1[c].yptr, l1[c].optr)
    else SetC(l1, q, l1[c].optr)
  }

  // ----- what they do to the child lists -----

  /** Lists whose members are not touched stay encoded. */
  lemma OtherChains(links: map<Ptr, Links>, links': map<Ptr, Links>, kids: map<Ptr, seq<Ptr>>, p: Ptr, h: Ptr)
    requires Forest(kids) && p in kids && h in kids
    requires forall a :: a in kids && a != p && a != h ==> ChainFrom(links, kids[a], 0)
    requires forall x :: x in links && x !in kids[p] && x !in kids[h] ==>
               x in links' && links'[x].optr == links[x].optr && links'[x].yptr == links[x].yptr
    ensures forall a :: a in kids && a != p && a != h ==> ChainFrom(links', kids[a], 0)
  {
    forall b | b in kids && b != p && b != h ensures ChainFrom(links', kids[b], 0) {
      forall i | 0 <= i < |kids[b]| ensures SiblingAt(links', kids[b], i) {
        assert SiblingAt(links, kids[b], i);
        assert kids[b][i] in kids[b];
      }
    }
  }

  lemma HeadLinked(links: map<Ptr, Links>, kids: map<Ptr, seq<Ptr>>, a: Ptr, but: Ptr)
    requires Encodes(links, kids, but) && a in kids && a != but
    ensures links[a].cptr == NULL || (kids[a] != [] && links[a].cptr == kids[a][0] && links[a].cptr in links)
  {
    if kids[a] != [] {
      assert SiblingAt(links, kids[a], 0);
    }
  }

  ghost predicate Fresh(kids: map<Ptr, seq<Ptr>>, a: Ptr) {
    a != NULL && a !in kids && forall b :: b in kids ==> a !in kids[b]
  }

  lemma AddChain(links: map<Ptr, Links>, kids: map<Ptr, seq<Ptr>>, a: Ptr, q: Ptr, l: Links)
    requires Encodes(links, kids, NULL) && Forest(kids) && q in kids && NULL !in kids && Fresh(kids, a)
    requires links[q].cptr == NULL || links[q].cptr in links
    ensures ChainFrom(AddLinks(links[a := l], a, q), [a] + kids[q], 0)
  {
    var t := AddLinks(links[a := l], a, q);
    var s := [a] + kids[q];
    forall i | 0 <= i < |s| ensures SiblingAt(t, s, i) {
      if i > 0 {
        assert s[i] == kids[q][i - 1];
        assert SiblingAt(links, kids[q], i - 1);
        assert s[i] in kids[q];
      }
    }
  }

  /** set_links puts the new process in front of its parent's children. */
  lemma AddEncodes(links: map<Ptr, Links>, kids: map<Ptr, seq<Ptr>>, a: Ptr, q: Ptr, l: Links)
    requires Encodes(links, kids, NULL) && Forest(kids) && q in kids && NULL !in kids && Fresh(kids, a)
    requires l.cptr == NULL
    ensures links[q].cptr == NULL || links[q].cptr in links
    ensures Encodes(AddLinks(links[a := l], a, q), kids[q := [a] + kids[q]][a := []], NULL)
  {
    HeadLinked(links, kids, q, NULL);
    AddChain(links, kids, a, q, l);
    var t := AddLinks(links[a := l], a, q);
    forall b | b in kids && b != q ensures ChainFrom(t, kids[b], 0) {
      forall i | 0 <= i < |kids[b]| ensures SiblingAt(t, kids[b], i) {
        assert SiblingAt(links, kids[b], i);
        assert kids[b][i] in kids[b];
      }
    }
  }

  /** The younger siblings' links of a child left behind do not move. */
  lemma MoveLeaves(links: map<Ptr, Links>, p: Ptr, h: Ptr, a: Ptr)
    requires p in links && h in links && p != h && links[p].cptr in links
    requires links[h].cptr == NULL || links[h].cptr in links
    requires a in links && a != links[p].cptr && (links[h].cptr == NULL || a != links[h].cptr)
    ensures var t := MoveLinks(links, p, h); a in t && t[a].optr == links[a].optr && t[a].yptr == links[a].yptr
  {
  }

  lemma MoveRest(links: map<Ptr, Links>, kids: map<Ptr, seq<Ptr>>, p: Ptr, h: Ptr)
    requires Encodes(links, kids, p) && Forest(kids)
    requires p in kids && h in kids && p != h && NULL !in kids && kids[p] != []
    requires links[h].cptr == NULL || (links[h].cptr in links && links[h].cptr in kids[h])
    ensures var rest := kids[p][1..]; var t := MoveLinks(links, p, h);
            ChainFrom(t, rest, 1) && HeadChain(t, rest) && t[p].cptr == At(rest, 0)
  {
    hide MoveLinks;
    var t := MoveLinks(links, p, h);
    var rest := kids[p][1..];
    DistinctTail(kids[p]);
    assert kids[p][0] in kids[p] && links[p].cptr == kids[p][0];
    forall i | 0 <= i < |rest| ensures rest[i] in t && rest[i] != NULL && t[rest[i]].optr == At(rest, i + 1)
      ensures i > 0 ==> SiblingAt(t, rest, i)
    {
      assert rest[i] == kids[p][i + 1] && rest[i] in kids[p];
      assert SiblingAt(links, kids[p], i + 1);
      MoveLeaves(links, p, h, rest[i]);
    }
    MoveHead(links, p, h);
  }

  lemma MoveHead(links: map<Ptr, Links>, p: Ptr, h: Ptr)
    requires p in links && h in links && p != h && links[p].cptr in links
    requires links[h].cptr == NULL || links[h].cptr in links
    ensures var t := MoveLinks(links, p, h);
            && t.Keys == links.Keys && t[p].cptr == links[links[p].cptr].optr && t[h].cptr == links[p].cptr
            && forall a :: a in links && a != p && a != h ==> t[a].cptr == links[a].cptr
  {
  }

  lemma MoveFrame(links: map<Ptr, Links>, kids: map<Ptr, seq<Ptr>>, p: Ptr, h: Ptr)
    requires p in links && h in links && p != h && kids.Keys == links.Keys
    requires kids[p] != [] && links[p].cptr == kids[p][0] && kids[p][0] in links
    requires links[h].cptr == NULL || (links[h].cptr in links && links[h].cptr in kids[h])
    ensures var t := MoveLinks(links, p, h);
            && t.Keys == links.Keys && t[h].cptr == kids[p][0]
            && (forall a :: a in links && a != p && a != h ==> t[a].cptr == links[a].cptr)
            && (forall x :: x in links && x !in kids[p] && x !in kids[h] ==>
                  t[x].optr == links[x].optr && t[x].yptr == links[x].yptr)
  {
    hide MoveLinks;
    assert kids[p][0] in kids[p];
    MoveHead(links, p, h);
    forall x | x in links && x !in kids[p] && x !in kids[h]
      ensures var t := MoveLinks(links, p, h); x in t && t[x].optr == links[x].optr && t[x].yptr == links[x].yptr
    {
      MoveLeaves(links, p, h, x);
    }
  }

  /** Putting two rewritten lists next to untouched ones. */
  lemma Assemble(t: map<Ptr, Links>, kids: map<Ptr, seq<Ptr>>, p: Ptr, ps: seq<Ptr>, h: Ptr, hs: seq<Ptr>)
    requires p in kids && h in kids && p != h && t.Keys == kids.Keys
    requires forall a :: a in kids && a != p && a != h ==> t[a].cptr == At(kids[a], 0) && ChainFrom(t, kids[a], 0)
    requires t[p].cptr == At(ps, 0) && ChainFrom(t, ps, 1) && HeadChain(t, ps)
    requires t[h].cptr == At(hs, 0) && ChainFrom(t, hs, 0)
    ensures Encodes(t, kids[p := ps][h := hs], p)
  {
  }

  lemma EncodesKeys(links: map<Ptr, Links>, kids: map<Ptr, seq<Ptr>>, but: Ptr)
    requires Encodes(links, kids, but)
    ensures links.Keys == kids.Keys
  {
  }

  /** One reparenting round moves the head of p's list to the front of h's list. */
  lemma MoveEncodes(links: map<Ptr, Links>, kids: map<Ptr, seq<Ptr>>, p: Ptr, h: Ptr)
    requires Encodes(links, kids, p) && Forest(kids)
    requires p in kids && h in kids && p != h && NULL !in kids && kids[p] != []
    ensures links[p].cptr == kids[p][0] && kids[p][0] in links
    ensures links[h].cptr == NULL || links[h].cptr in links
    ensures Encodes(MoveLinks(links, p, h), kids[p := kids[p][1..]][h := [kids[p][0]] + kids[h]], p)
  {
    HeadLinked(links, kids, h, p);
    var t := MoveLinks(links, p, h);
    MoveFrame(links, kids, p, h);
    MoveRest(links, kids, p, h);
    MoveChain(links, kids, p, h);
    OtherChains(links, t, kids, p, h);
    Assemble(t, kids, p, kids[p][1..], h, [kids[p][0]] + kids[h]);
  }

  lemma MoveChain(links: map<Ptr, Links>, kids: map<Ptr, seq<Ptr>>, p: Ptr, h: Ptr)
    requires Encodes(links, kids, p) && Forest(kids)
    requires p in kids && h in kids && p != h && NULL !in kids && kids[p] != []
    requires links[h].cptr == NULL || links[h].cptr in links
    ensures ChainFrom(MoveLinks(links, p, h), [kids[p][0]] + kids[h], 0)
  {
    var c := kids[p][0];
    var t := MoveLinks(links, p, h);
    var s := [c] + kids[h];
    assert c in kids[p] && c !in kids[h];
    forall i | 0 <= i < |s| ensures SiblingAt(t, s, i) {
      if i > 0 {
        assert s[i] == kids[h][i - 1] && s[i] in kids[h];
        assert SiblingAt(links, kids[h], i - 1);
      }
    }
  }

  lemma CutChain(links: map<Ptr, Links>, kids: map<Ptr, seq<Ptr>>, q: Ptr, k: nat)
    requires Encodes(links, kids, NULL) && Forest(kids) && q in kids && NULL !in kids && k < |kids[q]|
    requires kids[q][k] in links
    requires links[kids[q][k]].optr == NULL || links[kids[q][k]].optr in links
    requires links[kids[q][k]].yptr == NULL || links[kids[q][k]].yptr in links
    ensures ChainFrom(CutLinks(links, kids[q][k], q) - {kids[q][k]}, kids[q][..k] + kids[q][k + 1..], 0)
  {
    var ks := kids[q];
    var c := ks[k];
    var t := CutLinks(links, c, q) - {c};
    var s := ks[..k] + ks[k + 1..];
    assert SiblingAt(links, ks, k);
    forall i | 0 <= i < |s| ensures SiblingAt(t, s, i) {
      var j := if i < k then i else i + 1;
      assert s[i] == ks[j];
      assert SiblingAt(links, ks, j);
    }
  }

  lemma CutFrame(links: map<Ptr, Links>, kids: map<Ptr, seq<Ptr>>, q: Ptr, k: nat)
    requires Encodes(links, kids, NULL) && q in kids && NULL !in kids
    requires Distinct(kids[q]) && k < |kids[q]| && kids[q][k] != q
    ensures var c := kids[q][k];
            && c in links && (links[c].optr == NULL || links[c].optr in links)
            && (links[c].yptr == NULL || links[c].yptr in links)
            && var t := CutLinks(links, c, q);
            && t.Keys == links.Keys && t[q].cptr == At(kids[q][..k] + kids[q][k + 1..], 0)
            && (forall a :: a in links && a != q ==> t[a].cptr == links[a].cptr)
            && (forall x :: x in links && x !in kids[q] ==>
                  t[x].optr == links[x].optr && t[x].yptr == links[x].yptr)
  {
    var ks := kids[q];
    assert SiblingAt(links, ks, k);
    if k + 1 < |ks| { assert SiblingAt(links, ks, k + 1); }
    if k > 0 { assert SiblingAt(links, ks, k - 1); }
  }

  lemma AssembleCut(t: map<Ptr, Links>, kids: map<Ptr, seq<Ptr>>, q: Ptr, qs: seq<Ptr>, c: Ptr)
    requires q in kids && c != q && NULL !in kids && t.Keys == kids.Keys
    requires forall a :: a in kids && a != q ==> t[a].cptr == At(kids[a], 0) && ChainFrom(t - {c}, kids[a], 0)
    requires t[q].cptr == At(qs, 0) && ChainFrom(t - {c}, qs, 0)
    ensures Encodes(t - {c}, kids[q := qs] - {c}, NULL)
  {
  }

  /** remove_links takes a child out of its parent's list. */
  lemma CutEncodes(links: map<Ptr, Links>, kids: map<Ptr, seq<Ptr>>, c: Ptr, q: Ptr)
    requires Encodes(links, kids, NULL) && Forest(kids) && q in kids && NULL !in kids
    requires c in kids[q] && c in kids && c != q
    ensures c in links && (links[c].optr == NULL || links[c].optr in links)
    ensures links[c].yptr == NULL || links[c].yptr in links
    ensures Encodes(CutLinks(links, c, q) - {c}, kids[q := Without(kids[q], c)] - {c}, NULL)
  {
    var ks := kids[q];
    var k :| 0 <= k < |ks| && ks[k] == c;
    WithoutAt(ks, k);
    CutFrame(links, kids, q, k);
    CutChain(links, kids, q, k);
    OtherChains(links, CutLinks(links, c, q) - {c}, kids, q, q);
    AssembleCut(CutLinks(links, c, q), kids, q, Without(ks, c), c);
  }
}
