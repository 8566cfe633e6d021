/** The policy of mpd_policy.h: mc_find_min_cut on a domain of the world, merge, split, the two
    single steps mpd_decrease_overhead and mpd_increase_isolation, and the budget loops. */
module Policy {
  import opened Wrappers
  import opened Graphs
  import opened Domains
  import opened Heaps
  import opened PdEdges
  import opened MinCuts
  import opened Mpd

  lemma MinimumCutBare(es: seq<Edge>, m: set<Comp>, cut: set<Comp>, amnt: int)
    requires MinimumCut(es, m, cut, amnt)
    ensures MinimumCut(Bare(es), m, cut, amnt)
  {
    BareSum(es, Joining(cut, m - cut));
    forall s | ProperPart(m, s) ensures CostsAtLeast(Bare(es), m, s, amnt) {
      assert CostsAtLeast(es, m, s, amnt);
      BareSum(es, Joining(s, m - s));
    }
  }

  /** The end of mc_find_min_cut: a domain with a cut is put on the heap, or moved within it. */
  method Requeue(pds: map<PdId, Pd>, ph: Heap<PdId>, a: PdId, amnt: int, cut: seq<Comp>) returns (pds': map<PdId, Pd>)
    requires PdsOnHeap(pds, ph) && a in pds && |pds| < ph.data.Length
    modifies ph, ph.data
    ensures pds' == pds[a := pds[a].(mcAmnt := amnt, mcMembers := cut, onHeap := true)] && PdsOnHeap(pds', ph)
  {
    pds' := pds[a := pds[a].(mcAmnt := amnt, mcMembers := cut, onHeap := true)];
    CheaperCutIsPreorder(pds);
    CheaperCutIsPreorder(pds');
    if pds[a].onHeap {
      assert a in ph.elems;
      KeyChange(ph.data[..ph.e], ph.idx[a], CheaperCut(pds), CheaperCut(pds'));
      ph.Adjust(ph.idx[a], CheaperCut(pds'));
    } else {
      HasRoom(pds, ph, a);
      assert Ordered(ph.data[..ph.e], CheaperCut(pds')) by {
        assert forall i :: 1 <= i < ph.e ==> ph.data[i] in ph.elems;
      }
      var ok := ph.Add(a, CheaperCut(pds'));
    }
  }

  lemma HasRoom(pds: map<PdId, Pd>, ph: Heap<PdId>, a: PdId)
    requires PdsOnHeap(pds, ph) && a in pds && !pds[a].onHeap
    ensures ph.e <= |pds|
  {
    ph.Size();
    SubsetSize(ph.elems, pds.Keys - {a});
  }

  /** The start of mc_find_min_cut: a domain with one member has no cut and leaves the heap. */
  method Unqueue(pds: map<PdId, Pd>, ph: Heap<PdId>, a: PdId) returns (pds': map<PdId, Pd>)
    requires PdsOnHeap(pds, ph) && a in pds
    modifies ph, ph.data
    ensures pds' == pds[a := pds[a].(mcAmnt := MAX_LONG, mcMembers := [], onHeap := false)] && PdsOnHeap(pds', ph)
  {
    pds' := pds[a := pds[a].(mcAmnt := MAX_LONG, mcMembers := [], onHeap := false)];
    CheaperCutIsPreorder(pds);
    CheaperCutIsPreorder(pds');
    if pds[a].onHeap {
      assert a in ph.elems;
      KeyChange(ph.data[..ph.e], ph.idx[a], CheaperCut(pds), CheaperCut(pds'));
      var r := ph.Remove(ph.idx[a], CheaperCut(pds'));
    } else {
      assert Ordered(ph.data[..ph.e], CheaperCut(pds')) by {
        assert forall i :: 1 <= i < ph.e ==> ph.data[i] in ph.elems;
      }
    }
  }

  /** A domain of two or more members is on the heap with a cut; a domain of one is not. */
  ghost predicate Settled(pd: Pd) {
    && pd.members != [] && (pd.onHeap <==> |pd.members| >= 2)
    && (|pd.members| >= 2 ==> Distinct(pd.mcMembers) && ProperPart(Elements(pd.members), Elements(pd.mcMembers)))
  }

  /** The recorded cut of a domain of two or more members is a minimum cut of its members. */
  ghost predicate UpToDate(bare: seq<Edge>, pd: Pd) {
    |pd.members| >= 2 ==> MinimumCut(bare, Elements(pd.members), Elements(pd.mcMembers), pd.mcAmnt)
  }

  /** mc_find_min_cut on domain `a`. */
  method RefreshCut(pds: map<PdId, Pd>, ph: Heap<PdId>, q: PhaseQueue, es: seq<Edge>,
      a: PdId) returns (pds': map<PdId, Pd>)
    requires PdsOnHeap(pds, ph) && a in pds && |pds| < ph.data.Length
    requires pds[a].members != [] && Distinct(pds[a].members) && Sum(es, Invocations()) < MAX_LONG
    requires ph != q.heap && ph.data != q.heap.data
    requires q.heap.Valid() && q.heap.e == 1 && |pds[a].members| <= q.heap.data.Length
    modifies ph, ph.data, q, q.heap, q.heap.data
    ensures PdsOnHeap(pds', ph) && q.heap.Valid() && q.heap.e == 1
    ensures a in pds' && pds' == pds[a := pds'[a]] && pds'[a].members == pds[a].members
    ensures Settled(pds'[a]) && UpToDate(Bare(es), pds'[a])
    ensures |pds[a].members| == 1 ==> pds'[a].mcAmnt == MAX_LONG && pds'[a].mcMembers == []
  {
    if |pds[a].members| == 1 {
      pds' := Unqueue(pds, ph, a);
    } else {
      var cut, minCut := FindMinCut(q, es, pds[a].members);
      MinimumCutBare(es, Elements(pds[a].members), Elements(cut), minCut);
      pds' := Requeue(pds, ph, a, minCut, cut);
    }
  }

  /** The three heaps of `struct heaps`, with the scratch fields that go with `mc_h`. */
  datatype Hs = Hs(eh: Heap<PdeId>, ph: Heap<PdId>, q: PhaseQueue)

  ghost predicate Separate(hs: Hs) {
    && hs.eh != hs.ph && hs.eh != hs.q.heap && hs.ph != hs.q.heap
    && hs.eh.data != hs.ph.data && hs.eh.data != hs.q.heap.data && hs.ph.data != hs.q.heap.data
  }

  /** Consistent and within the capacities the source assumes: the heaps have a slot for every
      component, and all invocations together stay below MAX_LONG. */
  ghost predicate Base(w: World, hs: Hs)
    reads hs.eh, hs.eh.data, hs.ph, hs.ph.data, hs.q.heap, hs.q.heap.data
  {
    && Separate(hs) && Sound(w, hs.eh, hs.ph) && hs.q.heap.Valid() && hs.q.heap.e == 1
    && |w.g.pdOf| < hs.ph.data.Length && |w.g.pdOf| < hs.q.heap.data.Length
    && Sum(Bare(w.g.es), Invocations()) < MAX_LONG && PlacedIn(Bare(w.g.es), w.g.pdOf.Keys)
  }

  lemma DistinctSize(s: seq<Comp>)
    requires Distinct(s)
    ensures |Elements(s)| == |s|
  {
    if s != [] {
      assert s == [s[0]] + s[1..];
      DistinctSize(s[1..]);
      assert Elements(s) == {s[0]} + Elements(s[1..]);
    } else {
      assert Elements(s) == {};
    }
  }

  lemma ImageSize(m: map<Comp, PdId>)
    ensures |m.Values| <= |m|
  {
    if |m| > 0 {
      var c :| c in m;
      var m' := m - {c};
      assert m.Keys == m'.Keys + {c};
      ImageSize(m');
      forall v | v in m.Values ensures v in m'.Values + {m[c]} {
        var k :| k in m && m[k] == v;
        assert k != c ==> k in m' && m'[k] == v;
      }
      SubsetSize(m.Values, m'.Values + {m[c]});
    } else {
      assert m.Values == {};
    }
  }

  ghost predicate Inhabited(pds: map<PdId, Pd>) {
    forall x :: x in pds ==> pds[x].members != []
  }

  /** Domains with members are at most as many as components, and no domain has more than all. */
  lemma HomesSize(pdOf: map<Comp, PdId>, pds: map<PdId, Pd>)
    requires Homes(pdOf, pds) && Inhabited(pds)
    ensures |pds| <= |pdOf| && forall x :: x in pds ==> |pds[x].members| <= |pdOf|
  {
    forall x | x in pds ensures x in pdOf.Values && |pds[x].members| <= |pdOf| {
      assert Roster(pdOf, x, pds[x]);
      assert pds[x].members[0] in Elements(pds[x].members);
      DistinctSize(pds[x].members);
      SubsetSize(Elements(pds[x].members), pdOf.Keys);
    }
    ImageSize(pdOf);
    SubsetSize(pds.Keys, pdOf.Values);
  }

  lemma SameMembers(pdOf: map<Comp, PdId>, pds: map<PdId, Pd>, a: PdId, pd: Pd)
    requires Homes(pdOf, pds) && a in pds && pd.members == pds[a].members
    ensures Homes(pdOf, pds[a := pd])
  {
    var pds' := pds[a := pd];
    forall b | b in pds' ensures Roster(pdOf, b, pds'[b]) {
      assert Roster(pdOf, b, pds[b]);
    }
  }

  /** mc_find_min_cut within the world. */
  method Refresh(w: World, hs: Hs, a: PdId) returns (w': World)
    requires Base(w, hs) && a in w.pds && Inhabited(w.pds)
    modifies hs.ph, hs.ph.data, hs.q, hs.q.heap, hs.q.heap.data
    ensures Base(w', hs) && a in w'.pds && w' == w.(pds := w.pds[a := w'.pds[a]])
    ensures w'.pds[a].members == w.pds[a].members
    ensures Settled(w'.pds[a]) && UpToDate(Bare(w.g.es), w'.pds[a])
  {
    HomesSize(w.g.pdOf, w.pds);
    BareSum(w.g.es, Invocations());
    assert Roster(w.g.pdOf, a, w.pds[a]);
    var pds' := RefreshCut(w.pds, hs.ph, hs.q, w.g.es, a);
    SameMembers(w.g.pdOf, w.pds, a, pds'[a]);
    w' := w.(pds := pds');
  }

  ghost predicate AllSettled(pds: map<PdId, Pd>) {
    forall x {:trigger Settled(pds[x])} :: x in pds ==> Settled(pds[x])
  }

  ghost predicate AllUpToDate(bare: seq<Edge>, pds: map<PdId, Pd>) {
    forall x {:trigger UpToDate(bare, pds[x])} :: x in pds ==> UpToDate(bare, pds[x])
  }

  /** The order in which the loops of merge and split visit a ring: from the entry after the head. */
  function FromNext(s: seq<Comp>): seq<Comp>
    requires s != []
  {
    s[1..] + [s[0]]
  }

  lemma FromNextElements(s: seq<Comp>)
    requires s != [] && Distinct(s)
    ensures Distinct(FromNext(s)) && Elements(FromNext(s)) == Elements(s) && FromNext(s) != []
  {
    assert s == [s[0]] + s[1..];
  }

  /** The cuts of the domains in `redone` are up to date, and no other domain has changed. */
  ghost predicate Recut(bare: seq<Edge>, pds: map<PdId, Pd>, pds': map<PdId, Pd>, redone: set<PdId>) {
    forall x {:trigger pds'[x]} :: x in pds' ==>
      if x in redone then UpToDate(bare, pds'[x]) else x in pds && pds'[x] == pds[x]
  }

  /** Domain `b` has been emptied into domain `a`, whose cut is recomputed; everything else is where
      it was. */
  ghost predicate HasMerged(w: World, w': World, a: PdId, b: PdId) {
    && Bare(w'.g.es) == Bare(w.g.es) && w'.g.merging == w.g.merging && w'.nextPd == w.nextPd
    && w'.g.pdOf == Moved(w.g.pdOf, MembersOf(w.g.pdOf, b), a)
    && w'.pds.Keys == w.pds.Keys - {b}
    && AllSettled(w'.pds) && Recut(Bare(w.g.es), w.pds, w'.pds, {a})
    && (AllUpToDate(Bare(w.g.es), w.pds) ==> AllUpToDate(Bare(w.g.es), w'.pds))
  }

  lemma EmptiedInto(w: World, w1: World, a: PdId, b: PdId)
    requires AllSettled(w.pds) && a in w.pds && b in w.pds && a != b && Homes(w.g.pdOf, w.pds)
    requires Moving(w, w1, a, b, MembersOf(w.g.pdOf, b)) && Homes(w1.g.pdOf, w1.pds)
    ensures w1.pds.Keys == w.pds.Keys - {b} && w1.g.pdOf.Keys == w.g.pdOf.Keys && Inhabited(w1.pds)
    ensures forall x :: x in w1.pds && x != a ==> w1.pds[x] == w.pds[x]
  {
    assert Settled(w.pds[a]) && Roster(w.g.pdOf, a, w.pds[a]) && Roster(w1.g.pdOf, a, w1.pds[a]);
    var c := w.pds[a].members[0];
    assert c in Elements(w.pds[a].members);
    assert c in MembersOf(w1.g.pdOf, a);
    forall x | x in w1.pds ensures w1.pds[x].members != [] {
      if x != a {
        assert Settled(w.pds[x]);
      }
    }
  }

  /** When every other domain is as it was, settling one settles all. */
  lemma OneRefreshed(bare: seq<Edge>, pds: map<PdId, Pd>, pds1: map<PdId, Pd>, pds': map<PdId, Pd>, a: PdId)
    requires AllSettled(pds) && a in pds' && pds' == pds1[a := pds'[a]] && Settled(pds'[a]) && UpToDate(bare, pds'[a])
    requires forall x :: x in pds1 && x != a ==> x in pds && pds1[x] == pds[x]
    ensures AllSettled(pds') && Recut(bare, pds, pds', {a})
    ensures AllUpToDate(bare, pds) ==> AllUpToDate(bare, pds')
  {
    forall x | x in pds'
      ensures Settled(pds'[x])
      ensures AllUpToDate(bare, pds) ==> UpToDate(bare, pds'[x])
    {
      if x != a {
        assert Settled(pds[x]);
        assert AllUpToDate(bare, pds) ==> UpToDate(bare, pds[x]);
      }
    }
  }

  /** The loop of __pd_merge and pd_split over a ring of components of `b`. */
  method MoveRing(w: World, hs: Hs, a: PdId, b: PdId, ring: seq<Comp>) returns (w': World)
    requires Base(w, hs) && a in w.pds && b in w.pds && a != b
    requires ring != [] && Distinct(ring) && Elements(ring) <= MembersOf(w.g.pdOf, b)
    modifies hs.eh, hs.eh.data, hs.ph, hs.ph.data
    ensures Base(w', hs) && Moving(w, w', a, b, Elements(ring))
  {
    FromNextElements(ring);
    var w1, freed := MoveAll(w, hs.eh, hs.ph, a, b, FromNext(ring));
    w' := w1;
    SameKeys(w.g.pdOf, Elements(ring), a);
  }

  lemma SameKeys(pdOf: map<Comp, PdId>, cs: set<Comp>, a: PdId)
    ensures Moved(pdOf, cs, a).Keys == pdOf.Keys && |Moved(pdOf, cs, a)| == |pdOf|
  {
    var m := Moved(pdOf, cs, a);
    assert m.Keys == pdOf.Keys && |m| == |m.Keys| && |pdOf| == |pdOf.Keys|;
  }

  /** Domain `b` is gone, its members are in `a`, and no other domain changed. */
  ghost predicate Swallowed(w: World, w': World, a: PdId, b: PdId) {
    && Bare(w'.g.es) == Bare(w.g.es) && w'.g.merging == w.g.merging && w'.nextPd == w.nextPd
    && w'.g.pdOf == Moved(w.g.pdOf, MembersOf(w.g.pdOf, b), a)
    && w'.pds.Keys == w.pds.Keys - {b} && (forall x :: x in w'.pds && x != a ==> w'.pds[x] == w.pds[x])
  }

  /** The loop of __pd_merge. */
  method MoveMembers(w: World, hs: Hs, a: PdId, b: PdId) returns (w': World)
    requires Base(w, hs) && AllSettled(w.pds) && a in w.pds && b in w.pds && a != b
    modifies hs.eh, hs.eh.data, hs.ph, hs.ph.data
    ensures Base(w', hs) && Inhabited(w'.pds) && Swallowed(w, w', a, b)
  {
    assert Roster(w.g.pdOf, b, w.pds[b]) && Settled(w.pds[b]);
    w' := MoveRing(w, hs, a, b, w.pds[b].members);
    EmptiedInto(w, w', a, b);
  }

  /** __pd_merge: every member of `b` moves to `a`, and the cut of `a` is recomputed. */
  method Merge(w: World, hs: Hs, a: PdId, b: PdId) returns (w': World)
    requires Base(w, hs) && AllSettled(w.pds) && a in w.pds && b in w.pds && a != b
    modifies hs.eh, hs.eh.data, hs.ph, hs.ph.data, hs.q, hs.q.heap, hs.q.heap.data
    ensures Base(w', hs) && HasMerged(w, w', a, b)
  {
    var w1 := MoveMembers(w, hs, a, b);
    w' := Refresh(w1, hs, a);
    OneRefreshed(Bare(w.g.es), w.pds, w1.pds, w'.pds, a);
  }

  /** pd_create: a new, empty domain, off the heap. */
  method CreatePd(w: World, hs: Hs) returns (w': World, b: PdId)
    requires Base(w, hs)
    ensures b == w.nextPd && b !in w.pds && MembersOf(w.g.pdOf, b) == {}
    ensures w' == w.(pds := w.pds[b := Pd([], 0, [], false)], nPds := w.nPds + 1, nextPd := b + 1)
    ensures Base(w', hs)
  {
    b := w.nextPd;
    w' := w.(pds := w.pds[b := Pd([], 0, [], false)], nPds := w.nPds + 1, nextPd := b + 1);
    NewHome(w.g.pdOf, w.pds, b);
    NewOffHeap(w.pds, hs.ph, b);
  }

  lemma NewOffHeap(pds: map<PdId, Pd>, ph: Heap<PdId>, b: PdId)
    requires PdsOnHeap(pds, ph) && b !in pds
    ensures PdsOnHeap(pds[b := Pd([], 0, [], false)], ph)
  {
    assert forall i :: 1 <= i < ph.e ==> ph.data[i] in ph.elems;
  }

  lemma NewHome(pdOf: map<Comp, PdId>, pds: map<PdId, Pd>, b: PdId)
    requires Homes(pdOf, pds) && b !in pds
    ensures MembersOf(pdOf, b) == {} && Homes(pdOf, pds[b := Pd([], 0, [], false)])
  {
    var pds' := pds[b := Pd([], 0, [], false)];
    assert Elements([]) == {};
    forall x | x in pds' ensures Roster(pdOf, x, pds'[x]) {
      assert x != b ==> Roster(pdOf, x, pds[x]);
    }
  }

  /** Part `s` of domain `a` now is the new domain `b`, and both cuts are recomputed; everything else
      is where it was. */
  ghost predicate HasSplit(w: World, w': World, a: PdId, b: PdId, s: set<Comp>) {
    && Bare(w'.g.es) == Bare(w.g.es) && w'.g.merging == w.g.merging
    && b == w.nextPd && b !in w.pds && w'.g.pdOf == Moved(w.g.pdOf, s, b)
    && w'.pds.Keys == w.pds.Keys + {b}
    && AllSettled(w'.pds) && Recut(Bare(w.g.es), w.pds, w'.pds, {a, b})
    && (AllUpToDate(Bare(w.g.es), w.pds) ==> AllUpToDate(Bare(w.g.es), w'.pds))
  }

  /** Domain `a` has been taken off the heap; every domain is otherwise settled. */
  ghost predicate SettledBut(pds: map<PdId, Pd>, a: PdId) {
    && a in pds && !pds[a].onHeap && Settled(pds[a].(onHeap := true))
    && (forall x {:trigger Settled(pds[x])} :: x in pds && x != a ==> Settled(pds[x]))
  }

  lemma LeftBehind(m: set<Comp>, s: set<Comp>) returns (d: Comp)
    requires ProperPart(m, s)
    ensures d in m && d !in s
  {
    assert !(m <= s);
    d :| d in m && d !in s;
  }

  lemma PartMoved(w: World, w1: World, w2: World, a: PdId, b: PdId, s: set<Comp>)
    requires SettledBut(w.pds, a) && b !in w.pds && MembersOf(w.g.pdOf, b) == {}
    requires ProperPart(MembersOf(w.g.pdOf, a), s)
    requires w1.g == w.g && w1.pds == w.pds[b := Pd([], 0, [], false)]
    requires Moving(w1, w2, b, a, s) && Homes(w2.g.pdOf, w2.pds)
    ensures w2.pds.Keys == w.pds.Keys + {b} && w2.g.pdOf.Keys == w.g.pdOf.Keys && Inhabited(w2.pds)
    ensures forall x :: x in w.pds && x != a ==> w2.pds[x] == w.pds[x]
  {
    var c :| c in s;
    var d := LeftBehind(MembersOf(w.g.pdOf, a), s);
    assert w2.pds.Keys == w1.pds.Keys;
    assert Roster(w2.g.pdOf, a, w2.pds[a]) && Roster(w2.g.pdOf, b, w2.pds[b]);
    assert c in MembersOf(w2.g.pdOf, b) && d in MembersOf(w2.g.pdOf, a);
    assert Elements([]) == {};
    forall x | x in w2.pds ensures w2.pds[x].members != [] {
      if x != a && x != b {
        assert Settled(w.pds[x]);
      }
    }
  }

  lemma TwoRefreshed(bare: seq<Edge>, pds: map<PdId, Pd>, pds': map<PdId, Pd>, a: PdId, b: PdId)
    requires a in pds' && b in pds' && Settled(pds'[a]) && Settled(pds'[b]) && UpToDate(bare, pds'[a])
    requires UpToDate(bare, pds'[b])
    requires forall x :: x in pds' && x != a && x != b ==> x in pds && Settled(pds[x]) && pds'[x] == pds[x]
    ensures AllSettled(pds') && Recut(bare, pds, pds', {a, b})
    ensures AllUpToDate(bare, pds) ==> AllUpToDate(bare, pds')
  {
    forall x | x in pds'
      ensures Settled(pds'[x])
      ensures AllUpToDate(bare, pds) ==> UpToDate(bare, pds'[x])
    {
      if x != a && x != b {
        assert AllUpToDate(bare, pds) ==> UpToDate(bare, pds[x]);
      }
    }
  }

  /** The loop of pd_split: the recorded cut of `a` moves to a new domain. */
  method MovePart(w: World, hs: Hs, a: PdId) returns (w': World, b: PdId)
    requires Base(w, hs) && SettledBut(w.pds, a) && |w.pds[a].members| >= 2
    modifies hs.eh, hs.eh.data, hs.ph, hs.ph.data
    ensures Base(w', hs) && Bare(w'.g.es) == Bare(w.g.es) && w'.g.merging == w.g.merging
    ensures b == w.nextPd && b !in w.pds && w'.pds.Keys == w.pds.Keys + {b} && Inhabited(w'.pds)
    ensures w'.g.pdOf == Moved(w.g.pdOf, Elements(w.pds[a].mcMembers), b)
    ensures forall x :: x in w.pds && x != a ==> w'.pds[x] == w.pds[x]
  {
    var cut := w.pds[a].mcMembers;
    assert Roster(w.g.pdOf, a, w.pds[a]);
    var w1, n := CreatePd(w, hs);
    b := n;
    w' := MoveRing(w1, hs, b, a, cut);
    PartMoved(w, w1, w', a, b, Elements(cut));
  }

  method RefreshBoth(w: World, hs: Hs, a: PdId, b: PdId) returns (w': World)
    requires Base(w, hs) && Inhabited(w.pds) && a in w.pds && b in w.pds && a != b
    modifies hs.ph, hs.ph.data, hs.q, hs.q.heap, hs.q.heap.data
    ensures Base(w', hs) && w' == w.(pds := w'.pds) && w'.pds.Keys == w.pds.Keys
    ensures Settled(w'.pds[a]) && Settled(w'.pds[b])
    ensures UpToDate(Bare(w.g.es), w'.pds[a]) && UpToDate(Bare(w.g.es), w'.pds[b])
    ensures forall x :: x in w.pds && x != a && x != b ==> w'.pds[x] == w.pds[x]
  {
    var w1 := Refresh(w, hs, a);
    w' := Refresh(w1, hs, b);
  }

  /** pd_split: the recorded cut of `a` moves to a new domain, and both cuts are recomputed. */
  method Split(w: World, hs: Hs, a: PdId) returns (w': World, b: PdId)
    requires Base(w, hs) && SettledBut(w.pds, a) && |w.pds[a].members| >= 2
    modifies hs.eh, hs.eh.data, hs.ph, hs.ph.data, hs.q, hs.q.heap, hs.q.heap.data
    ensures Base(w', hs) && HasSplit(w, w', a, b, Elements(w.pds[a].mcMembers))
  {
    var w1, n := MovePart(w, hs, a);
    b := n;
    w' := RefreshBoth(w1, hs, a, b);
    forall x | x in w'.pds && x != a && x != b ensures x in w.pds && Settled(w.pds[x]) && w'.pds[x] == w.pds[x] {
      assert Settled(w.pds[x]);
    }
    TwoRefreshed(Bare(w.g.es), w.pds, w'.pds, a, b);
  }

  /** Consistent, with every domain settled: how the policy leaves the world between calls. */
  ghost predicate Ready(w: World, hs: Hs)
    reads hs.eh, hs.eh.data, hs.ph, hs.ph.data, hs.q.heap, hs.q.heap.data
  {
    Base(w, hs) && AllSettled(w.pds) && w.g.merging.None?
  }

  /** A pd-edge in use joins two different domains, both with members. */
  lemma PdEdgeEnds(g: Graph, p: PdeId)
    requires Core(g) && Used(g) && p in g.pdes
    ensures g.pdes[p].from != g.pdes[p].to
    ensures MembersOf(g.pdOf, g.pdes[p].from) != {} && MembersOf(g.pdOf, g.pdes[p].to) != {}
  {
    assert TallyOk(g.es, p, g.pdes[p]);
    EmptyTally(g.es, p);
    var e :| e in g.es && e.master == Some(p);
    var i :| 0 <= i < |g.es| && g.es[i] == e;
    assert MasterOk(g.pdOf, g.pdes, g.es[i]);
    assert e.from in MembersOf(g.pdOf, g.pdOf[e.from]) && e.to in MembersOf(g.pdOf, g.pdOf[e.to]);
  }

  function OffHeap(g: Graph, p: PdeId): Graph
    requires p in g.pdes
  {
    g.(pdes := g.pdes[p := g.pdes[p].(onHeap := false)], merging := Some((g.pdes[p].from, g.pdes[p].to)))
  }

  lemma OffHeapKeeps(g: Graph, p: PdeId)
    requires Core(g) && Used(g) && Listed(g) && g.merging.None? && p in g.pdes
    ensures Core(OffHeap(g, p)) && Used(OffHeap(g, p)) && Listed(OffHeap(g, p))
  {
    var g' := OffHeap(g, p);
    forall i | 0 <= i < |g'.es| ensures MasterOk(g'.pdOf, g'.pdes, g'.es[i]) {
      assert MasterOk(g.pdOf, g.pdes, g.es[i]);
    }
    forall q | q in g'.pdes ensures TallyOk(g'.es, q, g'.pdes[q]) {
      assert TallyOk(g.es, q, g.pdes[q]);
    }
    forall r, q | r in g'.pdes && q in g'.pdes && r != q ensures Apart(g'.pdes, r, q) {
      assert Apart(g.pdes, r, q);
    }
  }

  /** The start of mpd_decrease_overhead: the heaviest pd-edge leaves the heap. */
  method PopEdge(g: Graph, eh: Heap<PdeId>) returns (g': Graph, p: PdeId)
    requires Books(g, eh) && eh.e > 1 && g.merging.None?
    modifies eh, eh.data
    ensures p in g.pdes && (forall r :: r in g.pdes ==> g.pdes[r].weight <= g.pdes[p].weight)
    ensures g' == OffHeap(g, p) && Books(g', eh)
  {
    HeavierEdgeIsPreorder(g.pdes);
    var top := eh.Highest(HeavierEdge(g.pdes));
    p := top.value;
    g' := OffHeap(g, p);
    OffHeapKeeps(g, p);
    OffHeapOrder(eh.data[..eh.e], g, p);
    TopIsHeaviest(g, p, old(eh.elems));
  }

  lemma OffHeapOrder(s: seq<PdeId>, g: Graph, p: PdeId)
    requires p in g.pdes && Ordered(s, HeavierEdge(g.pdes))
    ensures Ordered(s, HeavierEdge(OffHeap(g, p).pdes))
  {
    var ge, ge' := HeavierEdge(g.pdes), HeavierEdge(OffHeap(g, p).pdes);
    forall i | 2 <= i < |s| ensures ge'(s[i / 2], s[i]) {
      assert ge(s[i / 2], s[i]);
    }
  }

  lemma TopIsHeaviest(g: Graph, p: PdeId, listed: set<PdeId>)
    requires p in g.pdes && g.pdes.Keys <= listed && forall r :: r in listed ==> HeavierEdge(g.pdes)(p, r)
    ensures forall r :: r in g.pdes ==> g.pdes[r].weight <= g.pdes[p].weight
  {
    forall r | r in g.pdes ensures g.pdes[r].weight <= g.pdes[p].weight {
      assert HeavierEdge(g.pdes)(p, r);
    }
  }

  /** After the merge no pd-edge between the two domains is left, so all are on the heap again. */
  lemma MergeDone(g: Graph)
    requires Core(g) && Used(g) && Listed(g) && g.merging.Some? && MembersOf(g.pdOf, g.merging.value.1) == {}
    ensures Core(g.(merging := None)) && Used(g.(merging := None)) && Listed(g.(merging := None))
  {
    var g' := g.(merging := None);
    forall p | p in g'.pdes ensures g'.pdes[p].onHeap {
      PdEdgeEnds(g, p);
    }
    assert MastersOk(g') && Tallies(g') && OnePerPair(g');
  }

  lemma CostOfBare(g: Graph)
    requires Core(g) && Complete(g)
    ensures g.totCost == CrossingCost(Bare(g.es), g.pdOf)
  {
    CostIsCrossing(g);
    BareSum(g.es, CrossingInv(g.pdOf));
  }

  ghost predicate WellKept(g: Graph) {
    Core(g) && Complete(g)
  }

  lemma MergeCost(g: Graph, g': Graph, p: PdeId)
    requires WellKept(g) && WellKept(g') && Bare(g'.es) == Bare(g.es)
    requires p in g.pdes && g.pdes[p].from != g.pdes[p].to
    requires g'.pdOf == Moved(g.pdOf, MembersOf(g.pdOf, g.pdes[p].to), g.pdes[p].from)
    ensures g'.totCost == g.totCost - g.pdes[p].weight
  {
    var a, b := g.pdes[p].from, g.pdes[p].to;
    CostOfBare(g);
    CostOfBare(g');
    PdEdgeWeight(g, p);
    MergeDelta(Bare(g.es), g.pdOf, a, b);
    BareSum(g.es, Joining(MembersOf(g.pdOf, a), MembersOf(g.pdOf, b)));
  }

  lemma SplitCost(g: Graph, g': Graph, a: PdId, b: PdId, s: set<Comp>)
    requires Core(g) && Complete(g) && Core(g') && Complete(g') && Bare(g'.es) == Bare(g.es)
    requires s <= MembersOf(g.pdOf, a) && MembersOf(g.pdOf, b) == {} && a != b && g'.pdOf == Moved(g.pdOf, s, b)
    ensures g'.totCost == g.totCost + Cut(Bare(g.es), MembersOf(g.pdOf, a), s)
  {
    CostOfBare(g);
    CostOfBare(g');
    SplitDelta(Bare(g.es), g.pdOf, a, s, b);
  }

  /** The domains at the ends of pd-edge `p` are one: the members of the second are in the first, one
      domain fewer, the same edges, and `tot_cost` down by exactly the weight of `p`.  The cut of the
      merged domain is recomputed and no other domain has changed. */
  ghost predicate Cheaper(w: World, w': World, p: PdeId)
    requires p in w.g.pdes
  {
    var a, b := w.g.pdes[p].from, w.g.pdes[p].to;
    && w'.g.totCost == w.g.totCost - w.g.pdes[p].weight && w'.nPds == w.nPds - 1
    && w'.g.pdOf == Moved(w.g.pdOf, MembersOf(w.g.pdOf, b), a) && w'.g.pdOf.Keys == w.g.pdOf.Keys
    && Bare(w'.g.es) == Bare(w.g.es) && Recut(Bare(w.g.es), w.pds, w'.pds, {a})
    && (AllUpToDate(Bare(w.g.es), w.pds) ==> AllUpToDate(Bare(w.g.es), w'.pds))
  }

  /** The domains at the two ends of a pd-edge exist, and merging them empties the second. */
  lemma EndsExist(w: World, p: PdeId)
    requires Core(w.g) && Used(w.g) && Homes(w.g.pdOf, w.pds) && p in w.g.pdes
    ensures w.g.pdes[p].from in w.pds && w.g.pdes[p].to in w.pds && w.g.pdes[p].from != w.g.pdes[p].to
    ensures MembersOf(Moved(w.g.pdOf, MembersOf(w.g.pdOf, w.g.pdes[p].to), w.g.pdes[p].from), w.g.pdes[p].to) == {}
  {
    PdEdgeEnds(w.g, p);
    var c :| c in MembersOf(w.g.pdOf, w.g.pdes[p].from);
    var d :| d in MembersOf(w.g.pdOf, w.g.pdes[p].to);
    assert w.g.pdOf[c] in w.pds && w.g.pdOf[d] in w.pds;
  }

  /** Merging the two domains whose pd-edge is off the heap leaves every pd-edge on it. */
  method MergePopped(w: World, hs: Hs) returns (w': World)
    requires Base(w, hs) && AllSettled(w.pds) && w.g.merging.Some?
    requires w.g.merging.value.0 in w.pds && w.g.merging.value.1 in w.pds && w.g.merging.value.0 != w.g.merging.value.1
    requires var (a, b) := w.g.merging.value; MembersOf(Moved(w.g.pdOf, MembersOf(w.g.pdOf, b), a), b) == {}
    modifies hs.eh, hs.eh.data, hs.ph, hs.ph.data, hs.q, hs.q.heap, hs.q.heap.data
    ensures Ready(w', hs) && WellKept(w'.g) && Bare(w'.g.es) == Bare(w.g.es) && |w'.pds| == |w.pds| - 1
    ensures w'.g.pdOf == Moved(w.g.pdOf, MembersOf(w.g.pdOf, w.g.merging.value.1), w.g.merging.value.0)
    ensures Recut(Bare(w.g.es), w.pds, w'.pds, {w.g.merging.value.0})
    ensures AllUpToDate(Bare(w.g.es), w.pds) ==> AllUpToDate(Bare(w.g.es), w'.pds)
  {
    var (a, b) := w.g.merging.value;
    var w1 := Merge(w, hs, a, b);
    MergeOver(w1, hs);
    OneFewer(w.pds, w1.pds, b);
    w' := w1.(g := w1.g.(merging := None));
  }

  lemma MergeOver(w: World, hs: Hs)
    requires Base(w, hs) && AllSettled(w.pds) && w.g.merging.Some? && MembersOf(w.g.pdOf, w.g.merging.value.1) == {}
    ensures Ready(w.(g := w.g.(merging := None)), hs)
  {
    MergeDone(w.g);
  }

  lemma OneFewer(pds: map<PdId, Pd>, pds': map<PdId, Pd>, b: PdId)
    requires b in pds && pds'.Keys == pds.Keys - {b}
    ensures |pds'| == |pds| - 1
  {
    assert |pds'.Keys| == |pds.Keys| - 1;
  }

  /** mpd_decrease_overhead: merge the domains joined by the heaviest pd-edge, saving its weight. */
  method DecreaseOverhead(w: World, hs: Hs) returns (w': World, p: PdeId)
    requires Ready(w, hs) && hs.eh.e > 1
    modifies hs.eh, hs.eh.data, hs.ph, hs.ph.data, hs.q, hs.q.heap, hs.q.heap.data
    ensures Ready(w', hs)
    ensures p in w.g.pdes && (forall r :: r in w.g.pdes ==> w.g.pdes[r].weight <= w.g.pdes[p].weight)
    ensures Cheaper(w, w', p)
  {
    assert WellKept(w.g) && Used(w.g) && Homes(w.g.pdOf, w.pds);
    var g1, top := PopEdge(w.g, hs.eh);
    p := top;
    EndsExist(w, p);
    w' := MergePopped(w.(g := g1), hs);
    MergeCost(w.g, w'.g, p);
    SameKeys(w.g.pdOf, MembersOf(w.g.pdOf, w.g.pdes[p].to), w.g.pdes[p].from);
  }

  /** The start of mpd_increase_isolation: the domain with the cheapest recorded cut leaves the heap. */
  method PopPd(pds: map<PdId, Pd>, ph: Heap<PdId>) returns (pds': map<PdId, Pd>, a: PdId)
    requires PdsOnHeap(pds, ph) && ph.e > 1
    modifies ph, ph.data
    ensures a in pds && pds[a].onHeap && forall x :: x in pds && pds[x].onHeap ==> pds[a].mcAmnt <= pds[x].mcAmnt
    ensures pds' == pds[a := pds[a].(onHeap := false)] && PdsOnHeap(pds', ph)
  {
    CheaperCutIsPreorder(pds);
    var top := ph.Highest(CheaperCut(pds));
    a := top.value;
    pds' := pds[a := pds[a].(onHeap := false)];
    assert Ordered(ph.data[..ph.e], CheaperCut(pds')) by {
      assert forall i :: 1 <= i < ph.e ==> ph.data[i] in ph.elems;
    }
    forall x | x in pds && pds[x].onHeap ensures pds[a].mcAmnt <= pds[x].mcAmnt {
      assert x in old(ph.elems);
      assert CheaperCut(pds)(a, x);
    }
  }

  lemma PopSettles(pds: map<PdId, Pd>, a: PdId)
    requires AllSettled(pds) && a in pds && pds[a].onHeap
    ensures SettledBut(pds[a := pds[a].(onHeap := false)], a) && |pds[a].members| >= 2
  {
    var pds' := pds[a := pds[a].(onHeap := false)];
    assert Settled(pds[a]);
    assert pds'[a].(onHeap := true) == pds[a];
    forall x | x in pds' && x != a ensures Settled(pds'[x]) {
      assert Settled(pds[x]);
    }
  }

  lemma PopUpToDate(bare: seq<Edge>, pds: map<PdId, Pd>, a: PdId)
    requires AllUpToDate(bare, pds) && a in pds
    ensures AllUpToDate(bare, pds[a := pds[a].(onHeap := false)])
  {
    var pds' := pds[a := pds[a].(onHeap := false)];
    forall x | x in pds' ensures UpToDate(bare, pds'[x]) {
      assert UpToDate(bare, pds[x]);
    }
  }

  /** What splitting domain `pd` along its recorded cut costs. */
  function SplitPrice(w: World, pd: Pd): int {
    Cut(Bare(w.g.es), Elements(pd.members), Elements(pd.mcMembers))
  }

  /** The recorded cut of domain `a` is a domain of its own: one domain more, the same edges, and
      `tot_cost` up by exactly `amnt`.  Both cuts are recomputed and no other domain has changed. */
  ghost predicate Dearer(w: World, w': World, a: PdId, amnt: int)
    requires a in w.pds
  {
    && w'.g.totCost == w.g.totCost + amnt && w'.nPds == w.nPds + 1 && w.nextPd !in w.pds
    && w'.g.pdOf == Moved(w.g.pdOf, Elements(w.pds[a].mcMembers), w.nextPd) && w'.g.pdOf.Keys == w.g.pdOf.Keys
    && Bare(w'.g.es) == Bare(w.g.es) && Recut(Bare(w.g.es), w.pds, w'.pds, {a, w.nextPd})
    && (AllUpToDate(Bare(w.g.es), w.pds) ==> AllUpToDate(Bare(w.g.es), w'.pds))
  }

  lemma SplitDearer(w: World, w': World, a: PdId, b: PdId)
    requires Core(w.g) && Complete(w.g) && Core(w'.g) && Complete(w'.g) && Homes(w.g.pdOf, w.pds)
    requires a in w.pds && Elements(w.pds[a].mcMembers) <= Elements(w.pds[a].members)
    requires HasSplit(w, w', a, b, Elements(w.pds[a].mcMembers)) && w'.nPds == |w'.pds| && w.nPds == |w.pds|
    ensures Dearer(w, w', a, SplitPrice(w, w.pds[a]))
  {
    NewHome(w.g.pdOf, w.pds, b);
    assert Roster(w.g.pdOf, a, w.pds[a]);
    SplitCost(w.g, w'.g, a, b, Elements(w.pds[a].mcMembers));
    assert |w'.pds.Keys| == |w.pds.Keys| + 1;
    SameKeys(w.g.pdOf, Elements(w.pds[a].mcMembers), b);
  }

  /** With up-to-date cuts the recorded `mc_amnt` is the price of the split. */
  lemma UpToDatePrice(w: World, a: PdId)
    requires AllUpToDate(Bare(w.g.es), w.pds) && a in w.pds && |w.pds[a].members| >= 2
    ensures SplitPrice(w, w.pds[a]) == w.pds[a].mcAmnt
  {
    assert UpToDate(Bare(w.g.es), w.pds[a]);
  }

  /** mpd_increase_isolation: split the domain whose recorded cut is cheapest. */
  method IncreaseIsolation(w: World, hs: Hs) returns (w': World, a: PdId)
    requires Ready(w, hs) && hs.ph.e > 1
    modifies hs.eh, hs.eh.data, hs.ph, hs.ph.data, hs.q, hs.q.heap, hs.q.heap.data
    ensures Ready(w', hs)
    ensures a in w.pds && |w.pds[a].members| >= 2
    ensures forall x :: x in w.pds && |w.pds[x].members| >= 2 ==> w.pds[a].mcAmnt <= w.pds[x].mcAmnt
    ensures Dearer(w, w', a, SplitPrice(w, w.pds[a]))
    ensures AllUpToDate(Bare(w.g.es), w.pds) ==> Dearer(w, w', a, w.pds[a].mcAmnt)
  {
    var pds1, top := PopPd(w.pds, hs.ph);
    a := top;
    PopSettles(w.pds, a);
    SameMembers(w.g.pdOf, w.pds, a, pds1[a]);
    var w1 := w.(pds := pds1);
    var w2, b := Split(w1, hs, a);
    w' := w2;
    SplitDearer(w1, w', a, b);
    if AllUpToDate(Bare(w.g.es), w.pds) {
      PopUpToDate(Bare(w.g.es), w.pds, a);
      UpToDatePrice(w, a);
    }
    forall x | x in w.pds && |w.pds[x].members| >= 2 ensures w.pds[a].mcAmnt <= w.pds[x].mcAmnt {
      assert Settled(w.pds[x]);
    }
  }

  /** recompute_min_cuts: mc_find_min_cut on every domain, in whatever order they are listed. */
  method RecomputeMinCuts(w: World, hs: Hs) returns (w': World)
    requires Ready(w, hs)
    modifies hs.ph, hs.ph.data, hs.q, hs.q.heap, hs.q.heap.data
    ensures Ready(w', hs) && Recomputed(w, w')
  {
    w' := w;
    var todo := w.pds.Keys;
    while todo != {}
      invariant Ready(w', hs) && w'.g == w.g && w'.nPds == w.nPds && w'.nextPd == w.nextPd
      invariant w'.pds.Keys == w.pds.Keys && todo <= w.pds.Keys
      invariant forall x :: x in w.pds ==> w'.pds[x].members == w.pds[x].members
      invariant forall x {:trigger UpToDate(Bare(w.g.es), w'.pds[x])} ::
        x in w'.pds && x !in todo ==> UpToDate(Bare(w.g.es), w'.pds[x])
      decreases todo
    {
      var a :| a in todo;
      AllInhabited(w'.pds);
      ghost var was := w'.pds;
      w' := Refresh(w', hs, a);
      OneMoreUpToDate(Bare(w.g.es), was, w'.pds, a, todo);
      todo := todo - {a};
    }
  }

  lemma AllInhabited(pds: map<PdId, Pd>)
    requires AllSettled(pds)
    ensures Inhabited(pds)
  {
    forall x | x in pds ensures pds[x].members != [] {
      assert Settled(pds[x]);
    }
  }

  lemma OneMoreUpToDate(bare: seq<Edge>, pds: map<PdId, Pd>, pds': map<PdId, Pd>, a: PdId, todo: set<PdId>)
    requires AllSettled(pds) && a in pds && a in pds' && pds' == pds[a := pds'[a]] && Settled(pds'[a])
    requires UpToDate(bare, pds'[a])
    requires forall x {:trigger UpToDate(bare, pds[x])} :: x in pds && x !in todo ==> UpToDate(bare, pds[x])
    ensures AllSettled(pds') && pds'.Keys == pds.Keys
    ensures forall x {:trigger UpToDate(bare, pds'[x])} :: x in pds' && x !in todo - {a} ==> UpToDate(bare, pds'[x])
  {
    forall x | x in pds'
      ensures Settled(pds'[x]) && (x !in todo - {a} ==> UpToDate(bare, pds'[x]))
    {
      if x != a {
        assert Settled(pds[x]) && (x !in todo ==> UpToDate(bare, pds[x]));
      }
    }
  }

  lemma CostNonnegative(g: Graph)
    requires Core(g)
    ensures g.totCost >= 0
  {
    SumNonnegative(g.es, Mastered());
  }

  /** With no pd-edge on the heap there is none, and nothing crosses. */
  lemma NothingCrosses(w: World, hs: Hs)
    requires Ready(w, hs) && hs.eh.e == 1
    ensures w.g.totCost == 0 && w.g.pdes == map[]
  {
    assert hs.eh.elems == {};
    assert forall p :: p in w.g.pdes ==> w.g.pdes[p].onHeap;
    forall e | e in w.g.es ensures Mastered()(e) == 0 {
      var i :| 0 <= i < |w.g.es| && w.g.es[i] == e;
      assert MasterOk(w.g.pdOf, w.g.pdes, w.g.es[i]);
    }
    SumAdd(w.g.es, Mastered(), Mastered(), Mastered());
  }

  /** The same components and edges, and components that were in one domain still are. */
  ghost predicate Coarser(w: World, w': World) {
    && w'.g.pdOf.Keys == w.g.pdOf.Keys && Bare(w'.g.es) == Bare(w.g.es) && w'.nPds <= w.nPds
    && KeepsTogether(w.g.pdOf, w'.g.pdOf)
  }

  predicate SameDomain(pdOf: map<Comp, PdId>, c: Comp, d: Comp) {
    c in pdOf && d in pdOf && pdOf[c] == pdOf[d]
  }

  ghost predicate KeepsTogether(pdOf: map<Comp, PdId>, pdOf': map<Comp, PdId>) {
    forall c, d {:trigger SameDomain(pdOf', c, d)} :: SameDomain(pdOf, c, d) ==> SameDomain(pdOf', c, d)
  }

  lemma MovedTogether(pdOf: map<Comp, PdId>, b: PdId, a: PdId, pdOf': map<Comp, PdId>)
    requires pdOf' == Moved(pdOf, MembersOf(pdOf, b), a) && pdOf'.Keys == pdOf.Keys
    ensures KeepsTogether(pdOf, pdOf')
  {
    forall c, d | SameDomain(pdOf, c, d) ensures SameDomain(pdOf', c, d) {
      assert c in MembersOf(pdOf, b) <==> d in MembersOf(pdOf, b);
    }
  }

  ghost predicate Heaviest(g: Graph, p: PdeId) {
    p in g.pdes && forall r :: r in g.pdes ==> g.pdes[r].weight <= g.pdes[p].weight
  }

  /** The cost was above the limit, and a heaviest pd-edge was merged across. */
  ghost predicate MergeStep(w: World, w': World, limit: int) {
    w.g.totCost > limit && exists p :: Heaviest(w.g, p) && Cheaper(w, w', p)
  }

  /** A run of merges leads from `w` through the worlds `ws` to `w'`. */
  ghost predicate Merges(w: World, ws: seq<World>, w': World, limit: int) {
    if ws == [] then w' == w
    else
      var n := |ws| - 1;
      Merges(w, ws[..n], ws[n], limit) && MergeStep(ws[n], w', limit)
  }

  lemma MergesOn(w: World, ws: seq<World>, w1: World, limit: int, w2: World)
    requires Merges(w, ws, w1, limit) && MergeStep(w1, w2, limit)
    ensures Merges(w, ws + [w1], w2, limit)
  {
    assert (ws + [w1])[..|ws|] == ws;
  }

  /** One turn of the loop of remove_overhead_to_limit. */
  method MergeOnce(w: World, hs: Hs, limit: int) returns (w': World)
    requires Ready(w, hs) && hs.eh.e > 1 && w.g.totCost > limit
    modifies hs.eh, hs.eh.data, hs.ph, hs.ph.data, hs.q, hs.q.heap, hs.q.heap.data
    ensures Ready(w', hs) && MergeStep(w, w', limit) && w'.nPds == w.nPds - 1
  {
    var next, p := DecreaseOverhead(w, hs);
    w' := next;
    assert Heaviest(w.g, p);
  }

  lemma CoarserOn(w: World, w1: World, w2: World)
    requires Coarser(w, w1) && Coarser(w1, w2)
    ensures Coarser(w, w2)
  {
    forall c, d | SameDomain(w.g.pdOf, c, d) ensures SameDomain(w2.g.pdOf, c, d) {
      assert SameDomain(w1.g.pdOf, c, d);
    }
  }

  lemma MergeIsCoarser(w: World, w': World, limit: int)
    requires MergeStep(w, w', limit)
    ensures Coarser(w, w')
  {
    var p :| Heaviest(w.g, p) && Cheaper(w, w', p);
    MovedTogether(w.g.pdOf, w.g.pdes[p].to, w.g.pdes[p].from, w'.g.pdOf);
  }

  lemma CoarserSelf(w: World)
    ensures Coarser(w, w)
  {
  }

  /** Merging never takes components apart. */
  lemma {:induction false} MergesCoarser(w: World, ws: seq<World>, w': World, limit: int)
    requires Merges(w, ws, w', limit)
    ensures Coarser(w, w')
    decreases |ws|
  {
    if ws == [] {
      CoarserSelf(w);
    } else {
      var n := |ws| - 1;
      MergesCoarser(w, ws[..n], ws[n], limit);
      MergeIsCoarser(ws[n], w', limit);
      CoarserOn(w, ws[n], w');
    }
  }

  /** The loop: it stops as soon as the cost is within the limit or no boundary is left. */
  method MergeWhileOver(w: World, hs: Hs, limit: int) returns (w': World, ghost ws: seq<World>)
    requires Ready(w, hs)
    modifies hs.eh, hs.eh.data, hs.ph, hs.ph.data, hs.q, hs.q.heap, hs.q.heap.data
    ensures Ready(w', hs) && Merges(w, ws, w', limit) && (hs.eh.e == 1 || w'.g.totCost <= limit)
  {
    w', ws := w, [];
    while hs.eh.e > 1 && w'.g.totCost > limit
      invariant Ready(w', hs) && Merges(w, ws, w', limit)
      decreases w'.nPds
    {
      ghost var was := w';
      w' := MergeOnce(w', hs, limit);
      MergesOn(w, ws, was, limit, w');
      ws := ws + [was];
    }
  }

  ghost predicate MergedDown(w: World, w': World, limit: int) {
    exists ws :: Merges(w, ws, w', limit)
  }

  /** remove_overhead_to_limit, also the first loop of customize_overhead_to_limit. */
  method RemoveOverheadToLimit(w: World, hs: Hs, limit: int) returns (w': World)
    requires Ready(w, hs)
    modifies hs.eh, hs.eh.data, hs.ph, hs.ph.data, hs.q, hs.q.heap, hs.q.heap.data
    ensures Ready(w', hs) && Coarser(w, w') && MergedDown(w, w', limit)
    ensures w'.g.totCost <= limit <==> limit >= 0
    ensures limit < 0 ==> w'.g.totCost == 0 && w'.g.pdes == map[]
  {
    ghost var ws;
    w', ws := MergeWhileOver(w, hs, limit);
    MergesCoarser(w, ws, w', limit);
    CostNonnegative(w'.g);
    if hs.eh.e == 1 {
      NothingCrosses(w', hs);
    }
  }

  /** No way of splitting any domain in two fits within `limit`. */
  ghost predicate NoAffordableSplit(w: World, limit: int) {
    forall a, s :: a in w.pds && ProperPart(Elements(w.pds[a].members), s) ==>
      w.g.totCost + Cut(Bare(w.g.es), Elements(w.pds[a].members), s) >= limit
  }

  lemma PartNeedsTwo(members: seq<Comp>, s: set<Comp>)
    ensures |members| < 2 ==> !ProperPart(Elements(members), s)
  {
    if |members| == 1 {
      assert Elements(members) == {members[0]};
    } else if |members| == 0 {
      assert Elements(members) == {};
    }
  }

  lemma CheapestTooDear(w: World, least: int, limit: int)
    requires AllSettled(w.pds) && AllUpToDate(Bare(w.g.es), w.pds) && w.g.totCost + least >= limit
    requires forall x :: x in w.pds && w.pds[x].onHeap ==> least <= w.pds[x].mcAmnt
    ensures NoAffordableSplit(w, limit)
  {
    forall a, s | a in w.pds && ProperPart(Elements(w.pds[a].members), s)
      ensures w.g.totCost + Cut(Bare(w.g.es), Elements(w.pds[a].members), s) >= limit
    {
      assert Settled(w.pds[a]) && UpToDate(Bare(w.g.es), w.pds[a]);
      PartNeedsTwo(w.pds[a].members, s);
      assert CostsAtLeast(Bare(w.g.es), Elements(w.pds[a].members), s, w.pds[a].mcAmnt);
    }
  }

  /** The same components and edges, and components in different domains still are. */
  ghost predicate Finer(w: World, w': World) {
    && w'.g.pdOf.Keys == w.g.pdOf.Keys && Bare(w'.g.es) == Bare(w.g.es) && KeepsTogether(w'.g.pdOf, w.g.pdOf)
  }

  lemma FinerOn(w: World, w1: World, w2: World)
    requires Finer(w, w1) && Finer(w1, w2)
    ensures Finer(w, w2)
  {
    forall c, d | SameDomain(w2.g.pdOf, c, d) ensures SameDomain(w.g.pdOf, c, d) {
      assert SameDomain(w1.g.pdOf, c, d);
    }
  }

  /** Moving part of one domain to a new one brings no two components together. */
  lemma MovedApart(pdOf: map<Comp, PdId>, s: set<Comp>, a: PdId, b: PdId, pdOf': map<Comp, PdId>)
    requires pdOf' == Moved(pdOf, s, b) && pdOf'.Keys == pdOf.Keys
    requires s <= MembersOf(pdOf, a) && MembersOf(pdOf, b) == {}
    ensures KeepsTogether(pdOf', pdOf)
  {
    forall c, d | SameDomain(pdOf', c, d) ensures SameDomain(pdOf, c, d) {
      assert c in s ==> c in MembersOf(pdOf, a);
      assert d in s ==> d in MembersOf(pdOf, a);
      assert pdOf[c] == b ==> c in MembersOf(pdOf, b);
      assert pdOf[d] == b ==> d in MembersOf(pdOf, b);
    }
  }

  ghost predicate Cheapest(pds: map<PdId, Pd>, a: PdId) {
    && a in pds && |pds[a].members| >= 2
    && (forall x :: x in pds && |pds[x].members| >= 2 ==> pds[a].mcAmnt <= pds[x].mcAmnt)
  }

  /** A split along the cheapest recorded cut, which stays below the limit. */
  ghost predicate SplitStep(w: World, w': World, allowed: int) {
    && Finer(w, w')
    && exists a :: Cheapest(w.pds, a) && w.g.totCost + w.pds[a].mcAmnt < allowed && Dearer(w, w', a, w.pds[a].mcAmnt)
  }

  /** A run of splits leads from `w` through the worlds `ws` to `w'`. */
  ghost predicate Splits(w: World, ws: seq<World>, w': World, allowed: int) {
    if ws == [] then w' == w
    else
      var n := |ws| - 1;
      Splits(w, ws[..n], ws[n], allowed) && SplitStep(ws[n], w', allowed)
  }

  lemma SplitsOn(w: World, ws: seq<World>, w1: World, allowed: int, w2: World)
    requires Splits(w, ws, w1, allowed) && SplitStep(w1, w2, allowed)
    ensures Splits(w, ws + [w1], w2, allowed)
  {
    assert (ws + [w1])[..|ws|] == ws;
  }

  lemma FinerSelf(w: World)
    ensures Finer(w, w)
  {
  }

  /** Splitting never brings components together. */
  lemma {:induction false} SplitsFiner(w: World, ws: seq<World>, w': World, allowed: int)
    requires Splits(w, ws, w', allowed)
    ensures Finer(w, w')
    decreases |ws|
  {
    if ws == [] {
      FinerSelf(w);
    } else {
      var n := |ws| - 1;
      SplitsFiner(w, ws[..n], ws[n], allowed);
      FinerOn(w, ws[n], w');
    }
  }

  /** The loop: it stops as soon as the cheapest split does not fit. */
  method SplitWhileFits(w: World, hs: Hs, allowed: int) returns (w': World, ghost ws: seq<World>)
    requires Ready(w, hs) && AllUpToDate(Bare(w.g.es), w.pds) && (w.g.totCost <= allowed || w.g.totCost == 0)
    modifies hs.eh, hs.eh.data, hs.ph, hs.ph.data, hs.q, hs.q.heap, hs.q.heap.data
    ensures Ready(w', hs) && AllUpToDate(Bare(w'.g.es), w'.pds) && Splits(w, ws, w', allowed)
    ensures w'.g.totCost <= allowed || w'.g.totCost == 0
    ensures NoAffordableSplit(w', allowed)
  {
    w', ws := w, [];
    var affordable := true;
    while affordable
      invariant Ready(w', hs) && AllUpToDate(Bare(w'.g.es), w'.pds) && Splits(w, ws, w', allowed)
      invariant (w'.g.totCost <= allowed || w'.g.totCost == 0) && |w'.g.pdOf| == |w.g.pdOf|
      invariant !affordable ==> NoAffordableSplit(w', allowed)
      decreases affordable, |w.g.pdOf| - w'.nPds
    {
      ghost var was := w';
      w', affordable := SplitIfFits(w', hs, allowed);
      if affordable {
        SplitsOn(w, ws, was, allowed, w');
        ws := ws + [was];
      }
    }
  }

  method SplitIfFits(w: World, hs: Hs, allowed: int) returns (w': World, fits: bool)
    requires Ready(w, hs) && AllUpToDate(Bare(w.g.es), w.pds)
    modifies hs.eh, hs.eh.data, hs.ph, hs.ph.data, hs.q, hs.q.heap, hs.q.heap.data
    ensures Ready(w', hs) && AllUpToDate(Bare(w'.g.es), w'.pds) && |w'.g.pdOf| == |w.g.pdOf|
    ensures !fits ==> w' == w && NoAffordableSplit(w, allowed)
    ensures fits ==> SplitStep(w, w', allowed) && w'.g.totCost < allowed && w'.nPds == w.nPds + 1 <= |w.g.pdOf|
  {
    w' := w;
    fits := CheapestFits(w, hs, allowed);
    if fits {
      w' := SplitOnce(w, hs, allowed);
    }
  }

  ghost predicate SplitUp(w: World, w': World, allowed: int) {
    exists ws :: Splits(w, ws, w', allowed)
  }

  /** Splitting while the cheapest split fits: the second loop of customize_overhead_to_limit. */
  method SplitWithinLimit(w: World, hs: Hs, allowed: int) returns (w': World)
    requires Ready(w, hs) && AllUpToDate(Bare(w.g.es), w.pds) && (w.g.totCost <= allowed || w.g.totCost == 0)
    modifies hs.eh, hs.eh.data, hs.ph, hs.ph.data, hs.q, hs.q.heap, hs.q.heap.data
    ensures Ready(w', hs) && AllUpToDate(Bare(w'.g.es), w'.pds)
    ensures Finer(w, w') && SplitUp(w, w', allowed)
    ensures w'.g.totCost <= allowed || w'.g.totCost == 0
    ensures NoAffordableSplit(w', allowed)
  {
    ghost var ws;
    w', ws := SplitWhileFits(w, hs, allowed);
    SplitsFiner(w, ws, w', allowed);
  }

  /** The test of that loop: is there a domain to split, and does the cheapest split fit? */
  method CheapestFits(w: World, hs: Hs, allowed: int) returns (fits: bool)
    requires Ready(w, hs) && AllUpToDate(Bare(w.g.es), w.pds)
    ensures !fits ==> NoAffordableSplit(w, allowed)
    ensures fits ==> hs.ph.e > 1 && exists a :: a in w.pds && w.pds[a].onHeap && w.g.totCost + w.pds[a].mcAmnt < allowed
  {
    if hs.ph.e == 1 {
      assert hs.ph.elems == {};
      CheapestTooDear(w, allowed - w.g.totCost, allowed);
      return false;
    }
    CheaperCutIsPreorder(w.pds);
    var top := hs.ph.Peek(CheaperCut(w.pds));
    var a := top.value;
    fits := w.g.totCost + w.pds[a].mcAmnt < allowed;
    if !fits {
      forall x | x in w.pds && w.pds[x].onHeap ensures w.pds[a].mcAmnt <= w.pds[x].mcAmnt {
        assert CheaperCut(w.pds)(a, x);
      }
      CheapestTooDear(w, w.pds[a].mcAmnt, allowed);
    }
  }

  /** One affordable split: `tot_cost` grows by the smallest recorded cut and stays below the limit. */
  method SplitOnce(w: World, hs: Hs, allowed: int) returns (w': World)
    requires Ready(w, hs) && AllUpToDate(Bare(w.g.es), w.pds) && hs.ph.e > 1
    requires exists a :: a in w.pds && w.pds[a].onHeap && w.g.totCost + w.pds[a].mcAmnt < allowed
    modifies hs.eh, hs.eh.data, hs.ph, hs.ph.data, hs.q, hs.q.heap, hs.q.heap.data
    ensures Ready(w', hs) && AllUpToDate(Bare(w'.g.es), w'.pds) && SplitStep(w, w', allowed)
    ensures w'.g.totCost < allowed && w'.nPds == w.nPds + 1 && w.nPds < |w.g.pdOf| && |w'.g.pdOf| == |w.g.pdOf|
  {
    ghost var a :| a in w.pds && w.pds[a].onHeap && w.g.totCost + w.pds[a].mcAmnt < allowed;
    assert Settled(w.pds[a]);
    assert Homes(w.g.pdOf, w.pds);
    var next, b := IncreaseIsolation(w, hs);
    w' := next;
    assert Cheapest(w.pds, b);
    SplitIsFiner(w, w', b);
    AllInhabited(w'.pds);
    HomesSize(w'.g.pdOf, w'.pds);
  }

  lemma SplitIsFiner(w: World, w': World, a: PdId)
    requires Homes(w.g.pdOf, w.pds) && AllSettled(w.pds) && Cheapest(w.pds, a) && Dearer(w, w', a, w.pds[a].mcAmnt)
    ensures Finer(w, w')
  {
    assert Settled(w.pds[a]) && Roster(w.g.pdOf, a, w.pds[a]);
    NewHome(w.g.pdOf, w.pds, w.nextPd);
    MovedApart(w.g.pdOf, Elements(w.pds[a].mcMembers), a, w.nextPd, w'.g.pdOf);
  }

  /** Only the recorded cuts differ, and they are minimum cuts now. */
  ghost predicate Recomputed(w: World, w': World) {
    && w'.g == w.g && w'.nPds == w.nPds && w'.nextPd == w.nextPd && w'.pds.Keys == w.pds.Keys
    && (forall x :: x in w.pds ==> w'.pds[x].members == w.pds[x].members) && AllUpToDate(Bare(w.g.es), w'.pds)
  }

  /** A run of merges, then all cuts recomputed, then a run of splits. */
  ghost predicate Customized(w: World, w': World, allowed: int) {
    exists w1, w2 :: MergedDown(w, w1, allowed) && Recomputed(w1, w2) && SplitUp(w2, w', allowed)
  }

  /** The first two loops of customize_overhead_to_limit: within budget, and no split left that fits. */
  method CustomizeOverheadToLimit(w: World, hs: Hs, allowed: int) returns (w': World)
    requires Ready(w, hs)
    modifies hs.eh, hs.eh.data, hs.ph, hs.ph.data, hs.q, hs.q.heap, hs.q.heap.data
    ensures Ready(w', hs) && AllUpToDate(Bare(w'.g.es), w'.pds)
    ensures w'.g.pdOf.Keys == w.g.pdOf.Keys && Bare(w'.g.es) == Bare(w.g.es)
    ensures Customized(w, w', allowed)
    ensures w'.g.totCost <= allowed <==> allowed >= 0
    ensures NoAffordableSplit(w', allowed)
  {
    var w1 := RemoveOverheadToLimit(w, hs, allowed);
    var w2 := RecomputeMinCuts(w1, hs);
    w' := SplitWithinLimit(w2, hs, allowed);
    CostNonnegative(w'.g);
  }
}
