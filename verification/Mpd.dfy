/** Protection domains as a whole (mpd_policy.h): domains and their members, merging across the
    heaviest pd-edge, splitting along the cheapest minimum cut, and the budget loops. */
module Mpd {
  import opened Graphs
  import opened Domains
  import opened Heaps
  import opened PdEdges
  import opened MinCuts

  /** One `struct protection_domain`; `members` and `mcMembers` are rings read from their head. */
  datatype Pd = Pd(members: seq<Comp>, mcAmnt: int, mcMembers: seq<Comp>, onHeap: bool)

  /** The globals of the policy, apart from the heaps. */
  datatype World = World(g: Graph, pds: map<PdId, Pd>, nPds: int, nextPd: nat)

  function CutOf(pds: map<PdId, Pd>, a: PdId): int {
    if a in pds then pds[a].mcAmnt else 0
  }

  /** The comparator pd_cmp over the current min-cut values. */
  function CheaperCut(pds: map<PdId, Pd>): (PdId, PdId) -> bool {
    (a: PdId, b: PdId) => CutOf(pds, a) <= CutOf(pds, b)
  }

  lemma CheaperCutIsPreorder(pds: map<PdId, Pd>)
    ensures TotalPreorder(CheaperCut(pds))
  {
  }

  ghost predicate PdsOnHeap(pds: map<PdId, Pd>, h: Heap<PdId>)
    reads h, h.data
  {
    && h.ValidFor(CheaperCut(pds))
    && (forall a :: a in h.elems <==> a in pds && pds[a].onHeap)
  }

  /** The member ring of a domain lists exactly the components placed in it. */
  ghost predicate Roster(pdOf: map<Comp, PdId>, a: PdId, pd: Pd) {
    Distinct(pd.members) && Elements(pd.members) == MembersOf(pdOf, a)
  }

  ghost predicate Homes(pdOf: map<Comp, PdId>, pds: map<PdId, Pd>) {
    && (forall c {:trigger pdOf[c]} :: c in pdOf ==> pdOf[c] in pds)
    && (forall a {:trigger Roster(pdOf, a, pds[a])} :: a in pds ==> Roster(pdOf, a, pds[a]))
  }

  function Without(s: seq<Comp>, c: Comp): seq<Comp> {
    if s == [] then [] else if s[0] == c then s[1..] else [s[0]] + Without(s[1..], c)
  }

  lemma {:induction false} WithoutElements(s: seq<Comp>, c: Comp)
    requires Distinct(s)
    ensures Distinct(Without(s, c)) && Elements(Without(s, c)) == Elements(s) - {c}
  {
    if s != [] {
      assert s == [s[0]] + s[1..];
      WithoutElements(s[1..], c);
      assert forall x :: x in s[1..] <==> x in Elements(s[1..]);
      var r := Without(s[1..], c);
      assert forall x :: x in r <==> x in Elements(r);
      assert s[0] !in s[1..] && s[0] !in r;
    }
  }

  /** ADD_LIST after the head of the ring. */
  function Inserted(s: seq<Comp>, c: Comp): seq<Comp> {
    if s == [] then [c] else [s[0], c] + s[1..]
  }

  lemma InsertedElements(s: seq<Comp>, c: Comp)
    requires Distinct(s) && c !in s
    ensures Distinct(Inserted(s, c)) && Elements(Inserted(s, c)) == Elements(s) + {c}
  {
    if s != [] {
      assert s == [s[0]] + s[1..];
    }
  }

  /** The newcomer stands right after the head, and the ring is the old one without it. */
  lemma InsertedPlace(s: seq<Comp>, c: Comp)
    requires c !in s
    ensures Without(Inserted(s, c), c) == s
    ensures s != [] ==> Inserted(s, c)[..2] == [s[0], c]
  {
    if s != [] {
      assert Inserted(s, c)[1..] == [c] + s[1..] && ([c] + s[1..])[1..] == s[1..];
    }
  }

  lemma LeaveHome(pdOf: map<Comp, PdId>, pds: map<PdId, Pd>, c: Comp, pd: Pd)
    requires Homes(pdOf, pds) && c in pdOf && pdOf[c] in pds && pd.members == Without(pds[pdOf[c]].members, c)
    ensures Homes(pdOf - {c}, pds[pdOf[c] := pd])
    ensures pd.members == [] ==> Homes(pdOf - {c}, pds - {pdOf[c]})
  {
    var pdOf', a := pdOf - {c}, pdOf[c];
    var pds' := pds[a := pd];
    assert Roster(pdOf, a, pds[a]);
    WithoutElements(pds[a].members, c);
    forall b | b in pds' ensures Roster(pdOf', b, pds'[b]) {
      assert Roster(pdOf, b, pds[b]);
      assert MembersOf(pdOf', b) == MembersOf(pdOf, b) - {c};
    }
    if pd.members == [] {
      assert Roster(pdOf', a, pds'[a]);
      forall b | b in pdOf' ensures pdOf'[b] != a {
        assert b !in MembersOf(pdOf', a);
      }
      forall b | b in pds - {a} ensures Roster(pdOf', b, (pds - {a})[b]) {
        assert Roster(pdOf', b, pds'[b]);
      }
    }
  }

  lemma EnterHome(pdOf: map<Comp, PdId>, pds: map<PdId, Pd>, c: Comp, a: PdId, pd: Pd)
    requires Homes(pdOf, pds) && c !in pdOf && a in pds && pd.members == Inserted(pds[a].members, c)
    ensures Homes(pdOf[c := a], pds[a := pd])
  {
    assert Roster(pdOf, a, pds[a]);
    assert c !in Elements(pds[a].members);
    InsertedElements(pds[a].members, c);
    var pdOf', pds' := pdOf[c := a], pds[a := pd];
    forall b | b in pds' ensures Roster(pdOf', b, pds'[b]) {
      assert Roster(pdOf, b, pds[b]);
      assert MembersOf(pdOf', b) == if b == a then MembersOf(pdOf, b) + {c} else MembersOf(pdOf, b);
    }
  }

  /** What every step keeps, between moves of components. */
  ghost predicate Sound(w: World, eh: Heap<PdeId>, ph: Heap<PdId>)
    reads eh, eh.data, ph, ph.data
  {
    && eh != ph && eh.data != ph.data
    && Books(w.g, eh) && Complete(w.g) && Homes(w.g.pdOf, w.pds) && PdsOnHeap(w.pds, ph)
    && w.nPds == |w.pds| && (forall a :: a in w.pds ==> a < w.nextPd)
  }

  /** pd_free, on the heap of domains: the freed domain leaves the heap if it is on it. */
  method FreePd(pds: map<PdId, Pd>, ph: Heap<PdId>, a: PdId) returns (pds': map<PdId, Pd>)
    requires PdsOnHeap(pds, ph) && a in pds
    modifies ph, ph.data
    ensures pds' == pds - {a} && PdsOnHeap(pds', ph)
  {
    pds' := pds - {a};
    if pds[a].onHeap {
      assert a in ph.elems;
      CheaperCutIsPreorder(pds);
      OrderedIsAround(ph.data[..ph.e], ph.idx[a], CheaperCut(pds));
      var r := ph.Remove(ph.idx[a], CheaperCut(pds));
      assert r == a;
    }
    assert Ordered(ph.data[..ph.e], CheaperCut(pds')) by {
      assert forall i :: 1 <= i < ph.e ==> ph.data[i] in ph.elems;
    }
  }

  lemma SameCuts(pds: map<PdId, Pd>, pds': map<PdId, Pd>, ph: Heap<PdId>)
    requires PdsOnHeap(pds, ph) && pds.Keys == pds'.Keys
    requires forall a :: a in pds ==> pds'[a].mcAmnt == pds[a].mcAmnt && pds'[a].onHeap == pds[a].onHeap
    ensures PdsOnHeap(pds', ph)
  {
  }

  /** What is left of the domain of `c` once `c` has left it. */
  function LeftBy(pd: Pd, c: Comp): Pd {
    pd.(members := Without(pd.members, c),
        mcMembers := if pd.mcMembers != [] && pd.mcMembers[0] == c then [] else Without(pd.mcMembers, c))
  }

  /** pd_rem_component: the component leaves its domain, which is freed if it was the last. */
  method RemComponent(w: World, eh: Heap<PdeId>, ph: Heap<PdId>, c: Comp) returns (w': World, freed: bool)
    requires Sound(w, eh, ph) && c in w.g.pdOf && w.g.pdOf[c] in w.pds
    modifies eh, eh.data, ph, ph.data
    ensures Sound(w', eh, ph) && Bare(w'.g.es) == Bare(w.g.es) && w'.g.merging == w.g.merging
    ensures w'.g.pdOf == w.g.pdOf - {c}
    ensures freed == (LeftBy(w.pds[w.g.pdOf[c]], c).members == []) && w'.nextPd == w.nextPd
    ensures w'.pds == if freed then w.pds - {w.g.pdOf[c]} else w.pds[w.g.pdOf[c] := LeftBy(w.pds[w.g.pdOf[c]], c)]
  {
    var a := w.g.pdOf[c];
    var pd := LeftBy(w.pds[a], c);
    LeaveHome(w.g.pdOf, w.pds, c, pd);
    var g' := RemoveComponentEdges(w.g, eh, c);
    freed := pd.members == [];
    if freed {
      var pds' := FreePd(w.pds, ph, a);
      w' := w.(g := g', pds := pds', nPds := w.nPds - 1);
    } else {
      SameCuts(w.pds, w.pds[a := pd], ph);
      w' := w.(g := g', pds := w.pds[a := pd]);
    }
  }

  /** pd_add_component */
  method AddComponent(w: World, eh: Heap<PdeId>, ph: Heap<PdId>, a: PdId, c: Comp) returns (w': World)
    requires Sound(w, eh, ph) && c !in w.g.pdOf && a in w.pds
    requires PlacedIn(Bare(w.g.es), w.g.pdOf.Keys + {c})
    modifies eh, eh.data
    ensures Sound(w', eh, ph) && Bare(w'.g.es) == Bare(w.g.es) && w'.g.merging == w.g.merging
    ensures w'.g.pdOf == w.g.pdOf[c := a]
    ensures w'.pds == w.pds[a := w.pds[a].(members := Inserted(w.pds[a].members, c))] && w'.nextPd == w.nextPd
  {
    var pd := w.pds[a].(members := Inserted(w.pds[a].members, c));
    EnterHome(w.g.pdOf, w.pds, c, a, pd);
    var g' := AddComponentEdges(w.g, eh, c, a);
    SameCuts(w.pds, w.pds[a := pd], ph);
    w' := w.(g := g', pds := w.pds[a := pd]);
  }

  lemma Rehomed(pdOf: map<Comp, PdId>, c: Comp, a: PdId)
    requires c in pdOf
    ensures (pdOf - {c})[c := a] == pdOf[c := a] && (pdOf - {c}).Keys + {c} == pdOf.Keys
  {
  }

  /** One component moves to domain `a`, as in the loops of __pd_merge and pd_split. */
  method Move(w: World, eh: Heap<PdeId>, ph: Heap<PdId>, a: PdId, c: Comp) returns (w': World, freed: bool)
    requires Sound(w, eh, ph) && PlacedIn(Bare(w.g.es), w.g.pdOf.Keys)
    requires c in w.g.pdOf && w.g.pdOf[c] in w.pds && a in w.pds && w.g.pdOf[c] != a
    modifies eh, eh.data, ph, ph.data
    ensures Sound(w', eh, ph) && Bare(w'.g.es) == Bare(w.g.es) && w'.g.merging == w.g.merging
    ensures w'.g.pdOf == w.g.pdOf[c := a] && w'.nextPd == w.nextPd
    ensures freed == (LeftBy(w.pds[w.g.pdOf[c]], c).members == [])
    ensures w'.pds ==
      (if freed then w.pds - {w.g.pdOf[c]} else w.pds[w.g.pdOf[c] := LeftBy(w.pds[w.g.pdOf[c]], c)])
      [a := w.pds[a].(members := Inserted(w.pds[a].members, c))]
  {
    Rehomed(w.g.pdOf, c, a);
    var w1, f := RemComponent(w, eh, ph, c);
    freed := f;
    w' := AddComponent(w1, eh, ph, a, c);
  }

  /** How far the world has come from `w0` when the components `moved` of domain `b` are in `a`. */
  ghost predicate Moving(w0: World, w: World, a: PdId, b: PdId, moved: set<Comp>) {
    && Bare(w.g.es) == Bare(w0.g.es) && w.g.merging == w0.g.merging && w.nextPd == w0.nextPd
    && w.g.pdOf == Moved(w0.g.pdOf, moved, a)
    && w.pds.Keys == (if MembersOf(w0.g.pdOf, b) <= moved then w0.pds.Keys - {b} else w0.pds.Keys)
    && (forall x :: x in w.pds ==> x in w0.pds && Undisturbed(w0.pds[x], w.pds[x], x == a || x == b))
  }

  predicate Undisturbed(pd: Pd, pd': Pd, party: bool) {
    pd'.mcAmnt == pd.mcAmnt && pd'.onHeap == pd.onHeap && (party || pd' == pd)
  }

  lemma MovedStep(pdOf: map<Comp, PdId>, a: PdId, b: PdId, moved: set<Comp>, c: Comp)
    requires c in pdOf && pdOf[c] == b && c !in moved && moved <= MembersOf(pdOf, b) && a != b
    ensures Moved(pdOf, moved, a)[c := a] == Moved(pdOf, moved + {c}, a) && Moved(pdOf, moved, a)[c] == b
    ensures MembersOf(Moved(pdOf, moved, a), b) == MembersOf(pdOf, b) - moved
    ensures Moved(pdOf, moved, a).Keys == pdOf.Keys
  {
  }

  /** A domain is freed exactly when its last component leaves. */
  lemma FreedWhenEmpty(pdOf: map<Comp, PdId>, b: PdId, pd: Pd, c: Comp)
    requires Roster(pdOf, b, pd) && c in MembersOf(pdOf, b)
    ensures LeftBy(pd, c).members == [] <==> MembersOf(pdOf, b) == {c}
  {
    WithoutElements(pd.members, c);
    assert LeftBy(pd, c).members == [] <==> Elements(Without(pd.members, c)) == {} by {
      assert Without(pd.members, c) != [] ==> Without(pd.members, c)[0] in Elements(Without(pd.members, c));
    }
  }

  /** The domains after `c` has moved from `b` to `a`. */
  function Handed(pds: map<PdId, Pd>, a: PdId, b: PdId, c: Comp, freed: bool): map<PdId, Pd>
    requires a in pds && b in pds
  {
    (if freed then pds - {b} else pds[b := LeftBy(pds[b], c)])[a := pds[a].(members := Inserted(pds[a].members, c))]
  }

  lemma MovingStep(w0: World, w: World, w': World, a: PdId, b: PdId, moved: set<Comp>, c: Comp, freed: bool)
    requires Moving(w0, w, a, b, moved) && a in w0.pds && a != b
    requires c in w0.g.pdOf && w0.g.pdOf[c] == b && c !in moved && moved <= MembersOf(w0.g.pdOf, b) && a in w.pds
    requires b in w.pds
    requires Bare(w'.g.es) == Bare(w.g.es) && w'.g.merging == w.g.merging && w'.nextPd == w.nextPd
    requires w'.g.pdOf == w.g.pdOf[c := a]
    requires freed <==> MembersOf(w0.g.pdOf, b) <= moved + {c}
    requires w'.pds == Handed(w.pds, a, b, c, freed)
    ensures Moving(w0, w', a, b, moved + {c})
  {
    MovedStep(w0.g.pdOf, a, b, moved, c);
    assert c in MembersOf(w0.g.pdOf, b);
  }

  method MoveNext(ghost w0: World, w: World, eh: Heap<PdeId>, ph: Heap<PdId>, a: PdId, b: PdId,
      ghost moved: set<Comp>, c: Comp)
    returns (w': World, freed: bool)
    requires Sound(w, eh, ph) && PlacedIn(Bare(w0.g.es), w0.g.pdOf.Keys) && Moving(w0, w, a, b, moved)
    requires a in w0.pds && b in w0.pds && a != b
    requires c in MembersOf(w0.g.pdOf, b) - moved && moved <= MembersOf(w0.g.pdOf, b)
    modifies eh, eh.data, ph, ph.data
    ensures Sound(w', eh, ph) && Moving(w0, w', a, b, moved + {c})
    ensures freed <==> MembersOf(w0.g.pdOf, b) <= moved + {c}
  {
    MovedStep(w0.g.pdOf, a, b, moved, c);
    assert Roster(w.g.pdOf, b, w.pds[b]);
    FreedWhenEmpty(w.g.pdOf, b, w.pds[b], c);
    w', freed := Move(w, eh, ph, a, c);
    MovingStep(w0, w, w', a, b, moved, c, freed);
  }

  /** The loops of __pd_merge and pd_split: the components `cs` of domain `b` move to domain `a`;
      `freed` says whether that emptied `b`. */
  method MoveAll(w: World, eh: Heap<PdeId>, ph: Heap<PdId>, a: PdId, b: PdId, cs: seq<Comp>)
    returns (w': World, freed: bool)
    requires Sound(w, eh, ph) && PlacedIn(Bare(w.g.es), w.g.pdOf.Keys) && a in w.pds && b in w.pds && a != b
    requires cs != [] && Distinct(cs) && Elements(cs) <= MembersOf(w.g.pdOf, b)
    modifies eh, eh.data, ph, ph.data
    ensures Sound(w', eh, ph) && Moving(w, w', a, b, Elements(cs))
    ensures freed <==> Elements(cs) == MembersOf(w.g.pdOf, b)
  {
    w' := w;
    freed := false;
    ghost var moved := {};
    NothingMoved(w, a, b, cs[0]);
    for k := 0 to |cs|
      invariant Sound(w', eh, ph) && Moving(w, w', a, b, moved) && Taken(cs, k, moved)
      invariant k > 0 ==> (freed <==> MembersOf(w.g.pdOf, b) <= moved)
    {
      TakeOne(cs, k, moved, MembersOf(w.g.pdOf, b));
      w', freed := MoveNext(w, w', eh, ph, a, b, moved, cs[k]);
      moved := moved + {cs[k]};
    }
    AllTaken(cs, moved, MembersOf(w.g.pdOf, b));
  }

  lemma AllTaken(cs: seq<Comp>, moved: set<Comp>, members: set<Comp>)
    requires Taken(cs, |cs|, moved) && Elements(cs) <= members
    ensures moved == Elements(cs) && (members <= moved <==> Elements(cs) == members)
  {
    assert cs[..|cs|] == cs;
  }

  lemma NothingMoved(w: World, a: PdId, b: PdId, c: Comp)
    requires c in MembersOf(w.g.pdOf, b)
    ensures Moving(w, w, a, b, {})
  {
    assert Moved(w.g.pdOf, {}, a) == w.g.pdOf;
  }
}
