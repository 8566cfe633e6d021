/** Protection domains and the edges between them (mpd_policy.h): which component is in which
    domain, one pd-edge per pair of joined domains, and the running `tot_cost`.

    A `struct pd_edge` is a record under its id; an edge is a position in `es`; `pdOf` leaves out
    a component whose `pd` pointer is NULL. */
module Domains {
  import opened Wrappers
  import opened Graphs

  datatype PdEdge = PdEdge(from: PdId, to: PdId, weight: int, nedges: int, onHeap: bool)

  /** `merging` names the two domains whose pd-edge has been taken off the heap to merge them. */
  datatype Graph = Graph(es: seq<Edge>, pdOf: map<Comp, PdId>, pdes: map<PdeId, PdEdge>, nextPde: nat, totCost: int,
                         merging: Option<(PdId, PdId)>)

  function OfMaster(p: PdeId): Edge -> int {
    (e: Edge) => if e.master == Some(p) then e.inv else 0
  }

  function CountOf(p: PdeId): Edge -> int {
    (e: Edge) => if e.master == Some(p) then 1 else 0
  }

  function Mastered(): Edge -> int {
    (e: Edge) => if e.master.Some? then e.inv else 0
  }

  predicate Crosses(pdOf: map<Comp, PdId>, e: Edge) {
    e.from in pdOf && e.to in pdOf && pdOf[e.from] != pdOf[e.to]
  }

  function CrossingInv(pdOf: map<Comp, PdId>): Edge -> int {
    (e: Edge) => if Crosses(pdOf, e) then e.inv else 0
  }

  /** The cost of a placement: invocations on edges whose ends are in different domains. */
  function CrossingCost(es: seq<Edge>, pdOf: map<Comp, PdId>): int {
    Sum(es, CrossingInv(pdOf))
  }

  predicate Links(pe: PdEdge, a: PdId, b: PdId) {
    (pe.from == a && pe.to == b) || (pe.from == b && pe.to == a)
  }

  /** An edge's master, if any, is the pd-edge between the domains of its two ends. */
  ghost predicate MasterOk(pdOf: map<Comp, PdId>, pdes: map<PdeId, PdEdge>, e: Edge) {
    e.master.Some? ==>
      && Crosses(pdOf, e) && e.master.value in pdes
      && Links(pdes[e.master.value], pdOf[e.from], pdOf[e.to])
  }

  /** The cached weight and count of a pd-edge are those of the edges it is master of. */
  ghost predicate TallyOk(es: seq<Edge>, p: PdeId, pe: PdEdge) {
    pe.weight == Sum(es, OfMaster(p)) && pe.nedges == Sum(es, CountOf(p))
  }

  ghost predicate Apart(pdes: map<PdeId, PdEdge>, p: PdeId, q: PdeId)
    requires p in pdes && q in pdes
  {
    !Links(pdes[p], pdes[q].from, pdes[q].to)
  }

  ghost predicate MastersOk(g: Graph) {
    forall i {:trigger MasterOk(g.pdOf, g.pdes, g.es[i])} :: 0 <= i < |g.es| ==> MasterOk(g.pdOf, g.pdes, g.es[i])
  }

  ghost predicate Tallies(g: Graph) {
    forall p {:trigger TallyOk(g.es, p, g.pdes[p])} :: p in g.pdes ==> TallyOk(g.es, p, g.pdes[p])
  }

  /** At most one pd-edge per unordered pair of domains. */
  ghost predicate OnePerPair(g: Graph) {
    forall p, q {:trigger Apart(g.pdes, p, q)} :: p in g.pdes && q in g.pdes && p != q ==> Apart(g.pdes, p, q)
  }

  /** What every step keeps, even in the middle of moving a component. */
  ghost predicate Core(g: Graph) {
    MastersOk(g) && Tallies(g) && OnePerPair(g) && g.totCost == Sum(g.es, Mastered())
  }

  /** Every edge between two domains has a master: holds whenever no component is being moved. */
  ghost predicate Complete(g: Graph) {
    forall i :: 0 <= i < |g.es| && Crosses(g.pdOf, g.es[i]) ==> g.es[i].master.Some?
  }

  /** `tot_cost` is the cost of the current placement. */
  lemma CostIsCrossing(g: Graph)
    requires Core(g) && Complete(g)
    ensures g.totCost == CrossingCost(g.es, g.pdOf)
  {
    forall e | e in g.es ensures Mastered()(e) == CrossingInv(g.pdOf)(e) {
      var i :| 0 <= i < |g.es| && g.es[i] == e;
      assert MasterOk(g.pdOf, g.pdes, g.es[i]);
    }
    SumEq(g.es, Mastered(), CrossingInv(g.pdOf));
  }

  // One step of the cached bookkeeping each

  function Attached(g: Graph, i: nat, p: PdeId): Graph
    requires i < |g.es| && p in g.pdes
  {
    var e, pe := g.es[i], g.pdes[p];
    g.(es := g.es[i := e.(master := Some(p))],
       pdes := g.pdes[p := pe.(weight := pe.weight + e.inv, nedges := pe.nedges + 1)],
       totCost := g.totCost + e.inv)
  }

  lemma AttachKeepsCore(g: Graph, i: nat, p: PdeId)
    requires Core(g) && i < |g.es| && p in g.pdes && g.es[i].master.None?
    requires Crosses(g.pdOf, g.es[i]) && Links(g.pdes[p], g.pdOf[g.es[i].from], g.pdOf[g.es[i].to])
    ensures Core(Attached(g, i, p))
  {
    var g', e' := Attached(g, i, p), g.es[i].(master := Some(p));
    forall j | 0 <= j < |g'.es| ensures MasterOk(g'.pdOf, g'.pdes, g'.es[j]) {
      assert MasterOk(g.pdOf, g.pdes, g.es[j]);
    }
    SumUpdate(g.es, Mastered(), i, e');
    forall q | q in g'.pdes ensures TallyOk(g'.es, q, g'.pdes[q]) {
      SumUpdate(g.es, OfMaster(q), i, e');
      SumUpdate(g.es, CountOf(q), i, e');
      assert TallyOk(g.es, q, g.pdes[q]);
    }
    forall r, q | r in g'.pdes && q in g'.pdes && r != q ensures Apart(g'.pdes, r, q) {
      assert Apart(g.pdes, r, q);
    }
  }

  function Detached(g: Graph, i: nat): Graph
    requires i < |g.es| && g.es[i].master.Some? && g.es[i].master.value in g.pdes
  {
    var e, p := g.es[i], g.es[i].master.value;
    var pe := g.pdes[p];
    g.(es := g.es[i := e.(master := None)],
       pdes := g.pdes[p := pe.(weight := pe.weight - e.inv, nedges := pe.nedges - 1)],
       totCost := g.totCost - e.inv)
  }

  lemma DetachKeepsCore(g: Graph, i: nat)
    requires Core(g) && i < |g.es| && g.es[i].master.Some? && g.es[i].master.value in g.pdes
    ensures Core(Detached(g, i))
  {
    var g', e' := Detached(g, i), g.es[i].(master := None);
    forall j | 0 <= j < |g'.es| ensures MasterOk(g'.pdOf, g'.pdes, g'.es[j]) {
      assert MasterOk(g.pdOf, g.pdes, g.es[j]);
    }
    SumUpdate(g.es, Mastered(), i, e');
    forall q | q in g'.pdes ensures TallyOk(g'.es, q, g'.pdes[q]) {
      SumUpdate(g.es, OfMaster(q), i, e');
      SumUpdate(g.es, CountOf(q), i, e');
      assert TallyOk(g.es, q, g.pdes[q]);
    }
    forall r, q | r in g'.pdes && q in g'.pdes && r != q ensures Apart(g'.pdes, r, q) {
      assert Apart(g.pdes, r, q);
    }
  }

  /** A pd-edge that counts no edges is nobody's master and weighs nothing. */
  lemma EmptyTally(es: seq<Edge>, p: PdeId)
    ensures 0 <= Sum(es, CountOf(p))
    ensures Sum(es, CountOf(p)) == 0 ==> Sum(es, OfMaster(p)) == 0 && forall e :: e in es ==> e.master != Some(p)
    ensures (forall e :: e in es ==> e.master != Some(p)) ==> Sum(es, CountOf(p)) == 0
  {
    if es != [] {
      assert es == [es[0]] + es[1..];
      EmptyTally(es[1..], p);
    }
  }

  lemma FreeKeepsCore(g: Graph, p: PdeId)
    requires Core(g) && p in g.pdes && g.pdes[p].nedges == 0
    ensures Core(g.(pdes := g.pdes - {p})) && g.pdes[p].weight == 0
  {
    var g' := g.(pdes := g.pdes - {p});
    assert TallyOk(g.es, p, g.pdes[p]);
    EmptyTally(g.es, p);
    forall i | 0 <= i < |g'.es| ensures MasterOk(g'.pdOf, g'.pdes, g'.es[i]) {
      assert g'.es[i] in g.es && MasterOk(g.pdOf, g.pdes, g.es[i]);
    }
    forall q | q in g'.pdes ensures TallyOk(g'.es, q, g'.pdes[q]) {
      assert TallyOk(g.es, q, g.pdes[q]);
    }
    forall r, q | r in g'.pdes && q in g'.pdes && r != q ensures Apart(g'.pdes, r, q) {
      assert Apart(g.pdes, r, q);
    }
  }

  lemma CreateKeepsCore(g: Graph, p: PdeId, a: PdId, b: PdId)
    requires Core(g) && p !in g.pdes && forall q :: q in g.pdes ==> !Links(g.pdes[q], a, b)
    ensures Core(g.(pdes := g.pdes[p := PdEdge(a, b, 0, 0, true)]))
  {
    var g' := g.(pdes := g.pdes[p := PdEdge(a, b, 0, 0, true)]);
    forall i | 0 <= i < |g.es| ensures MasterOk(g'.pdOf, g'.pdes, g'.es[i]) && g.es[i].master != Some(p) {
      assert MasterOk(g.pdOf, g.pdes, g.es[i]);
    }
    EmptyTally(g.es, p);
    forall q | q in g'.pdes ensures TallyOk(g'.es, q, g'.pdes[q]) {
      assert q != p ==> TallyOk(g.es, q, g.pdes[q]);
    }
    forall r, q | r in g'.pdes && q in g'.pdes && r != q ensures Apart(g'.pdes, r, q) {
      assert r != p && q != p ==> Apart(g.pdes, r, q);
    }
  }

  /** No edge of `c` has a master. */
  predicate Loose(es: seq<Edge>, c: Comp) {
    forall i :: 0 <= i < |es| && (es[i].from == c || es[i].to == c) ==> es[i].master.None?
  }

  /** Every crossing edge has a master, except perhaps the edges of `c`. */
  ghost predicate CompleteApartFrom(g: Graph, c: Comp) {
    forall i :: 0 <= i < |g.es| && Crosses(g.pdOf, g.es[i]) && g.es[i].from != c && g.es[i].to != c ==>
      g.es[i].master.Some?
  }

  lemma TakeOutKeepsCore(g: Graph, c: Comp)
    requires Core(g) && CompleteApartFrom(g, c) && Loose(g.es, c)
    ensures Core(g.(pdOf := g.pdOf - {c})) && Complete(g.(pdOf := g.pdOf - {c}))
  {
    var g' := g.(pdOf := g.pdOf - {c});
    forall i | 0 <= i < |g.es| ensures MasterOk(g'.pdOf, g'.pdes, g'.es[i]) {
      assert MasterOk(g.pdOf, g.pdes, g.es[i]);
    }
    assert Tallies(g') && OnePerPair(g');
  }

  lemma PutInKeepsCore(g: Graph, c: Comp, pd: PdId)
    requires Core(g) && Complete(g) && c !in g.pdOf
    ensures Core(g.(pdOf := g.pdOf[c := pd])) && Loose(g.es, c) && CompleteApartFrom(g.(pdOf := g.pdOf[c := pd]), c)
  {
    var g' := g.(pdOf := g.pdOf[c := pd]);
    forall i | 0 <= i < |g.es|
      ensures MasterOk(g'.pdOf, g'.pdes, g'.es[i])
      ensures g.es[i].from == c || g.es[i].to == c ==> g.es[i].master.None?
    {
      assert MasterOk(g.pdOf, g.pdes, g.es[i]);
    }
    assert Tallies(g') && OnePerPair(g');
  }

  function WithInv(g: Graph, i: nat, val: nat): Graph
    requires i < |g.es| && (g.es[i].master.Some? ==> g.es[i].master.value in g.pdes)
  {
    var e := g.es[i];
    var g' := g.(es := g.es[i := e.(inv := val)]);
    if e.master.None? then g' else
      var pe := g.pdes[e.master.value];
      g'.(pdes := g.pdes[e.master.value := pe.(weight := pe.weight + (val - e.inv))],
          totCost := g.totCost + (val - e.inv))
  }

  lemma SetInvKeepsCore(g: Graph, i: nat, val: nat)
    requires Core(g) && i < |g.es| && (g.es[i].master.Some? ==> g.es[i].master.value in g.pdes)
    ensures Core(WithInv(g, i, val)) && (Complete(g) ==> Complete(WithInv(g, i, val)))
  {
    var g', e' := WithInv(g, i, val), g.es[i].(inv := val);
    SumUpdate(g.es, Mastered(), i, e');
    forall q | q in g'.pdes ensures TallyOk(g'.es, q, g'.pdes[q]) {
      SumUpdate(g.es, OfMaster(q), i, e');
      SumUpdate(g.es, CountOf(q), i, e');
      assert TallyOk(g.es, q, g.pdes[q]);
    }
    forall r, q | r in g'.pdes && q in g'.pdes && r != q ensures Apart(g'.pdes, r, q) {
      assert Apart(g.pdes, r, q);
    }
    forall j | 0 <= j < |g'.es| ensures MasterOk(g'.pdOf, g'.pdes, g'.es[j]) {
      assert MasterOk(g.pdOf, g.pdes, g.es[j]);
    }
  }

  /** Every pd-edge is on the heap, except the one between domains being merged. */
  ghost predicate Listed(g: Graph) {
    forall p {:trigger g.pdes[p]} :: p in g.pdes ==>
      g.pdes[p].onHeap || (g.merging.Some? && Links(g.pdes[p], g.merging.value.0, g.merging.value.1))
  }

  lemma AppendKeepsCore(g: Graph, e: Edge)
    requires Core(g) && e.master.None?
    ensures Core(g.(es := g.es + [e]))
  {
    var g' := g.(es := g.es + [e]);
    SumAppend(g.es, e, Mastered());
    forall j | 0 <= j < |g'.es| ensures MasterOk(g'.pdOf, g'.pdes, g'.es[j]) {
      assert j < |g.es| ==> MasterOk(g.pdOf, g.pdes, g.es[j]);
    }
    forall q | q in g'.pdes ensures TallyOk(g'.es, q, g'.pdes[q]) {
      SumAppend(g.es, e, OfMaster(q));
      SumAppend(g.es, e, CountOf(q));
      assert TallyOk(g.es, q, g.pdes[q]);
    }
    assert OnePerPair(g');
  }

  // How many pd-edges there can be

  ghost predicate Used(g: Graph) {
    forall p {:trigger g.pdes[p]} :: p in g.pdes ==> g.pdes[p].nedges > 0
  }

  function Owners(es: seq<Edge>): set<PdeId> {
    set i | 0 <= i < |es| && es[i].master.Some? :: es[i].master.value
  }

  lemma {:induction false} OwnersBound(es: seq<Edge>)
    ensures |Owners(es)| <= |es|
    ensures (exists e :: e in es && e.master.None?) ==> |Owners(es)| < |es|
  {
    if es == [] {
      assert Owners(es) == {};
    } else {
      OwnersBound(es[1..]);
      var first := if es[0].master.Some? then {es[0].master.value} else {};
      assert Owners(es) == first + Owners(es[1..]) by {
        forall p | p in Owners(es) ensures p in first + Owners(es[1..]) {
          var i :| 0 <= i < |es| && es[i].master == Some(p);
          assert i > 0 ==> es[1..][i - 1] == es[i];
        }
        forall p | p in Owners(es[1..]) ensures p in Owners(es) {
          var i :| 0 <= i < |es[1..]| && es[1..][i].master == Some(p);
          assert es[i + 1] == es[1..][i];
        }
      }
    }
  }

  /** There are never more pd-edges than edges, and fewer while some edge has no master. */
  lemma PdEdgesBound(g: Graph)
    requires Core(g) && Used(g)
    ensures |g.pdes.Keys| <= |g.es|
    ensures (exists e :: e in g.es && e.master.None?) ==> |g.pdes.Keys| < |g.es|
  {
    forall p | p in g.pdes ensures p in Owners(g.es) {
      assert TallyOk(g.es, p, g.pdes[p]);
      EmptyTally(g.es, p);
    }
    OwnersBound(g.es);
    SubsetSize(g.pdes.Keys, Owners(g.es));
  }

  lemma SubsetSize(a: set<PdeId>, b: set<PdeId>)
    requires a <= b
    ensures |a| <= |b|
  {
    assert b == a + (b - a);
  }

  // The graph without its bookkeeping

  function Bare(es: seq<Edge>): seq<Edge> {
    if es == [] then [] else [es[0].(master := None)] + Bare(es[1..])
  }

  lemma BareUpdate(es: seq<Edge>, i: nat, m: Option<PdeId>)
    requires i < |es|
    ensures Bare(es[i := es[i].(master := m)]) == Bare(es)
  {
    if i > 0 {
      assert es[i := es[i].(master := m)][1..] == es[1..][i - 1 := es[1..][i - 1].(master := m)];
      BareUpdate(es[1..], i - 1, m);
    }
  }

  lemma BareAppend(es: seq<Edge>, e: Edge)
    ensures Bare(es + [e]) == Bare(es) + [e.(master := None)]
  {
    if es == [] {
      assert es + [e] == [e];
    } else {
      assert (es + [e])[1..] == es[1..] + [e];
      BareAppend(es[1..], e);
    }
  }

  lemma BareReplace(es: seq<Edge>, i: nat, e: Edge)
    requires i < |es|
    ensures |Bare(es)| == |es| && Bare(es[i := e]) == Bare(es)[i := e.(master := None)]
  {
    BareAt(es);
    BareAt(es[i := e]);
  }

  lemma {:induction false} BareSum(es: seq<Edge>, f: Edge -> int)
    requires forall e :: f(e) == f(e.(master := None))
    ensures Sum(Bare(es), f) == Sum(es, f)
  {
    if es != [] {
      BareSum(es[1..], f);
      assert Bare(es)[1..] == Bare(es[1..]);
    }
  }

  lemma {:induction false} BareAt(es: seq<Edge>)
    ensures |Bare(es)| == |es| && forall i :: 0 <= i < |es| ==> Bare(es)[i] == es[i].(master := None)
  {
    if es != [] {
      BareAt(es[1..]);
    }
  }

  /** Every component named by an edge is among `cs`. */
  ghost predicate PlacedIn(bare: seq<Edge>, cs: set<Comp>) {
    forall i :: 0 <= i < |bare| ==> bare[i].from in cs && bare[i].to in cs
  }

  lemma PlacedEdges(es: seq<Edge>, cs: set<Comp>)
    requires PlacedIn(Bare(es), cs)
    ensures forall e :: e in es ==> e.from in cs && e.to in cs
  {
    BareAt(es);
    forall e | e in es ensures e.from in cs && e.to in cs {
      var i :| 0 <= i < |es| && es[i] == e;
      assert Bare(es)[i] == e.(master := None);
    }
  }

  // Deltas: what merging and splitting do to the cost of a placement

  function MembersOf(pdOf: map<Comp, PdId>, pd: PdId): set<Comp> {
    set c | c in pdOf && pdOf[c] == pd
  }

  function Moved(pdOf: map<Comp, PdId>, s: set<Comp>, pd: PdId): map<Comp, PdId> {
    map c | c in pdOf :: if c in s then pd else pdOf[c]
  }

  /** In a complete graph the pd-edge between two domains weighs what lies between their members. */
  lemma PdEdgeWeight(g: Graph, p: PdeId)
    requires Core(g) && Complete(g) && p in g.pdes && g.pdes[p].from != g.pdes[p].to
    ensures g.pdes[p].weight == Between(g.es, MembersOf(g.pdOf, g.pdes[p].from), MembersOf(g.pdOf, g.pdes[p].to))
  {
    var a, b := MembersOf(g.pdOf, g.pdes[p].from), MembersOf(g.pdOf, g.pdes[p].to);
    assert TallyOk(g.es, p, g.pdes[p]);
    forall e | e in g.es ensures OfMaster(p)(e) == Joining(a, b)(e) {
      var i :| 0 <= i < |g.es| && g.es[i] == e;
      assert MasterOk(g.pdOf, g.pdes, g.es[i]);
      if Joins(e, a, b) {
        var q := e.master.value;
        assert q != p ==> Apart(g.pdes, q, p);
      }
    }
    SumEq(g.es, OfMaster(p), Joining(a, b));
  }

  /** Emptying domain `b` into domain `a` saves exactly the weight between them. */
  lemma MergeDelta(es: seq<Edge>, pdOf: map<Comp, PdId>, a: PdId, b: PdId)
    requires a != b
    ensures CrossingCost(es, Moved(pdOf, MembersOf(pdOf, b), a)) ==
            CrossingCost(es, pdOf) - Between(es, MembersOf(pdOf, a), MembersOf(pdOf, b))
  {
    SumAdd(es, CrossingInv(Moved(pdOf, MembersOf(pdOf, b), a)), Joining(MembersOf(pdOf, a), MembersOf(pdOf, b)),
           CrossingInv(pdOf));
  }

  /** Moving a part of domain `a` to an empty domain costs exactly the cut around that part. */
  lemma SplitDelta(es: seq<Edge>, pdOf: map<Comp, PdId>, a: PdId, s: set<Comp>, pdNew: PdId)
    requires s <= MembersOf(pdOf, a) && MembersOf(pdOf, pdNew) == {} && a != pdNew
    ensures CrossingCost(es, Moved(pdOf, s, pdNew)) == CrossingCost(es, pdOf) + Cut(es, MembersOf(pdOf, a), s)
  {
    var m := MembersOf(pdOf, a);
    forall e | e in es ensures CrossingInv(Moved(pdOf, s, pdNew))(e) == CrossingInv(pdOf)(e) + Joining(s, m - s)(e) {
      assert forall c :: c in pdOf ==>
        (c in m <==> pdOf[c] == a) && (pdOf[c] == pdNew <==> c in MembersOf(pdOf, pdNew));
    }
    SumAdd(es, CrossingInv(pdOf), Joining(s, m - s), CrossingInv(Moved(pdOf, s, pdNew)));
  }
}
