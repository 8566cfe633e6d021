/** The whole of mpd_policy.h as one object: the globals, and every operation that changes them,
    from the empty graph on. */
module MpdState {
  import opened Wrappers
  import opened Graphs
  import opened Domains
  import opened Heaps
  import opened PdEdges
  import opened MinCuts
  import opened Mpd
  import opened Policy

  lemma NewComponent(g: Graph, c: Comp, b: PdId)
    requires Core(g) && Complete(g) && PlacedIn(Bare(g.es), g.pdOf.Keys) && c !in g.pdOf
    ensures Core(g.(pdOf := g.pdOf[c := b])) && Complete(g.(pdOf := g.pdOf[c := b]))
  {
    PutInKeepsCore(g, c, b);
    PlacedEdges(g.es, g.pdOf.Keys);
    assert forall i :: 0 <= i < |g.es| ==> g.es[i] in g.es;
  }

  lemma NewPlaced(bare: seq<Edge>, pdOf: map<Comp, PdId>, c: Comp, b: PdId)
    requires PlacedIn(bare, pdOf.Keys) && c !in pdOf
    ensures pdOf[c := b].Keys == pdOf.Keys + {c} && |pdOf[c := b]| == |pdOf| + 1 && PlacedIn(bare, pdOf[c := b].Keys)
  {
    assert pdOf[c := b].Keys == pdOf.Keys + {c};
  }

  lemma NewSettled(pds: map<PdId, Pd>, pds1: map<PdId, Pd>, b: PdId, c: Comp)
    requires AllSettled(pds) && b !in pds && pds1 == pds[b := Pd([], 0, [], false)]
    ensures AllSettled(pds1[b := Pd([c], 0, [], false)]) && |pds1[b := Pd([c], 0, [], false)]| == |pds1|
  {
    var pds' := pds1[b := Pd([c], 0, [], false)];
    assert pds'.Keys == pds1.Keys;
    forall x | x in pds' ensures Settled(pds'[x]) {
      assert x != b ==> Settled(pds[x]);
    }
  }

  function Alone(w: World, c: Comp, b: PdId): World {
    w.(g := w.g.(pdOf := w.g.pdOf[c := b]), pds := w.pds[b := Pd([c], 0, [], false)])
  }

  lemma AloneIsSound(w: World, hs: Hs, c: Comp, b: PdId)
    requires Base(w, hs) && c !in w.g.pdOf && b in w.pds && w.pds[b] == Pd([], 0, [], false)
    ensures Sound(Alone(w, c, b), hs.eh, hs.ph)
  {
    NewComponent(w.g, c, b);
    EnterHome(w.g.pdOf, w.pds, c, b, Pd([c], 0, [], false));
    NewAlone(w.pds, hs.ph, b, c);
    assert Alone(w, c, b).pds.Keys == w.pds.Keys;
    assert OnHeap(Alone(w, c, b).g, hs.eh);
  }

  /** Component `c` is new and alone in the new domain `b`; every other component and domain, the
      edges and the cost are as they were. */
  ghost predicate HasCreated(w: World, w': World, c: Comp, b: PdId) {
    && c !in w.g.pdOf && b !in w.pds && w'.g == w.g.(pdOf := w.g.pdOf[c := b])
    && w'.nPds == w.nPds + 1 && w'.pds.Keys == w.pds.Keys + {b} && w'.pds[b] == Pd([c], 0, [], false)
    && (forall x :: x in w.pds ==> w'.pds[x] == w.pds[x]) && MembersOf(w'.g.pdOf, b) == {c}
  }

  /** try_create_component for a new id: a component alone in a new domain. */
  method CreateComponent(w: World, hs: Hs, c: Comp) returns (w': World)
    requires Ready(w, hs) && c !in w.g.pdOf
    requires |w.g.pdOf| + 1 < hs.ph.data.Length && |w.g.pdOf| + 1 < hs.q.heap.data.Length
    ensures Ready(w', hs) && HasCreated(w, w', c, w.nextPd)
  {
    var w1, b := CreatePd(w, hs);
    AloneIsSound(w1, hs, c, b);
    NewSettled(w.pds, w1.pds, b, c);
    NewPlaced(Bare(w.g.es), w.g.pdOf, c, b);
    w' := Alone(w1, c, b);
    AloneIsCreated(w, w1, c, b);
  }

  lemma AloneIsCreated(w: World, w1: World, c: Comp, b: PdId)
    requires c !in w.g.pdOf && b !in w.pds && MembersOf(w.g.pdOf, b) == {} && w1.g == w.g && w1.nPds == w.nPds + 1
    requires w1.pds == w.pds[b := Pd([], 0, [], false)]
    ensures HasCreated(w, Alone(w1, c, b), c, b)
  {
    var m, m' := MembersOf(w.g.pdOf, b), MembersOf(Alone(w1, c, b).g.pdOf, b);
    forall d ensures d in m' <==> d == c {
      assert d in m' && d != c ==> d in m;
    }
    assert Alone(w1, c, b).pds.Keys == w.pds.Keys + {b};
  }

  lemma NewAlone(pds: map<PdId, Pd>, ph: Heap<PdId>, b: PdId, c: Comp)
    requires PdsOnHeap(pds, ph) && b in pds && !pds[b].onHeap
    ensures PdsOnHeap(pds[b := Pd([c], 0, [], false)], ph)
  {
    assert forall i :: 1 <= i < ph.e ==> ph.data[i] in ph.elems;
  }

  /** mpd_component_add_edge in the world. */
  method AddEdgeBetween(w: World, hs: Hs, from: Comp, to: Comp, weight: nat) returns (w': World)
    requires Ready(w, hs) && |w.g.es| + 1 < hs.eh.data.Length
    requires from in w.g.pdOf && to in w.g.pdOf && w.g.pdOf[from] != w.g.pdOf[to]
    requires Sum(Bare(w.g.es), Invocations()) + weight < MAX_LONG
    modifies hs.eh, hs.eh.data
    ensures Ready(w', hs) && w' == w.(g := w'.g) && w'.g.pdOf == w.g.pdOf
    ensures Bare(w'.g.es) == Bare(w.g.es) + [Edge(from, to, weight, None)]
    ensures w'.g.totCost == w.g.totCost + weight
  {
    var e := Edge(from, to, weight, None);
    SumAppend(Bare(w.g.es), e, Invocations());
    SumAppend(Bare(w.g.es), e, CrossingInv(w.g.pdOf));
    CostOfBare(w.g);
    var g' := AppendEdge(w.g, hs.eh, from, to, weight);
    CostOfBare(g');
    w' := w.(g := g');
  }

  /** edge_set_inv in the world.  Recorded cuts may go stale, nothing else does. */
  method SetInvocations(w: World, hs: Hs, i: nat, val: nat) returns (w': World)
    requires Ready(w, hs) && i < |w.g.es|
    requires Sum(Bare(w.g.es), Invocations()) - w.g.es[i].inv + val < MAX_LONG
    modifies hs.eh, hs.eh.data
    ensures Ready(w', hs) && w' == w.(g := w'.g) && w'.g.pdOf == w.g.pdOf
    ensures w'.g.es == w.g.es[i := w.g.es[i].(inv := val)]
  {
    var e := w.g.es[i].(inv := val);
    BareReplace(w.g.es, i, e);
    BareSum(w.g.es, Invocations());
    BareSum(w.g.es[i := e], Invocations());
    SumUpdate(w.g.es, Invocations(), i, e);
    PlacedReplace(w.g.es, i, e, w.g.pdOf.Keys);
    var g' := SetInv(w.g, hs.eh, i, val);
    w' := w.(g := g');
  }

  lemma PlacedReplace(es: seq<Edge>, i: nat, e: Edge, cs: set<Comp>)
    requires PlacedIn(Bare(es), cs) && i < |es| && e.from == es[i].from && e.to == es[i].to
    ensures PlacedIn(Bare(es[i := e]), cs)
  {
    BareReplace(es, i, e);
    BareAt(es);
  }

  /** What holds in every state the operations reach: `tot_cost` is the sum of invocations on edges
      between domains, an edge has a master exactly when it crosses, each pair of domains has at
      most one pd-edge, and a pd-edge's weight and count are those of the edges between its ends. */
  lemma Consistent(w: World, hs: Hs)
    requires Ready(w, hs)
    ensures w.g.totCost == CrossingCost(w.g.es, w.g.pdOf)
    ensures forall i :: 0 <= i < |w.g.es| ==> (w.g.es[i].master.Some? <==> Crosses(w.g.pdOf, w.g.es[i]))
    ensures forall p, r :: p in w.g.pdes && r in w.g.pdes && p != r ==>
      !Links(w.g.pdes[p], w.g.pdes[r].from, w.g.pdes[r].to)
    ensures forall p :: p in w.g.pdes ==> ExactPdEdge(w.g, p)
  {
    CostIsCrossing(w.g);
    forall i | 0 <= i < |w.g.es| ensures w.g.es[i].master.Some? <==> Crosses(w.g.pdOf, w.g.es[i]) {
      assert MasterOk(w.g.pdOf, w.g.pdes, w.g.es[i]);
    }
    forall p, r | p in w.g.pdes && r in w.g.pdes && p != r
      ensures !Links(w.g.pdes[p], w.g.pdes[r].from, w.g.pdes[r].to)
    {
      assert Apart(w.g.pdes, p, r);
    }
    forall p | p in w.g.pdes ensures ExactPdEdge(w.g, p) {
      PdEdgeEnds(w.g, p);
      PdEdgeWeight(w.g, p);
      assert TallyOk(w.g.es, p, w.g.pdes[p]);
    }
  }

  ghost predicate ExactPdEdge(g: Graph, p: PdeId)
    requires p in g.pdes
  {
    var a, b := MembersOf(g.pdOf, g.pdes[p].from), MembersOf(g.pdOf, g.pdes[p].to);
    && g.pdes[p].from != g.pdes[p].to && g.pdes[p].weight == Between(g.es, a, b)
    && g.pdes[p].nedges == Sum(g.es, CountOf(p)) && g.pdes[p].nedges > 0
  }

  lemma EmptyWorld(w: World)
    requires w == World(Graph([], map[], map[], 0, 0, None), map[], 0, 0)
    ensures Core(w.g) && Used(w.g) && Listed(w.g) && Complete(w.g) && Homes(w.g.pdOf, w.pds) && AllSettled(w.pds)
    ensures Bare(w.g.es) == [] && Sum(Bare(w.g.es), Invocations()) == 0 && PlacedIn(Bare(w.g.es), w.g.pdOf.Keys)
  {
  }

  /** Three heaps that are valid, empty and apart, and a world without components. */
  lemma EmptyReady(w: World, hs: Hs)
    requires w == World(Graph([], map[], map[], 0, 0, None), map[], 0, 0) && Separate(hs)
    requires hs.eh.Valid() && hs.ph.Valid() && hs.q.heap.Valid()
    requires hs.eh.elems == {} && hs.ph.elems == {} && hs.eh.e == hs.ph.e == hs.q.heap.e == 1
    ensures Ready(w, hs)
  {
    EmptyWorld(w);
  }

  /** The globals of mpd_policy.h.  Every operation starts and ends in a valid state. */
  class Manager {
    const hs: Hs
    var w: World
    var totInv: int

    ghost predicate Valid()
      reads this, hs.eh, hs.eh.data, hs.ph, hs.ph.data, hs.q.heap, hs.q.heap.data
    {
      Ready(w, hs) && totInv == Sum(Bare(w.g.es), Invocations())
    }

    /** mpd_pol_init */
    constructor (maxComponents: nat)
      ensures Valid() && w.g.es == [] && w.g.pdOf == map[] && w.nPds == 0
      ensures fresh(hs.eh) && fresh(hs.eh.data) && fresh(hs.ph) && fresh(hs.ph.data)
      ensures fresh(hs.q) && fresh(hs.q.heap) && fresh(hs.q.heap.data)
      ensures hs.eh.data.Length == hs.ph.data.Length == hs.q.heap.data.Length == maxComponents + 1
    {
      var eh := new Heap<PdeId>(maxComponents, 0);
      var ph := new Heap<PdId>(maxComponents, 0);
      var q := new PhaseQueue(maxComponents);
      var heaps := Hs(eh, ph, q);
      var empty := World(Graph([], map[], map[], 0, 0, None), map[], 0, 0);
      EmptyReady(empty, heaps);
      EmptyWorld(empty);
      hs, w, totInv := heaps, empty, 0;
    }

    /** try_create_component: an id that is known changes nothing. */
    method TryCreateComponent(id: Comp)
      requires Valid() && |w.g.pdOf| + 1 < hs.ph.data.Length && |w.g.pdOf| + 1 < hs.q.heap.data.Length
      modifies this`w
      ensures Valid()
      ensures if id in old(w.g.pdOf) then w == old(w) else HasCreated(old(w), w, id, old(w.nextPd))
    {
      if id !in w.g.pdOf {
        w := CreateComponent(w, hs, id);
      }
    }

    method AddEdge(from: Comp, to: Comp, weight: nat)
      requires Valid() && |w.g.es| + 1 < hs.eh.data.Length && totInv + weight < MAX_LONG
      requires from in w.g.pdOf && to in w.g.pdOf && w.g.pdOf[from] != w.g.pdOf[to]
      modifies this, hs.eh, hs.eh.data
      ensures Valid() && Bare(w.g.es) == old(Bare(w.g.es)) + [Edge(from, to, weight, None)]
      ensures w.g.pdOf == old(w.g.pdOf) && w.g.totCost == old(w.g.totCost) + weight
    {
      SumAppend(Bare(w.g.es), Edge(from, to, weight, None), Invocations());
      w := AddEdgeBetween(w, hs, from, to, weight);
      totInv := totInv + weight;
    }

    method EdgeSetInv(i: nat, val: nat)
      requires Valid() && i < |w.g.es| && totInv - w.g.es[i].inv + val < MAX_LONG
      modifies this, hs.eh, hs.eh.data
      ensures Valid() && w.g.es == old(w.g.es)[i := old(w.g.es)[i].(inv := val)] && w.g.pdOf == old(w.g.pdOf)
    {
      var prev := w.g.es[i].inv;
      InvocationsReplaced(w.g.es, i, val);
      w := SetInvocations(w, hs, i, val);
      totInv := totInv + (val - prev);
    }

    /** remove_overhead_to_limit ends within any budget that can be met at all. */
    method RemoveToLimit(limit: int)
      requires Valid()
      modifies this, hs.eh, hs.eh.data, hs.ph, hs.ph.data, hs.q, hs.q.heap, hs.q.heap.data
      ensures Valid() && w.g.pdOf.Keys == old(w.g.pdOf.Keys) && Bare(w.g.es) == old(Bare(w.g.es))
      ensures MergedDown(old(w), w, limit)
      ensures w.g.totCost <= limit <==> limit >= 0
      ensures limit < 0 ==> w.g.totCost == 0 && w.g.pdes == map[]
    {
      w := RemoveOverheadToLimit(w, hs, limit);
    }

    /** customize_overhead_to_limit up to its third loop. */
    method CustomizeToLimit(allowed: int)
      requires Valid()
      modifies this, hs.eh, hs.eh.data, hs.ph, hs.ph.data, hs.q, hs.q.heap, hs.q.heap.data
      ensures Valid() && w.g.pdOf.Keys == old(w.g.pdOf.Keys) && Bare(w.g.es) == old(Bare(w.g.es))
      ensures Customized(old(w), w, allowed)
      ensures w.g.totCost <= allowed <==> allowed >= 0
      ensures NoAffordableSplit(w, allowed)
    {
      w := CustomizeOverheadToLimit(w, hs, allowed);
    }

    /** remove_one_isolation_boundary: 1 when there is no boundary left to remove; otherwise the
        cost drops by the weight of the heaviest pd-edge, `p`. */
    method RemoveOneBoundary() returns (ret: int, ghost p: PdeId)
      requires Valid()
      modifies this, hs.eh, hs.eh.data, hs.ph, hs.ph.data, hs.q, hs.q.heap, hs.q.heap.data
      ensures Valid() && w.g.pdOf.Keys == old(w.g.pdOf.Keys) && Bare(w.g.es) == old(Bare(w.g.es))
      ensures ret == 1 ==> w == old(w) && w.g.totCost == 0
      ensures ret != 1 ==>
        && ret == 0 && p in old(w.g.pdes) && Cheaper(old(w), w, p)
        && forall r :: r in old(w.g.pdes) ==> old(w.g.pdes)[r].weight <= old(w.g.pdes)[p].weight
    {
      if hs.eh.e == 1 {
        NothingCrosses(w, hs);
        return 1, 0;
      }
      var next, heaviest := DecreaseOverhead(w, hs);
      w := next;
      return 0, heaviest;
    }
  }

  lemma InvocationsReplaced(es: seq<Edge>, i: nat, val: nat)
    requires i < |es|
    ensures Sum(Bare(es[i := es[i].(inv := val)]), Invocations()) == Sum(Bare(es), Invocations()) - es[i].inv + val
  {
    BareSum(es, Invocations());
    BareSum(es[i := es[i].(inv := val)], Invocations());
    SumUpdate(es, Invocations(), i, es[i].(inv := val));
  }
}
