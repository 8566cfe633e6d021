/** The operations of mpd_policy.h that keep the pd-edges, `tot_cost` and the pd-edge heap in step
    with the graph: pd_edge_set_weight, edge_set_inv, pd_find_edge, pd_add_edge, pd_remove_pd_edge
    and the edge loops of pd_rem_component and pd_add_component. */
module PdEdges {
  import opened Wrappers
  import opened Graphs
  import opened Domains
  import opened Heaps

  function WeightOf(pdes: map<PdeId, PdEdge>, p: PdeId): int {
    if p in pdes then pdes[p].weight else 0
  }

  /** The comparator pde_cmp over the current weights. */
  function HeavierEdge(pdes: map<PdeId, PdEdge>): (PdeId, PdeId) -> bool {
    (a: PdeId, b: PdeId) => WeightOf(pdes, a) >= WeightOf(pdes, b)
  }

  lemma HeavierEdgeIsPreorder(pdes: map<PdeId, PdEdge>)
    ensures TotalPreorder(HeavierEdge(pdes))
  {
  }

  /** The heap holds exactly the pd-edges marked as being on it, ordered by weight. */
  ghost predicate OnHeap(g: Graph, h: Heap<PdeId>)
    reads h, h.data
  {
    && h.ValidFor(HeavierEdge(g.pdes))
    && (forall p :: p in h.elems <==> p in g.pdes && g.pdes[p].onHeap)
  }

  /** Everything the edge-level operations keep.  `h.data` has room for one entry per edge. */
  ghost predicate Books(g: Graph, h: Heap<PdeId>)
    reads h, h.data
  {
    && Core(g) && Used(g) && Listed(g) && OnHeap(g, h) && |g.es| < h.data.Length
    && (forall p :: p in g.pdes ==> p < g.nextPde)
  }

  lemma SameWeights(g: Graph, g': Graph, h: Heap<PdeId>)
    requires OnHeap(g, h) && g.pdes.Keys == g'.pdes.Keys
    requires forall p :: p in g.pdes ==> g'.pdes[p].weight == g.pdes[p].weight && g'.pdes[p].onHeap == g.pdes[p].onHeap
    ensures OnHeap(g', h)
  {
  }

  /** pd_edge_set_weight */
  method SetWeight(g: Graph, h: Heap<PdeId>, p: PdeId, val: int) returns (g': Graph)
    requires OnHeap(g, h) && p in g.pdes
    modifies h`idx, h.data
    ensures g' == g.(totCost := g.totCost + (val - g.pdes[p].weight), pdes := g.pdes[p := g.pdes[p].(weight := val)])
    ensures OnHeap(g', h)
  {
    g' := g.(totCost := g.totCost + (val - g.pdes[p].weight), pdes := g.pdes[p := g.pdes[p].(weight := val)]);
    if g.pdes[p].onHeap {
      assert p in h.elems;
      HeavierEdgeIsPreorder(g.pdes);
      HeavierEdgeIsPreorder(g'.pdes);
      KeyChange(h.data[..h.e], h.idx[p], HeavierEdge(g.pdes), HeavierEdge(g'.pdes));
      h.Adjust(h.idx[p], HeavierEdge(g'.pdes));
    } else {
      assert forall i :: 1 <= i < h.e ==> h.data[i] in h.elems;
      assert Ordered(h.data[..h.e], HeavierEdge(g'.pdes));
    }
  }

  /** edge_set_inv: the invocation count of one edge changes, and with it the weight of its
      pd-edge and `tot_cost`. */
  method SetInv(g: Graph, h: Heap<PdeId>, i: nat, val: nat) returns (g': Graph)
    requires Books(g, h) && i < |g.es|
    modifies h`idx, h.data
    ensures Books(g', h) && g'.es == g.es[i := g.es[i].(inv := val)] && g'.pdOf == g.pdOf && g'.merging == g.merging
    ensures Complete(g) ==> Complete(g')
  {
    var e := g.es[i];
    assert MasterOk(g.pdOf, g.pdes, e);
    SetInvKeepsCore(g, i, val);
    g' := g.(es := g.es[i := e.(inv := val)]);
    if e.master.Some? {
      var pdPrev := g.pdes[e.master.value].weight;
      g' := SetWeight(g', h, e.master.value, pdPrev + (val - e.inv));
    }
  }

  /** pd_edge_create: there is room on the heap because some edge has no master yet. */
  method CreatePdEdge(g: Graph, h: Heap<PdeId>, a: PdId, b: PdId) returns (g': Graph, p: PdeId)
    requires Books(g, h) && exists e :: e in g.es && e.master.None?
    modifies h, h.data
    ensures g' == g.(pdes := g.pdes[p := PdEdge(a, b, 0, 0, true)], nextPde := p + 1) && p == g.nextPde
    ensures OnHeap(g', h)
  {
    p := g.nextPde;
    g' := g.(pdes := g.pdes[p := PdEdge(a, b, 0, 0, true)], nextPde := p + 1);
    PdEdgesBound(g);
    h.Size();
    SubsetSize(h.elems, g.pdes.Keys);
    HeavierEdgeIsPreorder(g'.pdes);
    assert Ordered(h.data[..h.e], HeavierEdge(g'.pdes)) by {
      assert forall i :: 1 <= i < h.e ==> h.data[i] in h.elems;
    }
    var ok := h.Add(p, HeavierEdge(g'.pdes));
  }

  /** The two domains had no pd-edge, and an empty one is all that is new. */
  ghost predicate Made(g: Graph, g': Graph, a: PdId, b: PdId) {
    && (forall q :: q in g.pdes ==> !Links(g.pdes[q], a, b))
    && g' == g.(pdes := g.pdes[g.nextPde := PdEdge(a, b, 0, 0, true)], nextPde := g.nextPde + 1)
  }

  /** pd_find_edge: the one pd-edge between two domains, made if there is none. */
  method FindEdge(g: Graph, h: Heap<PdeId>, a: PdId, b: PdId) returns (g': Graph, p: PdeId)
    requires Books(g, h) && exists e :: e in g.es && e.master.None?
    modifies h, h.data
    ensures Core(g') && Listed(g') && OnHeap(g', h) && p in g'.pdes && Links(g'.pdes[p], a, b)
    ensures g'.es == g.es && g'.pdOf == g.pdOf && g'.merging == g.merging
    ensures forall q :: q in g'.pdes ==> q < g'.nextPde && (q == p || g'.pdes[q].nedges > 0)
    ensures g'.pdes[p].nedges >= 0
    ensures p in g.pdes ==> g' == g
    ensures p !in g.pdes ==> Made(g, g', a, b)
  {
    if q :| q in g.pdes && Links(g.pdes[q], a, b) {
      g', p := g, q;
    } else {
      CreateKeepsCore(g, g.nextPde, a, b);
      g', p := CreatePdEdge(g, h, a, b);
      assert p !in g.pdes;
    }
  }

  /** The rest of pd_add_edge, once the pd-edge is found. */
  method AttachTo(g: Graph, h: Heap<PdeId>, i: nat, p: PdeId) returns (g': Graph)
    requires OnHeap(g, h) && i < |g.es| && p in g.pdes
    modifies h`idx, h.data
    ensures g' == Attached(g, i, p) && OnHeap(g', h)
  {
    var g2 := SetWeight(g, h, p, g.pdes[p].weight + g.es[i].inv);
    g' := g2.(es := g2.es[i := g2.es[i].(master := Some(p))],
              pdes := g2.pdes[p := g2.pdes[p].(nedges := g2.pdes[p].nedges + 1)]);
    SameWeights(g2, g', h);
    assert g'.pdes == Attached(g, i, p).pdes;
  }

  /** pd_add_edge */
  method AddEdge(g: Graph, h: Heap<PdeId>, i: nat) returns (g': Graph)
    requires Books(g, h) && i < |g.es| && g.es[i].master.None? && Crosses(g.pdOf, g.es[i])
    modifies h, h.data
    ensures Books(g', h) && g'.pdOf == g.pdOf && g'.merging == g.merging && |g'.es| == |g.es|
    ensures g'.es == g.es[i := g.es[i].(master := g'.es[i].master)] && g'.es[i].master.Some?
  {
    var e := g.es[i];
    assert e in g.es;
    var g1, p := FindEdge(g, h, g.pdOf[e.from], g.pdOf[e.to]);
    AttachKeepsCore(g1, i, p);
    g' := AttachTo(g1, h, i, p);
  }

  method DetachFrom(g: Graph, h: Heap<PdeId>, i: nat) returns (g': Graph)
    requires OnHeap(g, h) && i < |g.es| && g.es[i].master.Some? && g.es[i].master.value in g.pdes
    modifies h`idx, h.data
    ensures g' == Detached(g, i) && OnHeap(g', h)
  {
    var p := g.es[i].master.value;
    var g1 := g.(pdes := g.pdes[p := g.pdes[p].(nedges := g.pdes[p].nedges - 1)]);
    SameWeights(g, g1, h);
    var g2 := SetWeight(g1, h, p, g1.pdes[p].weight - g1.es[i].inv);
    g' := g2.(es := g2.es[i := g2.es[i].(master := None)]);
    assert g'.pdes == Detached(g, i).pdes;
  }

  /** pd_edge_free */
  method FreePdEdge(g: Graph, h: Heap<PdeId>, p: PdeId) returns (g': Graph)
    requires OnHeap(g, h) && p in g.pdes
    modifies h, h.data
    ensures g' == g.(pdes := g.pdes - {p}) && OnHeap(g', h)
  {
    g' := g.(pdes := g.pdes - {p});
    if g.pdes[p].onHeap {
      assert p in h.elems;
      HeavierEdgeIsPreorder(g.pdes);
      OrderedIsAround(h.data[..h.e], h.idx[p], HeavierEdge(g.pdes));
      var r := h.Remove(h.idx[p], HeavierEdge(g.pdes));
      assert r == p;
    }
    OffHeapDropped(g, h, p);
  }

  /** A pd-edge that is not on the heap can go. */
  lemma OffHeapDropped(g: Graph, h: Heap<PdeId>, p: PdeId)
    requires h.ValidFor(HeavierEdge(g.pdes)) && p in g.pdes
    requires forall r :: r in h.elems <==> r != p && r in g.pdes && g.pdes[r].onHeap
    ensures OnHeap(g.(pdes := g.pdes - {p}), h)
  {
    assert forall i :: 1 <= i < h.e ==> h.data[i] in h.elems;
  }

  /** pd_remove_pd_edge */
  method RemoveEdge(g: Graph, h: Heap<PdeId>, i: nat) returns (g': Graph)
    requires Books(g, h) && i < |g.es|
    modifies h, h.data
    ensures Books(g', h) && g'.pdOf == g.pdOf && g'.merging == g.merging && g'.es == g.es[i := g.es[i].(master := None)]
  {
    assert MasterOk(g.pdOf, g.pdes, g.es[i]);
    if g.es[i].master.None? {
      return g;
    }
    var p := g.es[i].master.value;
    DetachKeepsCore(g, i);
    g' := DetachFrom(g, h, i);
    assert TallyOk(g'.es, p, g'.pdes[p]);
    EmptyTally(g'.es, p);
    if g'.pdes[p].nedges == 0 {
      FreeKeepsCore(g', p);
      g' := FreePdEdge(g', h, p);
    }
  }

  /** The first edge loop of pd_rem_component. */
  method RemoveOutward(g: Graph, h: Heap<PdeId>, c: Comp) returns (g': Graph)
    requires Books(g, h)
    modifies h, h.data
    ensures Books(g', h) && g'.pdOf == g.pdOf && g'.merging == g.merging && |g'.es| == |g.es|
    ensures Bare(g'.es) == Bare(g.es)
    ensures forall i :: 0 <= i < |g.es| ==>
      g'.es[i] == if g.es[i].from == c then g.es[i].(master := None) else g.es[i]
  {
    g' := g;
    for k := |g.es| downto 0
      invariant Books(g', h) && g'.pdOf == g.pdOf && g'.merging == g.merging && |g'.es| == |g.es|
      invariant Bare(g'.es) == Bare(g.es)
      invariant forall i :: 0 <= i < |g.es| ==>
        g'.es[i] == if g.es[i].from == c && k <= i then g.es[i].(master := None) else g.es[i]
    {
      if g'.es[k].from == c {
        BareUpdate(g'.es, k, None);
        g' := RemoveEdge(g', h, k);
      }
    }
  }

  /** Its second edge loop. */
  method RemoveInward(g: Graph, h: Heap<PdeId>, c: Comp) returns (g': Graph)
    requires Books(g, h)
    modifies h, h.data
    ensures Books(g', h) && g'.pdOf == g.pdOf && g'.merging == g.merging && |g'.es| == |g.es|
    ensures Bare(g'.es) == Bare(g.es)
    ensures forall i :: 0 <= i < |g.es| ==>
      g'.es[i] == if g.es[i].to == c then g.es[i].(master := None) else g.es[i]
  {
    g' := g;
    for k := |g.es| downto 0
      invariant Books(g', h) && g'.pdOf == g.pdOf && g'.merging == g.merging && |g'.es| == |g.es|
      invariant Bare(g'.es) == Bare(g.es)
      invariant forall i :: 0 <= i < |g.es| ==>
        g'.es[i] == if g.es[i].to == c && k <= i then g.es[i].(master := None) else g.es[i]
    {
      if g'.es[k].to == c {
        BareUpdate(g'.es, k, None);
        g' := RemoveEdge(g', h, k);
      }
    }
  }

  /** The part of pd_rem_component about edges: afterwards `c` is in no domain. */
  method RemoveComponentEdges(g: Graph, h: Heap<PdeId>, c: Comp) returns (g': Graph)
    requires Books(g, h) && Complete(g)
    modifies h, h.data
    ensures Books(g', h) && Complete(g') && g'.pdOf == g.pdOf - {c} && g'.merging == g.merging
    ensures Bare(g'.es) == Bare(g.es)
  {
    var g1 := RemoveOutward(g, h, c);
    var g2 := RemoveInward(g1, h, c);
    assert Loose(g2.es, c) && CompleteApartFrom(g2, c);
    TakeOutKeepsCore(g2, c);
    g' := g2.(pdOf := g2.pdOf - {c});
  }

  /** Crossing edges of `c` from position `k` on have their master; the earlier ones wait. */
  ghost predicate Added(g: Graph, g': Graph, c: Comp, k: nat, outward: bool) {
    && |g'.es| == |g.es| && g'.pdOf == g.pdOf && g'.merging == g.merging
    && (forall i :: 0 <= i < |g.es| ==>
         var e := g.es[i];
         if k <= i && (if outward then e.from else e.to) == c && Crosses(g.pdOf, e) then
           g'.es[i].master.Some? && g'.es[i] == e.(master := g'.es[i].master)
         else g'.es[i] == e)
  }

  /** The first edge loop of pd_add_component. */
  method AddOutward(g: Graph, h: Heap<PdeId>, c: Comp) returns (g': Graph)
    requires Books(g, h) && c in g.pdOf && forall e :: e in g.es ==> e.from in g.pdOf && e.to in g.pdOf
    requires forall e :: e in g.es && e.from == c ==> e.master.None?
    modifies h, h.data
    ensures Books(g', h) && Bare(g'.es) == Bare(g.es) && Added(g, g', c, 0, true)
  {
    g' := g;
    for k := |g.es| downto 0
      invariant Books(g', h) && Bare(g'.es) == Bare(g.es) && Added(g, g', c, k, true)
    {
      var e := g.es[k];
      assert e in g.es && g'.es[k] == e;
      if e.from == c && g'.pdOf[c] != g'.pdOf[e.to] {
        ghost var was := g';
        g' := AddEdge(g', h, k);
        BareUpdate(was.es, k, g'.es[k].master);
      }
    }
  }

  /** Its second edge loop. */
  method AddInward(g: Graph, h: Heap<PdeId>, c: Comp) returns (g': Graph)
    requires Books(g, h) && c in g.pdOf && forall e :: e in g.es ==> e.from in g.pdOf && e.to in g.pdOf
    requires forall e :: e in g.es && e.to == c ==> e.master.None?
    modifies h, h.data
    ensures Books(g', h) && Bare(g'.es) == Bare(g.es) && Added(g, g', c, 0, false)
  {
    g' := g;
    for k := |g.es| downto 0
      invariant Books(g', h) && Bare(g'.es) == Bare(g.es) && Added(g, g', c, k, false)
    {
      var e := g.es[k];
      assert e in g.es && g'.es[k] == e;
      if e.to == c && g'.pdOf[c] != g'.pdOf[e.from] {
        ghost var was := g';
        g' := AddEdge(g', h, k);
        BareUpdate(was.es, k, g'.es[k].master);
      }
    }
  }

  /** The part of pd_add_component about edges: `c` joins domain `pd`. */
  method AddComponentEdges(g: Graph, h: Heap<PdeId>, c: Comp, pd: PdId) returns (g': Graph)
    requires Books(g, h) && Complete(g) && c !in g.pdOf
    requires PlacedIn(Bare(g.es), g.pdOf.Keys + {c})
    modifies h, h.data
    ensures Books(g', h) && Complete(g') && g'.pdOf == g.pdOf[c := pd] && g'.merging == g.merging
    ensures Bare(g'.es) == Bare(g.es)
  {
    PlacedEdges(g.es, g.pdOf.Keys + {c});
    PutInKeepsCore(g, c, pd);
    var g1 := g.(pdOf := g.pdOf[c := pd]);
    var g2 := AddOutward(g1, h, c);
    assert forall e :: e in g2.es && e.to == c ==> e.master.None?;
    var g3 := AddInward(g2, h, c);
    g' := g3;
  }

  /** mpd_component_add_edge: a new edge between components of different domains. */
  method AppendEdge(g: Graph, h: Heap<PdeId>, from: Comp, to: Comp, weight: nat) returns (g': Graph)
    requires Books(g, h) && Complete(g) && |g.es| + 1 < h.data.Length
    requires from in g.pdOf && to in g.pdOf && g.pdOf[from] != g.pdOf[to]
    modifies h, h.data
    ensures Books(g', h) && Complete(g') && g'.pdOf == g.pdOf && g'.merging == g.merging
    ensures Bare(g'.es) == Bare(g.es) + [Edge(from, to, weight, None)]
  {
    var e := Edge(from, to, weight, None);
    AppendKeepsCore(g, e);
    BareAppend(g.es, e);
    var g1 := g.(es := g.es + [e]);
    g' := AddEdge(g1, h, |g.es|);
    BareUpdate(g1.es, |g.es|, g'.es[|g.es|].master);
  }
}
