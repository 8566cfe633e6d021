/** The min-cut computation of one protection domain: mc_prepare_data, mc_phase,
    mc_append_lists and mc_find_min_cut of mpd_policy.h, on top of the heap.

    A component is its id.  The scratch fields of `struct component` are maps from ids, keyed by
    the members of the domain under study: `sg_master` and the rings `sg_next/sg_prev` (the
    sequence `sg[m]` read from the group's master `m`) are variables of the whole computation,
    `grp` and `edge_weight` belong to the queue of a phase.  A component's edge lists are the edges
    of `es` that leave or enter it, newest first, as the source's ADD_LIST leaves them. */
module MinCuts {
  import opened Wrappers
  import opened Graphs
  import opened CutTheory
  import opened Heaps

  datatype Grp = MostConnected | LeastConnected | Slave

  const MAX_LONG: int := 0x7fff_ffff

  function Elements(s: seq<Comp>): set<Comp> {
    set c | c in s
  }

  predicate Distinct(s: seq<Comp>) {
    forall i, j :: 0 <= i < j < |s| ==> s[i] != s[j]
  }

  /** The first `k` components of `cs`. */
  ghost predicate Taken(cs: seq<Comp>, k: nat, moved: set<Comp>) {
    k <= |cs| && moved == Elements(cs[..k])
  }

  lemma TakeOne(cs: seq<Comp>, k: nat, moved: set<Comp>, members: set<Comp>)
    requires Distinct(cs) && k < |cs| && Taken(cs, k, moved) && Elements(cs) <= members
    ensures Taken(cs, k + 1, moved + {cs[k]}) && cs[k] in members - moved && moved <= members
  {
    assert cs[..k + 1] == cs[..k] + [cs[k]];
    assert cs[k] in Elements(cs);
    assert Elements(cs[..k]) <= Elements(cs);
  }

  function Reverse(s: seq<Comp>): seq<Comp> {
    if s == [] then [] else Reverse(s[1..]) + [s[0]]
  }

  lemma ReverseAt(s: seq<Comp>)
    ensures |Reverse(s)| == |s| && forall i :: 0 <= i < |s| ==> Reverse(s)[i] == s[|s| - 1 - i]
    ensures forall c :: c in Reverse(s) <==> c in s
  {
    if s != [] {
      assert s == [s[0]] + s[1..];
      ReverseAt(s[1..]);
    }
  }

  lemma ReverseTake(s: seq<Comp>, k: nat)
    requires k < |s|
    ensures Reverse(s[..k + 1]) == [s[k]] + Reverse(s[..k])
  {
    ReverseAt(s[..k + 1]);
    ReverseAt(s[..k]);
  }

  /** The other members, in the order of the ring that starts at `s`. */
  method RingFrom(members: seq<Comp>, s: Comp) returns (r: seq<Comp>)
    requires Distinct(members) && s in members
    ensures Distinct(r) && |r| == |members| - 1
    ensures forall c :: c in r <==> c in members && c != s
  {
    var i := IndexOf(members, s);
    r := members[i + 1..] + members[..i];
  }

  function IndexOf(members: seq<Comp>, s: Comp): (i: nat)
    requires s in members
    ensures i < |members| && members[i] == s
  {
    if members[0] == s then 0 else 1 + IndexOf(members[1..], s)
  }

  /** The comparator mc_cmp over the current `edge_weight` fields. */
  function Heavier(weight: map<Comp, int>): (Comp, Comp) -> bool {
    (a: Comp, b: Comp) => Weight(weight, a) >= Weight(weight, b)
  }

  lemma HeavierIsPreorder(weight: map<Comp, int>)
    ensures TotalPreorder(Heavier(weight))
  {
  }

  function Weight(weight: map<Comp, int>, c: Comp): int {
    if c in weight then weight[c] else 0
  }

  function Group(master: map<Comp, Comp>, m: Comp): set<Comp> {
    set c | c in master && master[c] == m
  }

  function Masters(master: map<Comp, Comp>): set<Comp> {
    set c | c in master && master[c] == c
  }

  /** The master of `c` is a member and its own master. */
  predicate Led(master: map<Comp, Comp>, c: Comp)
    requires c in master
  {
    master[c] in master && master[master[c]] == master[c]
  }

  ghost predicate Grouping(master: map<Comp, Comp>) {
    forall c {:trigger Led(master, c)} :: c in master ==> Led(master, c)
  }

  /** `s` does not cut through any current group. */
  predicate Whole(master: map<Comp, Comp>, s: set<Comp>) {
    forall c :: c in master ==> (c in s <==> master[c] in s)
  }

  /** The ring of master `m` lists exactly its group, starting at `m`. */
  ghost predicate Ring(master: map<Comp, Comp>, sg: map<Comp, seq<Comp>>, m: Comp) {
    && m in sg && Distinct(sg[m])
    && Elements(sg[m]) == Group(master, m)
    && |sg[m]| > 0 && sg[m][0] == m
  }

  /** The masters group exactly the members, and each ring lists exactly its group. */
  ghost predicate Grouped(master: map<Comp, Comp>, sg: map<Comp, seq<Comp>>, members: seq<Comp>) {
    && Distinct(members) && master.Keys == Elements(members) && Grouping(master)
    && (forall m {:trigger Ring(master, sg, m)} :: m in Masters(master) ==> Ring(master, sg, m))
  }

  /** Edges between one component and a group, as its outward and its inward list see them. */
  function Outgoing(s: Comp, b: set<Comp>): Edge -> int {
    (e: Edge) => if e.from == s && e.to in b then e.inv else 0
  }

  function Incoming(s: Comp, b: set<Comp>): Edge -> int {
    (e: Edge) => if e.to == s && e.from in b then e.inv else 0
  }

  lemma OutInBetween(es: seq<Edge>, s: Comp, b: set<Comp>)
    requires s !in b
    ensures Sum(es, Outgoing(s, b)) + Sum(es, Incoming(s, b)) == Between(es, {s}, b)
  {
    SumAdd(es, Outgoing(s, b), Incoming(s, b), Joining({s}, b));
  }

  /** All components whose group is among `order`. */
  function Absorbed(master: map<Comp, Comp>, order: seq<Comp>): set<Comp> {
    set c | c in master && master[c] in order
  }

  function Groups(master: map<Comp, Comp>, order: seq<Comp>): seq<set<Comp>> {
    seq(|order|, i requires 0 <= i < |order| => Group(master, order[i]))
  }

  lemma {:induction false} PrefixIsAbsorbed(master: map<Comp, Comp>, order: seq<Comp>, i: nat)
    requires i <= |order|
    ensures Prefix(Groups(master, order), i) == Absorbed(master, order[..i])
    decreases i
  {
    if i > 0 {
      PrefixIsAbsorbed(master, order, i - 1);
      assert order[..i] == order[..i - 1] + [order[i - 1]];
    }
  }

  lemma GroupsPartition(master: map<Comp, Comp>, order: seq<Comp>)
    requires Grouping(master) && Distinct(order) && Elements(order) <= Masters(master)
    ensures Partition(Groups(master, order))
  {
    forall i | 0 <= i < |order| ensures Groups(master, order)[i] != {} {
      assert order[i] in Elements(order);
      assert order[i] in Group(master, order[i]);
    }
  }

  /** Group `t`, not taken before position `i` of `order`, did not beat the group taken there. */
  ghost predicate Outranked(es: seq<Edge>, master: map<Comp, Comp>, order: seq<Comp>, i: nat, t: Comp)
    requires i < |order|
  {
    Between(es, Absorbed(master, order[..i]), Group(master, t)) <=
      Between(es, Absorbed(master, order[..i]), Group(master, order[i]))
  }

  /** `order` lists the groups taken so far in a phase, each the most connected of its moment,
      and `rest` the groups still queued. */
  ghost predicate PhaseOrder(es: seq<Edge>, master: map<Comp, Comp>, order: seq<Comp>, rest: set<Comp>) {
    && Grouping(master) && |order| > 0 && Distinct(order)
    && Elements(order) !! rest && Elements(order) + rest == Masters(master)
    && (forall i: nat, j: nat :: 1 <= i <= j < |order| ==> Outranked(es, master, order, i, order[j]))
    && (forall i: nat, t :: 1 <= i < |order| && t in rest ==> Outranked(es, master, order, i, t))
  }

  lemma TakeNext(es: seq<Edge>, master: map<Comp, Comp>, order: seq<Comp>, rest: set<Comp>, c: Comp)
    requires PhaseOrder(es, master, order, rest) && c in rest
    requires forall t :: t in rest ==>
      Between(es, Absorbed(master, order), Group(master, t)) <= Between(es, Absorbed(master, order), Group(master, c))
    ensures PhaseOrder(es, master, order + [c], rest - {c})
  {
    var o := order + [c];
    assert Elements(o) == Elements(order) + {c};
    assert forall i: nat :: i <= |order| ==> o[..i] == order[..i];
    assert order[..|order|] == order;
    forall i: nat, j: nat | 1 <= i <= j < |o| ensures Outranked(es, master, o, i, o[j]) {
      if i < |order| {
        assert Outranked(es, master, order, i, o[j]);
      }
    }
    forall i: nat, t | 1 <= i < |o| && t in rest - {c} ensures Outranked(es, master, o, i, t) {
      if i < |order| {
        assert Outranked(es, master, order, i, t);
      }
    }
  }

  lemma AbsorbedAll(es: seq<Edge>, master: map<Comp, Comp>, order: seq<Comp>)
    requires PhaseOrder(es, master, order, {})
    ensures Absorbed(master, order) == master.Keys
  {
    forall c | c in master ensures master[c] in order {
      assert Led(master, c);
      assert master[c] in Masters(master);
    }
  }

  lemma PhaseMostConnected(es: seq<Edge>, master: map<Comp, Comp>, order: seq<Comp>)
    requires PhaseOrder(es, master, order, {})
    ensures Partition(Groups(master, order)) && MostConnectedFirst(es, Groups(master, order))
  {
    GroupsPartition(master, order);
    var gs := Groups(master, order);
    forall i: nat, j: nat | 1 <= i <= j < |gs| ensures NotBeaten(es, gs, i, j) {
      PrefixIsAbsorbed(master, order, i);
      assert Outranked(es, master, order, i, order[j]);
    }
  }

  lemma WholeRespects(master: map<Comp, Comp>, order: seq<Comp>, s: set<Comp>)
    requires Grouping(master) && Whole(master, s) && Elements(order) <= Masters(master)
    ensures Respects(Groups(master, order), s)
    ensures forall i :: 0 <= i < |order| ==> (Groups(master, order)[i] <= s <==> order[i] in s)
  {
    forall i | 0 <= i < |order|
      ensures Groups(master, order)[i] <= s <==> order[i] in s
      ensures order[i] !in s ==> Groups(master, order)[i] !! s
    {
      assert order[i] in Elements(order);
      assert order[i] in Group(master, order[i]);
    }
  }

  lemma AbsorbedGrows(es: seq<Edge>, master: map<Comp, Comp>, order: seq<Comp>, c: Comp, t: Comp)
    requires c !in order && t !in order && t != c
    ensures Between(es, Absorbed(master, order + [c]), Group(master, t)) ==
            Between(es, Absorbed(master, order), Group(master, t)) + Between(es, Group(master, c), Group(master, t))
  {
    assert Absorbed(master, order + [c]) == Absorbed(master, order) + Group(master, c);
    BetweenSplit(es, Absorbed(master, order), Group(master, c), Group(master, t));
  }

  /** The theory applied to a finished phase. */
  lemma PhaseCut(es: seq<Edge>, master: map<Comp, Comp>, order: seq<Comp>, s: set<Comp>)
    requires PhaseOrder(es, master, order, {}) && |order| >= 2
    requires s <= master.Keys && Whole(master, s)
    requires (order[|order| - 2] in s) != (order[|order| - 1] in s)
    ensures Between(es, Absorbed(master, order[..|order| - 1]), Group(master, order[|order| - 1])) <=
      Cut(es, master.Keys, s)
  {
    var gs, n := Groups(master, order), |order| - 1;
    PhaseMostConnected(es, master, order);
    WholeRespects(master, order, s);
    assert (gs[n - 1] <= s) != (gs[n] <= s);
    CutOfPhase(es, gs, s);
    PhasePrefixes(es, master, order);
    assert Prefix(gs, n) == Absorbed(master, order[..n]) && Prefix(gs, n + 1) == master.Keys;
    assert gs[n] == Group(master, order[n]) && master.Keys * s == s;
  }

  lemma PhasePrefixes(es: seq<Edge>, master: map<Comp, Comp>, order: seq<Comp>)
    requires PhaseOrder(es, master, order, {})
    ensures Prefix(Groups(master, order), |order| - 1) == Absorbed(master, order[..|order| - 1])
    ensures Prefix(Groups(master, order), |order|) == master.Keys
  {
    PrefixIsAbsorbed(master, order, |order| - 1);
    PrefixIsAbsorbed(master, order, |order|);
    assert order[..|order|] == order;
    AbsorbedAll(es, master, order);
  }

  /** `amnt` is the weight between group `mcop` and all the rest, and no cut that separates
      `mcop` from `second` without cutting through a group is cheaper. */
  ghost predicate CutOfThePhase(es: seq<Edge>, master: map<Comp, Comp>, amnt: int, second: Comp, mcop: Comp) {
    && Grouping(master) && second in Masters(master) && mcop in Masters(master) && second != mcop
    && amnt == Cut(es, master.Keys, Group(master, mcop))
    && (forall s :: s <= master.Keys && Whole(master, s) && (second in s) != (mcop in s) ==>
         CostsAtLeast(es, master.Keys, s, amnt))
  }

  ghost predicate CostsAtLeast(es: seq<Edge>, m: set<Comp>, s: set<Comp>, amnt: int) {
    amnt <= Cut(es, m, s)
  }

  lemma PhaseDone(es: seq<Edge>, master: map<Comp, Comp>, order: seq<Comp>)
    requires PhaseOrder(es, master, order, {}) && |order| >= 2
    ensures CutOfThePhase(es, master,
      Between(es, Absorbed(master, order[..|order| - 1]), Group(master, order[|order| - 1])),
      order[|order| - 2], order[|order| - 1])
  {
    var n := |order| - 1;
    var second, mcop := order[n - 1], order[n];
    assert second in Elements(order) && mcop in Elements(order);
    AbsorbedAll(es, master, order);
    assert Absorbed(master, order[..n]) == master.Keys - Group(master, mcop) by {
      assert order == order[..n] + [mcop];
    }
    BetweenSymmetric(es, Absorbed(master, order[..n]), Group(master, mcop));
    forall s | s <= master.Keys && Whole(master, s) && (second in s) != (mcop in s)
      ensures CostsAtLeast(es, master.Keys, s, Between(es, Absorbed(master, order[..n]), Group(master, mcop)))
    {
      PhaseCut(es, master, order, s);
    }
  }

  lemma StartOrder(es: seq<Edge>, master: map<Comp, Comp>, s: Comp, rest: set<Comp>)
    requires Grouping(master) && s in Masters(master) && rest == Masters(master) - {s}
    ensures PhaseOrder(es, master, [s], rest) && Absorbed(master, [s]) == Group(master, s)
  {
    assert Elements([s]) == {s};
  }

  lemma SingleGroup(es: seq<Edge>, master: map<Comp, Comp>, s: Comp)
    requires PhaseOrder(es, master, [s], {})
    ensures forall c :: c in master ==> master[c] == s
  {
    forall c | c in master ensures master[c] == s {
      assert Led(master, c);
      assert master[c] in Masters(master);
    }
  }

  /** Group `b` handed over to the master of group `a`. */
  function Merged(master: map<Comp, Comp>, a: Comp, b: Comp): map<Comp, Comp> {
    map c | c in master :: if master[c] == b then a else master[c]
  }

  function JoinedRings(sg: map<Comp, seq<Comp>>, a: Comp, b: Comp): seq<Comp>
    requires a in sg && b in sg && |sg[a]| > 0
  {
    [a] + Reverse(sg[b]) + sg[a][1..]
  }

  lemma RingsJoin(a: Comp, ra: seq<Comp>, rb: seq<Comp>)
    requires |ra| > 0 && ra[0] == a && Distinct(ra) && Distinct(rb) && Elements(ra) !! Elements(rb)
    ensures Distinct([a] + Reverse(rb) + ra[1..])
    ensures Elements([a] + Reverse(rb) + ra[1..]) == Elements(ra) + Elements(rb)
  {
    ReverseAt(rb);
    var r, v := [a] + Reverse(rb) + ra[1..], Reverse(rb);
    assert forall c :: c in ra ==> c in Elements(ra);
    assert forall c :: c in v ==> c in Elements(rb);
    forall i, j | 0 <= i < j < |r| ensures r[i] != r[j] {
      if 0 < i <= |v| < j {
        assert r[i] == v[i - 1] && r[i] in v && r[j] == ra[j - |v|] && r[j] in ra;
      } else if i == 0 && j <= |v| {
        assert r[j] == v[j - 1] && r[j] in v && a in ra;
      }
    }
    assert ra == [a] + ra[1..];
    forall c ensures c in r <==> c in ra || c in rb {
      assert c in ra <==> c == a || c in ra[1..];
    }
  }

  lemma MergeKeepsRing(master: map<Comp, Comp>, sg: map<Comp, seq<Comp>>, a: Comp, b: Comp)
    requires a != b && Ring(master, sg, a) && Ring(master, sg, b)
    ensures Ring(Merged(master, a, b), sg[a := JoinedRings(sg, a, b)] - {b}, a)
  {
    RingsJoin(a, sg[a], sg[b]);
    assert Group(Merged(master, a, b), a) == Group(master, a) + Group(master, b);
  }

  lemma MergeKeepsMasters(master: map<Comp, Comp>, a: Comp, b: Comp)
    requires Grouping(master) && a in Masters(master) && b in Masters(master) && a != b
    ensures Merged(master, a, b).Keys == master.Keys && Grouping(Merged(master, a, b))
    ensures Masters(Merged(master, a, b)) == Masters(master) - {b}
  {
    var m' := Merged(master, a, b);
    forall c | c in m' ensures Led(m', c) {
      assert Led(master, c);
    }
  }

  lemma MergeKeepsOtherRing(master: map<Comp, Comp>, sg: map<Comp, seq<Comp>>, a: Comp, b: Comp, m: Comp)
    requires m != a && m != b && Ring(master, sg, m) && a in sg && b in sg && |sg[a]| > 0
    ensures Ring(Merged(master, a, b), sg[a := JoinedRings(sg, a, b)] - {b}, m)
  {
    assert Group(Merged(master, a, b), m) == Group(master, m);
  }

  lemma MergeKeepsGrouped(master: map<Comp, Comp>, sg: map<Comp, seq<Comp>>, members: seq<Comp>, a: Comp, b: Comp)
    requires Grouped(master, sg, members) && a in Masters(master) && b in Masters(master) && a != b
    requires Ring(master, sg, a) && Ring(master, sg, b)
    ensures Grouped(Merged(master, a, b), sg[a := JoinedRings(sg, a, b)] - {b}, members)
  {
    MergeKeepsMasters(master, a, b);
    var m', sg' := Merged(master, a, b), sg[a := JoinedRings(sg, a, b)] - {b};
    forall m | m in Masters(m') ensures Ring(m', sg', m) {
      if m == a {
        MergeKeepsRing(master, sg, a, b);
      } else {
        assert Ring(master, sg, m);
        MergeKeepsOtherRing(master, sg, a, b, m);
      }
    }
  }

  ghost predicate ProperPart(m: set<Comp>, s: set<Comp>) {
    s <= m && s != {} && s != m
  }

  /** `cut` is a cheapest way to split the components `m` in two, at cost `amnt`. */
  ghost predicate MinimumCut(es: seq<Edge>, m: set<Comp>, cut: set<Comp>, amnt: int) {
    && ProperPart(m, cut) && amnt == Cut(es, m, cut)
    && (forall s :: ProperPart(m, s) ==> CostsAtLeast(es, m, s, amnt))
  }

  /** Any cut cheaper than `min` still lies along the borders of the current groups. */
  ghost predicate NoneLost(es: seq<Edge>, master: map<Comp, Comp>, min: int) {
    && Grouping(master)
    && (forall s :: ProperPart(master.Keys, s) ==> Whole(master, s) || CostsAtLeast(es, master.Keys, s, min))
  }

  lemma ContractLoses(es: seq<Edge>, master: map<Comp, Comp>, amnt: int, second: Comp, mcop: Comp, s: set<Comp>)
    requires CutOfThePhase(es, master, amnt, second, mcop) && s <= master.Keys && Whole(master, s)
    requires Grouping(Merged(master, mcop, second))
    ensures Whole(Merged(master, mcop, second), s) || CostsAtLeast(es, master.Keys, s, amnt)
  {
    if (second in s) != (mcop in s) {
      assert CostsAtLeast(es, master.Keys, s, amnt);
    }
  }

  lemma ContractLosesNone(es: seq<Edge>, master: map<Comp, Comp>, min: int, amnt: int, second: Comp, mcop: Comp)
    requires NoneLost(es, master, min) && CutOfThePhase(es, master, amnt, second, mcop)
    ensures NoneLost(es, Merged(master, mcop, second), if amnt < min then amnt else min)
  {
    var m', min' := Merged(master, mcop, second), if amnt < min then amnt else min;
    MergeKeepsMasters(master, mcop, second);
    forall s | ProperPart(m'.Keys, s) ensures Whole(m', s) || CostsAtLeast(es, m'.Keys, s, min') {
      if Whole(master, s) {
        ContractLoses(es, master, amnt, second, mcop, s);
      }
    }
  }

  /** The best cut recorded so far; `[]` before the first phase, when every component is alone. */
  ghost predicate Best(es: seq<Edge>, master: map<Comp, Comp>, cut: seq<Comp>, min: int) {
    if cut == [] then
      min == MAX_LONG && forall c :: c in master ==> master[c] == c
    else
      Distinct(cut) && ProperPart(master.Keys, Elements(cut)) && min == Cut(es, master.Keys, Elements(cut))
  }

  lemma SingleGroupIsDone(es: seq<Edge>, master: map<Comp, Comp>, cut: seq<Comp>, min: int, a: Comp, b: Comp)
    requires NoneLost(es, master, min) && Best(es, master, cut, min)
    requires a in master && b in master && a != b && forall c :: c in master ==> master[c] == master[a]
    ensures cut != [] && MinimumCut(es, master.Keys, Elements(cut), min)
  {
    assert cut != [];
    forall s | ProperPart(master.Keys, s) ensures CostsAtLeast(es, master.Keys, s, min) {
      assert exists c :: c in s;
      assert exists c :: c in master && c !in s;
    }
  }

  function Invocations(): Edge -> int {
    (e: Edge) => e.inv
  }

  lemma CutBound(es: seq<Edge>, m: set<Comp>, s: set<Comp>)
    ensures Cut(es, m, s) <= Sum(es, Invocations())
  {
    SumLe(es, Joining(s, m - s), Invocations());
  }

  lemma PhaseCutIsProper(es: seq<Edge>, master: map<Comp, Comp>, amnt: int, second: Comp, mcop: Comp)
    requires CutOfThePhase(es, master, amnt, second, mcop)
    ensures ProperPart(master.Keys, Group(master, mcop)) && amnt <= Sum(es, Invocations())
  {
    assert mcop in Group(master, mcop) && second !in Group(master, mcop);
    CutBound(es, master.Keys, Group(master, mcop));
  }

  method ComponentGrpWeight(es: seq<Edge>, master: map<Comp, Comp>, s: Comp, g: Comp) returns (cnt: int)
    requires s !in Group(master, g)
    ensures cnt == Between(es, {s}, Group(master, g))
  {
    ghost var b := Group(master, g);
    cnt := 0;
    for k := |es| downto 0
      invariant cnt == Sum(es[k..], Outgoing(s, b))
    {
      var e := es[k];
      if e.from == s && e.to in master && master[e.to] == g {
        cnt := cnt + e.inv;
      }
      assert es[k..] == [e] + es[k + 1..];
    }
    var out := cnt;
    for k := |es| downto 0
      invariant cnt == out + Sum(es[k..], Incoming(s, b))
    {
      var e := es[k];
      if e.to == s && e.from in master && master[e.from] == g {
        cnt := cnt + e.inv;
      }
      assert es[k..] == [e] + es[k + 1..];
    }
    assert es[0..] == es;
    OutInBetween(es, s, b);
  }

  method GrpToGrpWeight(es: seq<Edge>, master: map<Comp, Comp>, sg: map<Comp, seq<Comp>>, g1: Comp, g2: Comp)
    returns (cnt: int)
    requires g1 != g2 && Ring(master, sg, g1)
    ensures cnt == Between(es, Group(master, g1), Group(master, g2))
  {
    cnt := 0;
    ghost var b := Group(master, g2);
    BetweenEmpty(es, b);
    var ring := sg[g1];
    assert Elements(ring[..0]) == {};
    for k := 0 to |ring|
      invariant cnt == Between(es, Elements(ring[..k]), b)
    {
      var c := ring[k];
      assert c in Elements(ring);
      var w := ComponentGrpWeight(es, master, c, g2);
      assert Elements(ring[..k + 1]) == Elements(ring[..k]) + {c};
      assert forall x :: x in ring[..k] ==> x in Elements(ring);
      BetweenSplit(es, Elements(ring[..k]), {c}, b);
      cnt := cnt + w;
    }
    assert ring[..|ring|] == ring;
  }

  /** The queue of one phase: the heap `mc_h`, and the fields of each component that order it. */
  class PhaseQueue {
    const heap: Heap<Comp>
    var grp: map<Comp, Grp>
    var edgeWeight: map<Comp, int>

    constructor (capacity: nat)
      ensures fresh(heap) && fresh(heap.data) && heap.Valid() && heap.e == 1
      ensures heap.data.Length == capacity + 1
    {
      heap := new Heap(capacity, 0);
      grp, edgeWeight := map[], map[];
    }

    /** Exactly the groups not yet absorbed are queued, in the order of their current weights. */
    ghost predicate Queued()
      reads this, heap, heap.data
    {
      && heap.ValidFor(Heavier(edgeWeight))
      && (forall c :: c in heap.elems <==> c in grp && grp[c] == LeastConnected)
    }

    method HeapAdjust(c: Comp, e: Edge)
      requires Queued() && c in grp
      modifies this`edgeWeight, heap`idx, heap.data
      ensures Queued()
      ensures edgeWeight == if grp[c] == LeastConnected then old(edgeWeight)[c := Weight(old(edgeWeight), c) + e.inv]
                            else old(edgeWeight)
    {
      if grp[c] == LeastConnected {
        assert c in heap.elems;
        edgeWeight := edgeWeight[c := Weight(edgeWeight, c) + e.inv];
        HeavierIsPreorder(old(edgeWeight));
        HeavierIsPreorder(edgeWeight);
        KeyChange(heap.data[..heap.e], heap.idx[c], Heavier(old(edgeWeight)), Heavier(edgeWeight));
        heap.Adjust(heap.idx[c], Heavier(edgeWeight));
      }
    }

    /** The first loop of component_adjust_heap, over the outward edges of `s`. */
    method AdjustOutward(es: seq<Edge>, master: map<Comp, Comp>, s: Comp)
      requires Queued() && forall c :: c in master ==> master[c] in grp
      modifies this`edgeWeight, heap`idx, heap.data
      ensures Queued()
      ensures forall t :: t in heap.elems ==>
        Weight(edgeWeight, t) == Weight(old(edgeWeight), t) + Sum(es, Outgoing(s, Group(master, t)))
    {
      for k := |es| downto 0
        invariant Queued()
        invariant forall t :: t in heap.elems ==>
          Weight(edgeWeight, t) == Weight(old(edgeWeight), t) + Sum(es[k..], Outgoing(s, Group(master, t)))
      {
        var e := es[k];
        assert es[k..] == [e] + es[k + 1..];
        if e.from == s && e.to in master {
          HeapAdjust(master[e.to], e);
        }
      }
      assert es[0..] == es;
    }

    /** Its second loop, over the inward edges. */
    method AdjustInward(es: seq<Edge>, master: map<Comp, Comp>, s: Comp)
      requires Queued() && forall c :: c in master ==> master[c] in grp
      modifies this`edgeWeight, heap`idx, heap.data
      ensures Queued()
      ensures forall t :: t in heap.elems ==>
        Weight(edgeWeight, t) == Weight(old(edgeWeight), t) + Sum(es, Incoming(s, Group(master, t)))
    {
      for k := |es| downto 0
        invariant Queued()
        invariant forall t :: t in heap.elems ==>
          Weight(edgeWeight, t) == Weight(old(edgeWeight), t) + Sum(es[k..], Incoming(s, Group(master, t)))
      {
        var e := es[k];
        assert es[k..] == [e] + es[k + 1..];
        if e.to == s && e.from in master {
          HeapAdjust(master[e.from], e);
        }
      }
      assert es[0..] == es;
    }

    /** Every queued group gains its weight to `s`. */
    method ComponentAdjustHeap(es: seq<Edge>, master: map<Comp, Comp>, s: Comp)
      requires Queued() && forall c :: c in master ==> master[c] in grp
      requires s in master && grp[master[s]] != LeastConnected
      modifies this`edgeWeight, heap`idx, heap.data
      ensures Queued()
      ensures forall t :: t in heap.elems ==>
        Weight(edgeWeight, t) == Weight(old(edgeWeight), t) + Between(es, {s}, Group(master, t))
    {
      AdjustOutward(es, master, s);
      AdjustInward(es, master, s);
      forall t | t in heap.elems
        ensures Weight(edgeWeight, t) == Weight(old(edgeWeight), t) + Between(es, {s}, Group(master, t))
      {
        OutInBetween(es, s, Group(master, t));
      }
    }

    /** Every queued group gains its weight to the group just taken. */
    method GrpAdjustHeap(es: seq<Edge>, master: map<Comp, Comp>, ring: seq<Comp>, g: Comp)
      requires Queued() && forall c :: c in master ==> master[c] in grp
      requires Distinct(ring) && Elements(ring) == Group(master, g) && g in grp && grp[g] != LeastConnected
      modifies this`edgeWeight, heap`idx, heap.data
      ensures Queued()
      ensures forall t :: t in heap.elems ==>
        Weight(edgeWeight, t) == Weight(old(edgeWeight), t) + Between(es, Group(master, g), Group(master, t))
    {
      forall t ensures Between(es, {}, Group(master, t)) == 0 {
        BetweenEmpty(es, Group(master, t));
      }
      assert Elements(ring[..0]) == {};
      for k := 0 to |ring|
        invariant Queued()
        invariant forall t :: t in heap.elems ==>
          Weight(edgeWeight, t) == Weight(old(edgeWeight), t) + Between(es, Elements(ring[..k]), Group(master, t))
      {
        var c := ring[k];
        assert c in Elements(ring);
        assert Elements(ring[..k + 1]) == Elements(ring[..k]) + {c};
        assert forall x :: x in ring[..k] ==> x in Elements(ring);
        forall t | t in heap.elems
          ensures Between(es, Elements(ring[..k + 1]), Group(master, t)) ==
                  Between(es, Elements(ring[..k]), Group(master, t)) + Between(es, {c}, Group(master, t))
        {
          BetweenSplit(es, Elements(ring[..k]), {c}, Group(master, t));
        }
        ComponentAdjustHeap(es, master, c);
      }
      assert ring[..|ring|] == ring;
    }

    /** The members in `seen` have been visited and their groups queued with their weight to `s`. */
    ghost predicate Seeded(es: seq<Edge>, master: map<Comp, Comp>, s: Comp, seen: set<Comp>)
      reads this, heap, heap.data
    {
      && heap.ValidFor(Heavier(edgeWeight))
      && grp.Keys == seen + {s} && grp[s] == MostConnected && seen <= master.Keys
      && (forall c :: c in heap.elems <==> c in seen && master[c] == c)
      && (forall c :: c in seen ==> (grp[c] == LeastConnected <==> master[c] == c))
      && (forall t :: t in heap.elems ==>
           Weight(edgeWeight, t) == Between(es, Group(master, s), Group(master, t)))
    }

    method AddWeighted(t: Comp, w: int)
      requires heap.ValidFor(Heavier(edgeWeight)) && t !in heap.elems && heap.e < heap.data.Length
      modifies this`edgeWeight, heap, heap.data
      ensures edgeWeight == old(edgeWeight)[t := w] && heap.ValidFor(Heavier(edgeWeight))
      ensures heap.elems == old(heap.elems) + {t} && heap.e == old(heap.e) + 1
    {
      edgeWeight := edgeWeight[t := w];
      assert Ordered(heap.data[..heap.e], Heavier(edgeWeight)) by {
        assert forall i :: 1 <= i < heap.e ==> heap.data[i] in heap.elems;
      }
      HeavierIsPreorder(edgeWeight);
      var _ := heap.Add(t, Heavier(edgeWeight));
    }

    method EnqueueGroup(es: seq<Edge>, master: map<Comp, Comp>, sg: map<Comp, seq<Comp>>, s: Comp, t: Comp,
                        ghost seen: set<Comp>)
      requires s in master && Ring(master, sg, s) && t in master
      requires Seeded(es, master, s, seen) && t != s && t !in seen && heap.e < heap.data.Length
      modifies this, heap, heap.data
      ensures Seeded(es, master, s, seen + {t}) && heap.e <= old(heap.e) + 1
    {
      if master[t] == t {
        grp := grp[t := LeastConnected];
        var w := GrpToGrpWeight(es, master, sg, s, t);
        AddWeighted(t, w);
      } else {
        grp := grp[t := Slave];
      }
    }

    /** The first loop of mc_phase: walk the member ring from `s`, queueing every other group
        with its weight to the group of `s`. */
    method EnqueueGroups(es: seq<Edge>, master: map<Comp, Comp>, sg: map<Comp, seq<Comp>>, members: seq<Comp>, s: Comp)
      requires Distinct(members) && forall c :: c in master <==> c in members
      requires s in Masters(master) && Ring(master, sg, s)
      requires heap.Valid() && heap.e == 1 && |members| <= heap.data.Length
      modifies this, heap, heap.data
      ensures Seeded(es, master, s, master.Keys - {s})
    {
      grp, edgeWeight := map[s := MostConnected], map[];
      var ring := RingFrom(members, s);
      ghost var seen := {};
      for k := 0 to |ring|
        invariant Seeded(es, master, s, seen) && heap.e <= k + 1 && Taken(ring, k, seen)
      {
        var t := ring[k];
        TakeOne(ring, k, seen, Elements(ring));
        EnqueueGroup(es, master, sg, s, t, seen);
        seen := seen + {t};
      }
      assert ring[..|ring|] == ring;
    }

    /** Between extractions: `order` has been taken, the rest is queued, and each queued group's
        `edge_weight` is its total weight to everything taken. */
    ghost predicate InPhase(es: seq<Edge>, master: map<Comp, Comp>, order: seq<Comp>)
      reads this, heap, heap.data
    {
      && Queued() && grp.Keys == master.Keys && PhaseOrder(es, master, order, heap.elems)
      && (forall t :: t in heap.elems ==>
           Weight(edgeWeight, t) == Between(es, Absorbed(master, order), Group(master, t)))
    }

    /** Take the most connected queued group off the heap. */
    method PopHighest(es: seq<Edge>, master: map<Comp, Comp>, ghost order: seq<Comp>) returns (c: Comp)
      requires InPhase(es, master, order) && heap.e > 1
      modifies heap, heap.data
      ensures heap.ValidFor(Heavier(edgeWeight)) && PhaseOrder(es, master, order + [c], heap.elems)
      ensures c in old(heap.elems) && heap.elems == old(heap.elems) - {c} && heap.e == old(heap.e) - 1
    {
      HeavierIsPreorder(edgeWeight);
      var top := heap.Highest(Heavier(edgeWeight));
      c := top.value;
      TakeNext(es, master, order, old(heap.elems), c);
    }

    method TakeHighest(es: seq<Edge>, master: map<Comp, Comp>, ghost order: seq<Comp>) returns (c: Comp)
      requires InPhase(es, master, order) && heap.e > 1
      modifies this`grp, heap, heap.data
      ensures Queued() && grp.Keys == master.Keys && PhaseOrder(es, master, order + [c], heap.elems)
      ensures c in Masters(master) && grp[c] == MostConnected && heap.e == old(heap.e) - 1
      ensures c in old(heap.elems) && heap.elems <= old(heap.elems)
    {
      c := PopHighest(es, master, order);
      grp := grp[c := MostConnected];
    }

    /** One round of the main loop of mc_phase: absorb the most connected queued group. */
    method Absorb(es: seq<Edge>, master: map<Comp, Comp>, sg: map<Comp, seq<Comp>>, ghost order: seq<Comp>)
      returns (c: Comp)
      requires InPhase(es, master, order) && heap.e > 1
      requires forall m {:trigger Ring(master, sg, m)} :: m in Masters(master) ==> Ring(master, sg, m)
      modifies this, heap, heap.data
      ensures InPhase(es, master, order + [c]) && heap.e == old(heap.e) - 1
    {
      c := TakeHighest(es, master, order);
      assert Ring(master, sg, c);
      assert forall x :: x in master ==> Led(master, x);
      GrpAdjustHeap(es, master, sg[c], c);
      forall t | t in heap.elems
        ensures Weight(edgeWeight, t) == Between(es, Absorbed(master, order + [c]), Group(master, t))
      {
        assert t in Elements(order + [c]) <==> t in order + [c];
        AbsorbedGrows(es, master, order, c, t);
      }
    }

    /** The main loop of mc_phase and its exit: two or more groups are left. */
    method Extract(es: seq<Edge>, master: map<Comp, Comp>, sg: map<Comp, seq<Comp>>, s: Comp)
      returns (amnt: int, second: Comp, mcop: Comp)
      requires InPhase(es, master, [s]) && heap.e > 1
      requires forall m {:trigger Ring(master, sg, m)} :: m in Masters(master) ==> Ring(master, sg, m)
      modifies this, heap, heap.data
      ensures heap.Valid() && heap.e == 1
      ensures CutOfThePhase(es, master, amnt, second, mcop)
    {
      ghost var order := [s];
      second := s;
      while heap.e > 2
        invariant InPhase(es, master, order) && heap.e >= 2 && second == order[|order| - 1]
      {
        second := Absorb(es, master, sg, order);
        order := order + [second];
      }
      mcop := PopHighest(es, master, order);
      amnt := Weight(edgeWeight, mcop);
      assert heap.elems == {};
      assert (order + [mcop])[..|order|] == order;
      PhaseDone(es, master, order + [mcop]);
    }

    method StartPhase(es: seq<Edge>, master: map<Comp, Comp>, sg: map<Comp, seq<Comp>>, members: seq<Comp>)
      returns (s: Comp)
      requires Grouped(master, sg, members) && |members| > 0
      requires heap.Valid() && heap.e == 1 && |members| <= heap.data.Length
      modifies this, heap, heap.data
      ensures InPhase(es, master, [s]) && members[0] in master && s == master[members[0]]
    {
      assert members[0] in Elements(members);
      s := master[members[0]];
      assert Led(master, members[0]) && Ring(master, sg, s);
      EnqueueGroups(es, master, sg, members, s);
      StartOrder(es, master, s, heap.elems);
    }

    /** mc_phase: the cut of the phase, the group taken before last and the last group;
        or neither when a single group is left. */
    method Phase(es: seq<Edge>, master: map<Comp, Comp>, sg: map<Comp, seq<Comp>>, members: seq<Comp>)
      returns (amnt: int, second: Option<Comp>, mcop: Option<Comp>)
      requires Grouped(master, sg, members) && |members| > 0
      requires heap.Valid() && heap.e == 1 && |members| <= heap.data.Length
      modifies this, heap, heap.data
      ensures heap.Valid() && heap.e == 1 && members[0] in master
      ensures mcop.None? ==> forall c :: c in master ==> master[c] == master[members[0]]
      ensures mcop.Some? ==> second.Some? && CutOfThePhase(es, master, amnt, second.value, mcop.value)
    {
      var s := StartPhase(es, master, sg, members);
      if heap.e == 1 {
        assert heap.elems == {};
        SingleGroup(es, master, s);
        return 0, None, None;
      }
      var a, c, t := Extract(es, master, sg, s);
      return a, Some(c), Some(t);
    }
  }

  /** mc_append_lists: every member of group `b` joins the ring of `a`, right after `a`. */
  method AppendLists(master: map<Comp, Comp>, sg: map<Comp, seq<Comp>>, a: Comp, b: Comp)
    returns (master': map<Comp, Comp>, sg': map<Comp, seq<Comp>>)
    requires a in sg && |sg[a]| > 0 && sg[a][0] == a && a != b
    requires b in sg && Elements(sg[b]) == Group(master, b)
    ensures master' == Merged(master, a, b)
    ensures sg' == sg[a := JoinedRings(sg, a, b)] - {b}
  {
    var ring, joined := sg[b], sg[a];
    master' := master;
    assert sg[a] == [a] + Reverse(ring[..0]) + sg[a][1..];
    for k := 0 to |ring|
      invariant master'.Keys == master.Keys
      invariant forall c :: c in master ==> master'[c] == if c in ring[..k] then a else master[c]
      invariant joined == [a] + Reverse(ring[..k]) + sg[a][1..]
    {
      var t := ring[k];
      assert t in Elements(ring);
      ReverseTake(ring, k);
      master' := master'[t := a];
      joined := [a, t] + joined[1..];
    }
    assert ring[..|ring|] == ring;
    assert forall c :: c in ring <==> c in Elements(ring);
    sg' := sg[a := joined] - {b};
  }

  /** Record a group as the best cut: its ring `cop_next`, built by inserting after the master. */
  method CopyRing(ring: seq<Comp>) returns (cut: seq<Comp>)
    requires Distinct(ring) && ring != []
    ensures Distinct(cut) && cut != [] && Elements(cut) == Elements(ring)
  {
    cut := [ring[0]];
    for k := 1 to |ring|
      invariant |cut| > 0 && cut[0] == ring[0] && Distinct(cut)
      invariant forall c :: c in cut <==> c in ring[..k]
    {
      assert ring[k] !in ring[..k];
      cut := [ring[0], ring[k]] + cut[1..];
      assert ring[..k + 1] == ring[..k] + [ring[k]];
    }
    assert ring[..|ring|] == ring;
  }

  /** mc_prepare_data: every member is a group of its own. */
  method Prepare(members: seq<Comp>) returns (master: map<Comp, Comp>, sg: map<Comp, seq<Comp>>)
    requires Distinct(members)
    ensures Grouped(master, sg, members) && forall c :: c in master ==> master[c] == c
  {
    master, sg := map[], map[];
    for k := 0 to |members|
      invariant forall c :: c in members[..k] <==> c in master
      invariant forall c :: c in master ==> master[c] == c && c in sg && sg[c] == [c]
    {
      var t := members[k];
      sg := sg[t := [t]];
      master := master[t := t];
    }
    assert members[..|members|] == members;
    assert forall m :: m in master ==> Elements([m]) == {m} == Group(master, m);
  }

  /** What mc_find_min_cut knows between phases about the best cut seen so far. */
  ghost predicate Searching(es: seq<Edge>, members: seq<Comp>, master: map<Comp, Comp>, sg: map<Comp, seq<Comp>>,
                            cut: seq<Comp>, minCut: int)
  {
    && Grouped(master, sg, members)
    && NoneLost(es, master, minCut) && Best(es, master, cut, minCut)
  }

  /** Record the cut of the phase if it is the best so far. */
  method Record(es: seq<Edge>, master: map<Comp, Comp>, sg: map<Comp, seq<Comp>>, ghost members: seq<Comp>,
                oldCut: seq<Comp>, oldMin: int, currMc: int, second: Comp, mcop: Comp)
    returns (cut: seq<Comp>, minCut: int)
    requires Sum(es, Invocations()) < MAX_LONG && Searching(es, members, master, sg, oldCut, oldMin)
    requires CutOfThePhase(es, master, currMc, second, mcop)
    ensures cut != [] && Best(es, master, cut, minCut)
    ensures NoneLost(es, Merged(master, mcop, second), minCut)
  {
    cut, minCut := oldCut, oldMin;
    ContractLosesNone(es, master, minCut, currMc, second, mcop);
    PhaseCutIsProper(es, master, currMc, second, mcop);
    if currMc < minCut {
      assert Ring(master, sg, mcop);
      cut := CopyRing(sg[mcop]);
      minCut := currMc;
    }
  }

  /** Join the last two groups. */
  method Contract(es: seq<Edge>, master: map<Comp, Comp>, sg: map<Comp, seq<Comp>>, ghost members: seq<Comp>,
                  cut: seq<Comp>, minCut: int, second: Comp, mcop: Comp)
    returns (master': map<Comp, Comp>, sg': map<Comp, seq<Comp>>)
    requires Grouped(master, sg, members) && cut != [] && Best(es, master, cut, minCut)
    requires NoneLost(es, Merged(master, mcop, second), minCut)
    requires second in Masters(master) && mcop in Masters(master) && second != mcop
    ensures Searching(es, members, master', sg', cut, minCut)
    ensures Masters(master') == Masters(master) - {second}
  {
    assert Ring(master, sg, mcop) && Ring(master, sg, second);
    MergeKeepsGrouped(master, sg, members, mcop, second);
    MergeKeepsMasters(master, mcop, second);
    master', sg' := AppendLists(master, sg, mcop, second);
  }

  /** The rest of an iteration of mc_find_min_cut, once mc_phase has found two or more groups. */
  method EndPhase(es: seq<Edge>, ghost members: seq<Comp>, master: map<Comp, Comp>, sg: map<Comp, seq<Comp>>,
                  oldCut: seq<Comp>, oldMin: int, currMc: int, second: Comp, mcop: Comp)
    returns (cut: seq<Comp>, minCut: int, master': map<Comp, Comp>, sg': map<Comp, seq<Comp>>)
    requires Sum(es, Invocations()) < MAX_LONG && Searching(es, members, master, sg, oldCut, oldMin)
    requires CutOfThePhase(es, master, currMc, second, mcop)
    ensures Searching(es, members, master', sg', cut, minCut)
    ensures |Masters(master')| < |Masters(master)|
  {
    cut, minCut := Record(es, master, sg, members, oldCut, oldMin, currMc, second, mcop);
    master', sg' := Contract(es, master, sg, members, cut, minCut, second, mcop);
  }

  /** mc_find_min_cut on a protection domain with two or more members. */
  method FindMinCut(q: PhaseQueue, es: seq<Edge>, members: seq<Comp>) returns (cut: seq<Comp>, minCut: int)
    requires |members| >= 2 && Distinct(members) && Sum(es, Invocations()) < MAX_LONG
    requires q.heap.Valid() && q.heap.e == 1 && |members| <= q.heap.data.Length
    modifies q, q.heap, q.heap.data
    ensures q.heap.Valid() && q.heap.e == 1
    ensures Distinct(cut) && MinimumCut(es, Elements(members), Elements(cut), minCut)
  {
    var master, sg := Prepare(members);
    cut, minCut := [], MAX_LONG;
    while true
      invariant Searching(es, members, master, sg, cut, minCut) && q.heap.Valid() && q.heap.e == 1
      decreases |Masters(master)|
    {
      var currMc, second, mcop := q.Phase(es, master, sg, members);
      if mcop.None? {
        assert members[1] in Elements(members);
        SingleGroupIsDone(es, master, cut, minCut, members[0], members[1]);
        return;
      }
      cut, minCut, master, sg := EndPhase(es, members, master, sg, cut, minCut, currMc, second.value, mcop.value);
    }
  }
}
