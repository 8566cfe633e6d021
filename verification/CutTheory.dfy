/** Why the algorithm of mpd_policy.h finds minimum cuts ("A Simple Min-Cut Algorithm",
    Stoer and Wagner), over arbitrary edges and an arbitrary grouping of the components. */
module CutTheory {
  import opened Graphs

  /** The components of the first `i` groups. */
  function Prefix(gs: seq<set<Comp>>, i: nat): set<Comp>
    requires i <= |gs|
  {
    if i == 0 then {} else Prefix(gs, i - 1) + gs[i - 1]
  }

  ghost predicate Partition(gs: seq<set<Comp>>) {
    && (forall i :: 0 <= i < |gs| ==> gs[i] != {})
    && (forall i, j :: 0 <= i < j < |gs| ==> gs[i] !! gs[j])
  }

  /** Each group, when it was taken, was at least as connected to the groups taken before it
      as any group taken later. */
  ghost predicate MostConnectedFirst(es: seq<Edge>, gs: seq<set<Comp>>) {
    forall i: nat, j: nat :: 1 <= i <= j < |gs| ==> NotBeaten(es, gs, i, j)
  }

  ghost predicate NotBeaten(es: seq<Edge>, gs: seq<set<Comp>>, i: nat, j: nat)
    requires i < |gs| && j < |gs|
  {
    Between(es, Prefix(gs, i), gs[j]) <= Between(es, Prefix(gs, i), gs[i])
  }

  /** `s` does not cut through any group. */
  ghost predicate Respects(gs: seq<set<Comp>>, s: set<Comp>) {
    forall i :: 0 <= i < |gs| ==> gs[i] <= s || gs[i] !! s
  }

  lemma PrefixDisjoint(gs: seq<set<Comp>>, i: nat, j: nat)
    requires Partition(gs) && i <= j < |gs|
    ensures Prefix(gs, i) !! gs[j]
  {
  }

  /** The part of `a` on the same side of `s` as the group `x`. */
  function Near(a: set<Comp>, s: set<Comp>, x: set<Comp>): set<Comp> {
    if x <= s then a * s else a - s
  }

  function Far(a: set<Comp>, s: set<Comp>, x: set<Comp>): set<Comp> {
    if x <= s then a - s else a * s
  }

  lemma NearFar(es: seq<Edge>, a: set<Comp>, s: set<Comp>, x: set<Comp>)
    requires a !! x
    ensures Between(es, a, x) == Between(es, Near(a, s, x), x) + Between(es, Far(a, s, x), x)
  {
    assert a == Near(a, s, x) + Far(a, s, x);
    BetweenSplit(es, Near(a, s, x), Far(a, s, x), x);
  }

  /** Adding a group to a prefix adds to its cut exactly the weight to the other side. */
  lemma CutGrows(es: seq<Edge>, a: set<Comp>, s: set<Comp>, x: set<Comp>)
    requires a !! x && (x <= s || x !! s)
    ensures Between(es, (a + x) * s, (a + x) - s) == Between(es, a * s, a - s) + Between(es, Far(a, s, x), x)
  {
    if x <= s {
      assert (a + x) * s == a * s + x && (a + x) - s == a - s;
      BetweenSplit(es, a * s, x, a - s);
      BetweenSymmetric(es, x, a - s);
    } else {
      assert (a + x) * s == a * s && (a + x) - s == (a - s) + x;
      BetweenSplit(es, a - s, x, a * s);
    }
  }

  lemma BetweenEmpty(es: seq<Edge>, x: set<Comp>)
    ensures Between(es, {}, x) == 0
  {
    SumEq(es, Joining({}, x), Joining({}, {}));
    SumAdd(es, Joining({}, {}), Joining({}, {}), Joining({}, {}));
  }

  /** When the last group taken changes side, its own bound carries over to the groups it left. */
  lemma SideSwitch(es: seq<Edge>, a: set<Comp>, s: set<Comp>, y: set<Comp>, x: set<Comp>)
    requires a !! y && a !! x && (y <= s) != (x <= s)
    requires Between(es, a, x) <= Between(es, a, y)
    requires Between(es, Near(a, s, y), y) <= Between(es, a * s, a - s)
    ensures Between(es, Near(a, s, x), x) <= Between(es, a * s, a - s) + Between(es, Far(a, s, y), y)
  {
    NearFar(es, a, s, y);
    BetweenMonotone(es, Near(a, s, x), x, a, x);
  }

  lemma NearSkips(a: set<Comp>, s: set<Comp>, y: set<Comp>, x: set<Comp>)
    requires (y <= s || y !! s) && (x <= s || x !! s) && (y <= s) != (x <= s)
    ensures Near(a + y, s, x) == Near(a, s, x)
  {
  }

  /** The heart of the argument: a group not yet taken, on the other side of `s` from the group
      taken last, is joined to its own side of the prefix by no more than the prefix's cut. */
  lemma {:induction false} NearSideBound(es: seq<Edge>, gs: seq<set<Comp>>, s: set<Comp>, i: nat, x: nat)
    requires Partition(gs) && MostConnectedFirst(es, gs) && Respects(gs, s)
    requires 1 <= i <= x < |gs| && (gs[i - 1] <= s) != (gs[x] <= s)
    ensures Between(es, Near(Prefix(gs, i), s, gs[x]), gs[x]) <= Between(es, Prefix(gs, i) * s, Prefix(gs, i) - s)
  {
    var a, y := Prefix(gs, i - 1), gs[i - 1];
    PrefixDisjoint(gs, i - 1, i - 1);
    PrefixDisjoint(gs, i - 1, x);
    NearSkips(a, s, y, gs[x]);
    CutGrows(es, a, s, y);
    if i == 1 {
      assert a == {} && Near(a, s, gs[x]) == {};
      BetweenEmpty(es, gs[x]);
      BetweenMonotone(es, {}, {}, Prefix(gs, i) * s, Prefix(gs, i) - s);
    } else if (gs[i - 2] <= s) != (gs[x] <= s) {
      NearSideBound(es, gs, s, i - 1, x);
      BetweenMonotone(es, {}, {}, Far(a, s, y), y);
    } else {
      NearSideBound(es, gs, s, i - 1, i - 1);
      assert NotBeaten(es, gs, i - 1, x);
      SideSwitch(es, a, s, y, gs[x]);
    }
  }

  /** The cut of the phase is minimum among all cuts that separate the last two groups. */
  lemma CutOfPhase(es: seq<Edge>, gs: seq<set<Comp>>, s: set<Comp>)
    requires Partition(gs) && MostConnectedFirst(es, gs) && Respects(gs, s)
    requires |gs| >= 2 && (gs[|gs| - 2] <= s) != (gs[|gs| - 1] <= s)
    ensures Between(es, Prefix(gs, |gs| - 1), gs[|gs| - 1]) <= Cut(es, Prefix(gs, |gs|), Prefix(gs, |gs|) * s)
  {
    var n := |gs| - 1;
    var a, x := Prefix(gs, n), gs[n];
    PrefixDisjoint(gs, n, n);
    NearSideBound(es, gs, s, n, n);
    NearFar(es, a, s, x);
    CutGrows(es, a, s, x);
    assert (a + x) - (a + x) * s == (a + x) - s;
  }
}
