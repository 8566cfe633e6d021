/** The component graph of mpd_policy.h: components joined by edges that count invocations. */
module Graphs {
  import opened Wrappers

  type Comp = nat
  type PdId = nat
  type PdeId = nat

  /** One `struct edge`; `master` is the pd-edge it is part of, if it crosses protection domains. */
  datatype Edge = Edge(from: Comp, to: Comp, inv: nat, master: Option<PdeId>)

  function Sum(es: seq<Edge>, f: Edge -> int): int {
    if es == [] then 0 else f(es[0]) + Sum(es[1..], f)
  }

  lemma SumEq(es: seq<Edge>, f: Edge -> int, g: Edge -> int)
    requires forall e :: e in es ==> f(e) == g(e)
    ensures Sum(es, f) == Sum(es, g)
  {
  }

  lemma SumLe(es: seq<Edge>, f: Edge -> int, g: Edge -> int)
    requires forall e :: e in es ==> f(e) <= g(e)
    ensures Sum(es, f) <= Sum(es, g)
  {
  }

  lemma SumAdd(es: seq<Edge>, f: Edge -> int, g: Edge -> int, h: Edge -> int)
    requires forall e :: e in es ==> h(e) == f(e) + g(e)
    ensures Sum(es, h) == Sum(es, f) + Sum(es, g)
  {
  }

  lemma SumNonnegative(es: seq<Edge>, f: Edge -> int)
    requires forall e :: e in es ==> 0 <= f(e)
    ensures 0 <= Sum(es, f)
  {
  }

  lemma SumAppend(es: seq<Edge>, e: Edge, f: Edge -> int)
    ensures Sum(es + [e], f) == Sum(es, f) + f(e)
  {
    if es == [] {
      assert es + [e] == [e];
    } else {
      assert (es + [e])[1..] == es[1..] + [e];
      SumAppend(es[1..], e, f);
    }
  }

  lemma SumUpdate(es: seq<Edge>, f: Edge -> int, i: nat, e: Edge)
    requires i < |es|
    ensures Sum(es[i := e], f) == Sum(es, f) - f(es[i]) + f(e)
  {
    if i > 0 {
      assert es[i := e][1..] == es[1..][i - 1 := e];
      SumUpdate(es[1..], f, i - 1, e);
    }
  }

  predicate Joins(e: Edge, a: set<Comp>, b: set<Comp>) {
    (e.from in a && e.to in b) || (e.to in a && e.from in b)
  }

  function Joining(a: set<Comp>, b: set<Comp>): Edge -> int {
    e => if Joins(e, a, b) then e.inv else 0
  }

  /** Total invocations on the edges between `a` and `b`. */
  function Between(es: seq<Edge>, a: set<Comp>, b: set<Comp>): int {
    Sum(es, Joining(a, b))
  }

  lemma BetweenSymmetric(es: seq<Edge>, a: set<Comp>, b: set<Comp>)
    ensures Between(es, a, b) == Between(es, b, a)
  {
    SumEq(es, Joining(a, b), Joining(b, a));
  }

  lemma BetweenSplit(es: seq<Edge>, a: set<Comp>, b: set<Comp>, c: set<Comp>)
    requires a !! b && a !! c && b !! c
    ensures Between(es, a + b, c) == Between(es, a, c) + Between(es, b, c)
    ensures Between(es, c, a + b) == Between(es, c, a) + Between(es, c, b)
  {
    SumAdd(es, Joining(a, c), Joining(b, c), Joining(a + b, c));
    SumAdd(es, Joining(c, a), Joining(c, b), Joining(c, a + b));
  }

  lemma BetweenMonotone(es: seq<Edge>, a: set<Comp>, b: set<Comp>, a': set<Comp>, b': set<Comp>)
    requires a <= a' && b <= b'
    ensures 0 <= Between(es, a, b) <= Between(es, a', b')
  {
    SumLe(es, Joining(a, b), Joining(a', b'));
    SumNonnegative(es, Joining(a, b));
  }

  /** The cost of keeping `s` and the rest of `m` in separate protection domains. */
  function Cut(es: seq<Edge>, m: set<Comp>, s: set<Comp>): int {
    Between(es, s, m - s)
  }
}
