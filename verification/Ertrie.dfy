/** The embedded radix trie of ertrie.h and the key-value operations of kvtrie.h, for any depth and
    any node widths.

    Nodes live in a store and refer to each other by address.  `at` gives every node the indices
    that lead to it from the root; it is only used to state what the store keeps. */
module Ertrie {
  import opened Wrappers
  import Arith

  type Addr = nat

  /** `width` is `1 << order` and `lastWidth` is `1 << last_order`. */
  datatype Params = Params(depth: nat, width: nat, lastWidth: nat)

  datatype Node<V> = Inner(next: seq<Option<Addr>>) | Last(vals: seq<Option<V>>)

  type Store<V> = map<Addr, Node<V>>

  ghost predicate Sane(p: Params) {
    p.depth >= 1 && p.width >= 1 && p.lastWidth >= 1
  }

  // ---- Identifiers as indices ----

  /** How many identifiers a node at level `i` covers. */
  function Span(p: Params, i: nat): nat
    decreases p.depth - i
  {
    if i + 1 >= p.depth then p.lastWidth else p.width * Span(p, i + 1)
  }

  function MaxId(p: Params): nat {
    Span(p, 0)
  }

  lemma {:induction false} SpanPositive(p: Params, i: nat)
    requires Sane(p)
    ensures Span(p, i) > 0
    decreases p.depth - i
  {
    if i + 1 < p.depth {
      SpanPositive(p, i + 1);
      Arith.MulLe(1, p.width, Span(p, i + 1));
    }
  }

  /** The index of `id` in a node at level `i`. */
  function Index(p: Params, id: nat, i: nat): (k: nat)
    requires Sane(p)
    ensures k < if i + 1 < p.depth then p.width else p.lastWidth
  {
    SpanPositive(p, i + 1);
    if i + 1 < p.depth then (id / Span(p, i + 1)) % p.width else id % p.lastWidth
  }

  function Power(base: nat, n: nat): nat {
    if n == 0 then 1 else base * Power(base, n - 1)
  }

  lemma {:induction false} PowerPositive(base: nat, n: nat)
    requires base > 0
    ensures Power(base, n) > 0
  {
    if n > 0 {
      PowerPositive(base, n - 1);
      Arith.MulLe(1, base, Power(base, n - 1));
    }
  }

  lemma {:induction false} SpanIs(p: Params, i: nat)
    requires Sane(p) && i < p.depth
    ensures Span(p, i) == Power(p.width, p.depth - 1 - i) * p.lastWidth
    decreases p.depth - i
  {
    if i + 1 < p.depth {
      SpanIs(p, i + 1);
      Arith.Regroup(p.width, Power(p.width, p.depth - 2 - i), p.lastWidth);
    }
  }

  /** There are as many identifiers as slots at the last level. */
  lemma MaxIdIs(p: Params)
    requires Sane(p)
    ensures MaxId(p) == Power(p.width, p.depth - 1) * p.lastWidth
  {
    SpanIs(p, 0);
  }

  /** Identifiers share a last node, and the whole path to it, if they differ only in the last index. */
  lemma SharedPath(p: Params, id: nat, id': nat, i: nat)
    requires Sane(p) && i + 1 < p.depth && id / p.lastWidth == id' / p.lastWidth
    ensures Index(p, id, i) == Index(p, id', i)
  {
    SpanIs(p, i + 1);
    PowerPositive(p.width, p.depth - 2 - i);
    SameQuotient(id, id', Power(p.width, p.depth - 2 - i), p.lastWidth, Span(p, i + 1));
  }

  lemma SameQuotient(id: nat, id': nat, k: nat, w: nat, span: nat)
    requires k > 0 && w > 0 && span == k * w && id / w == id' / w
    ensures span > 0 && id / span == id' / span
  {
    Arith.ModMul(id, k, w);
    Arith.ModMul(id', k, w);
  }

  ghost predicate SameIndices(p: Params, id: nat, id': nat, i: nat)
    requires Sane(p)
  {
    forall j: nat :: i <= j < p.depth ==> Index(p, id, j) == Index(p, id', j)
  }

  /** The indices determine the identifier. */
  lemma {:induction false} IndicesDetermine(p: Params, id: nat, id': nat, i: nat)
    requires Sane(p) && i < p.depth && SameIndices(p, id, id', i)
    ensures Span(p, i) > 0 && id % Span(p, i) == id' % Span(p, i)
    decreases p.depth - i
  {
    SpanPositive(p, i);
    assert Index(p, id, i) == Index(p, id', i);
    if i + 1 < p.depth {
      IndicesDetermine(p, id, id', i + 1);
      Arith.ModMul(id, p.width, Span(p, i + 1));
      Arith.ModMul(id', p.width, Span(p, i + 1));
    }
  }

  // ---- What the store keeps ----

  ghost predicate NodeOk<V>(p: Params, mem: Store<V>, at: map<Addr, seq<nat>>, a: Addr) {
    && a in mem && a in at && |at[a]| < p.depth
    && if |at[a]| + 1 == p.depth then mem[a].Last? && |mem[a].vals| == p.lastWidth
       else mem[a].Inner? && |mem[a].next| == p.width &&
            forall k {:trigger Leads(mem, at, a, k)} :: 0 <= k < p.width ==> Leads(mem, at, a, k)
  }

  ghost predicate Leads<V>(mem: Store<V>, at: map<Addr, seq<nat>>, a: Addr, k: int)
    requires a in mem && a in at && mem[a].Inner? && 0 <= k < |mem[a].next|
  {
    mem[a].next[k].Some? ==>
      mem[a].next[k].value in mem && mem[a].next[k].value in at && at[mem[a].next[k].value] == at[a] + [k]
  }

  ghost predicate Tree<V>(p: Params, mem: Store<V>, at: map<Addr, seq<nat>>, root: Addr) {
    && Sane(p) && root in mem && root in at && at[root] == []
    && forall a {:trigger NodeOk(p, mem, at, a)} :: a in mem ==> NodeOk(p, mem, at, a)
  }

  /** The node for `id` at level `j`, from node `a` at level `i`. */
  function Walk<V>(p: Params, mem: Store<V>, a: Addr, id: nat, i: nat, j: nat): Option<Addr>
    requires Sane(p)
    decreases j - i
  {
    if i >= j then Some(a)
    else if a in mem && mem[a].Inner? && Index(p, id, i) < |mem[a].next| && mem[a].next[Index(p, id, i)].Some? then
      Walk(p, mem, mem[a].next[Index(p, id, i)].value, id, i + 1, j)
    else None
  }

  /** The value stored for `id`. */
  function Value<V>(p: Params, mem: Store<V>, a: Addr, id: nat, i: nat): Option<V>
    requires Sane(p)
  {
    match Walk(p, mem, a, id, i, p.depth - 1)
    case None => None
    case Some(b) =>
      if b in mem && mem[b].Last? && Index(p, id, p.depth - 1) < |mem[b].vals|
      then mem[b].vals[Index(p, id, p.depth - 1)]
      else None
  }

  lemma {:induction false} WalkAt<V>(p: Params, mem: Store<V>, at: map<Addr, seq<nat>>, root: Addr, a: Addr, id: nat,
      i: nat, j: nat)
    requires Tree(p, mem, at, root) && a in mem && a in at && |at[a]| == i <= j < p.depth
    ensures var r := Walk(p, mem, a, id, i, j); r.Some? ==>
      && r.value in mem && r.value in at && |at[r.value]| == j && at[r.value][..i] == at[a]
      && forall k: nat :: i <= k < j ==> at[r.value][k] == Index(p, id, k)
    decreases j - i
  {
    if i < j {
      assert NodeOk(p, mem, at, a);
      assert Leads(mem, at, a, Index(p, id, i));
      var c := mem[a].next[Index(p, id, i)];
      if c.Some? {
        WalkAt(p, mem, at, root, c.value, id, i + 1, j);
      }
    }
  }

  /** Distinct identifiers are stored in distinct slots. */
  lemma DistinctSlots<V>(p: Params, mem: Store<V>, at: map<Addr, seq<nat>>, root: Addr, id: nat, id': nat)
    requires Tree(p, mem, at, root) && id < MaxId(p) && id' < MaxId(p) && id != id'
    requires Walk(p, mem, root, id, 0, p.depth - 1).Some?
    requires Walk(p, mem, root, id, 0, p.depth - 1) == Walk(p, mem, root, id', 0, p.depth - 1)
    ensures Index(p, id, p.depth - 1) != Index(p, id', p.depth - 1)
  {
    WalkAt(p, mem, at, root, root, id, 0, p.depth - 1);
    WalkAt(p, mem, at, root, root, id', 0, p.depth - 1);
    if Index(p, id, p.depth - 1) == Index(p, id', p.depth - 1) {
      var a := Walk(p, mem, root, id, 0, p.depth - 1).value;
      forall j: nat | j < p.depth ensures Index(p, id, j) == Index(p, id', j) {
        assert j < p.depth - 1 ==> at[a][j] == Index(p, id, j) && at[a][j] == Index(p, id', j);
      }
      IndicesDetermine(p, id, id', 0);
      Arith.DivModIs(id, MaxId(p), 0, id);
      Arith.DivModIs(id', MaxId(p), 0, id');
    }
  }

  // ---- Writing to the store ----

  function Blank<V>(p: Params, i: nat): Node<V> {
    if i + 1 == p.depth then Last(seq(p.lastWidth, _ => None)) else Inner(seq(p.width, _ => None))
  }

  function Link<V>(p: Params, mem: Store<V>, a: Addr, k: nat, b: Addr, i: nat): Store<V>
    requires a in mem && mem[a].Inner? && k < |mem[a].next|
  {
    mem[a := Inner(mem[a].next[k := Some(b)])][b := Blank(p, i + 1)]
  }

  ghost predicate Linkable<V>(p: Params, mem: Store<V>, at: map<Addr, seq<nat>>, root: Addr, a: Addr, k: nat, b: Addr) {
    && Tree(p, mem, at, root) && a in mem && a in at && |at[a]| + 1 < p.depth && b !in mem
    && mem[a].Inner? && k < |mem[a].next| && mem[a].next[k] == None
  }

  /** Hooking a blank node into an empty slot keeps the store a tree. */
  lemma LinkTree<V>(p: Params, mem: Store<V>, at: map<Addr, seq<nat>>, root: Addr, a: Addr, k: nat, b: Addr)
    requires Linkable(p, mem, at, root, a, k, b)
    ensures Tree(p, Link(p, mem, a, k, b, |at[a]|), at[b := at[a] + [k]], root)
  {
    var mem', at' := Link(p, mem, a, k, b, |at[a]|), at[b := at[a] + [k]];
    forall x | x in mem' ensures NodeOk(p, mem', at', x) {
      if x == b {
        assert at'[b] == at[a] + [k];
      } else {
        assert NodeOk(p, mem, at, x);
        if |at[x]| + 1 < p.depth {
          forall n | 0 <= n < p.width ensures Leads(mem', at', x, n) {
            assert Leads(mem, at, x, n);
          }
        }
      }
    }
  }

  /** A walk that got somewhere still gets there, and no value changes. */
  lemma {:induction false} LinkKeeps<V>(p: Params, mem: Store<V>, at: map<Addr, seq<nat>>, root: Addr, a: Addr,
                                        k: nat, b: Addr, x: Addr, id: nat, i: nat)
    requires Linkable(p, mem, at, root, a, k, b) && x in mem && x in at && |at[x]| == i < p.depth
    ensures Value(p, Link(p, mem, a, k, b, |at[a]|), x, id, i) == Value(p, mem, x, id, i)
    decreases p.depth - i
  {
    var mem' := Link(p, mem, a, k, b, |at[a]|);
    assert NodeOk(p, mem, at, x);
    if i + 1 < p.depth {
      var n := Index(p, id, i);
      assert Leads(mem, at, x, n);
      if mem[x].next[n].Some? {
        LinkKeeps(p, mem, at, root, a, k, b, mem[x].next[n].value, id, i + 1);
      } else if x == a && n == k {
        BlankValue(p, mem', b, id, i + 1);
      }
    }
  }

  lemma BlankValue<V>(p: Params, mem: Store<V>, b: Addr, id: nat, i: nat)
    requires Sane(p) && b in mem && mem[b] == Blank(p, i) && i < p.depth
    ensures Value(p, mem, b, id, i) == None
  {
  }

  lemma {:induction false} LinkWalk<V>(p: Params, mem: Store<V>, at: map<Addr, seq<nat>>, root: Addr, a: Addr,
                                       k: nat, b: Addr, x: Addr, id: nat, i: nat, j: nat)
    requires Linkable(p, mem, at, root, a, k, b) && x in mem && x in at && |at[x]| == i <= j < p.depth
    requires Walk(p, mem, x, id, i, j).Some?
    ensures Walk(p, Link(p, mem, a, k, b, |at[a]|), x, id, i, j) == Walk(p, mem, x, id, i, j)
    decreases j - i
  {
    if i < j {
      assert NodeOk(p, mem, at, x);
      var n := Index(p, id, i);
      assert Leads(mem, at, x, n);
      LinkWalk(p, mem, at, root, a, k, b, mem[x].next[n].value, id, i + 1, j);
    }
  }

  lemma {:induction false} WalkOn<V>(p: Params, mem: Store<V>, x: Addr, id: nat, i: nat, j: nat)
    requires Sane(p) && i <= j
    ensures Walk(p, mem, x, id, i, j + 1) ==
      match Walk(p, mem, x, id, i, j) case None => None case Some(a) => Walk(p, mem, a, id, j, j + 1)
    decreases j - i
  {
    if i < j && x in mem && mem[x].Inner? && Index(p, id, i) < |mem[x].next| && mem[x].next[Index(p, id, i)].Some? {
      WalkOn(p, mem, mem[x].next[Index(p, id, i)].value, id, i + 1, j);
    }
  }

  function Write<V>(mem: Store<V>, a: Addr, k: nat, v: Option<V>): Store<V>
    requires a in mem && mem[a].Last? && k < |mem[a].vals|
  {
    mem[a := Last(mem[a].vals[k := v])]
  }

  lemma WriteTree<V>(p: Params, mem: Store<V>, at: map<Addr, seq<nat>>, root: Addr, a: Addr, k: nat, v: Option<V>)
    requires Tree(p, mem, at, root) && a in mem && mem[a].Last? && k < |mem[a].vals|
    ensures Tree(p, Write(mem, a, k, v), at, root)
  {
    var mem' := Write(mem, a, k, v);
    forall x | x in mem' ensures NodeOk(p, mem', at, x) {
      assert NodeOk(p, mem, at, x);
      if |at[x]| + 1 < p.depth {
        forall n | 0 <= n < p.width ensures Leads(mem', at, x, n) {
          assert Leads(mem, at, x, n);
        }
      }
    }
  }

  lemma {:induction false} WriteWalk<V>(p: Params, mem: Store<V>, a: Addr, k: nat, v: Option<V>, x: Addr, id: nat,
      i: nat, j: nat)
    requires Sane(p) && a in mem && mem[a].Last? && k < |mem[a].vals|
    ensures Walk(p, Write(mem, a, k, v), x, id, i, j) == Walk(p, mem, x, id, i, j)
    decreases j - i
  {
    if i < j && x in mem && mem[x].Inner? && Index(p, id, i) < |mem[x].next| && mem[x].next[Index(p, id, i)].Some? {
      WriteWalk(p, mem, a, k, v, mem[x].next[Index(p, id, i)].value, id, i + 1, j);
    }
  }

  /** Writing the slot of `id` changes the value of `id` and of nothing else. */
  lemma WriteKeeps<V>(p: Params, mem: Store<V>, at: map<Addr, seq<nat>>, root: Addr, id: nat, a: Addr, v: Option<V>,
      id': nat)
    requires Tree(p, mem, at, root) && id < MaxId(p) && id' < MaxId(p)
    requires Walk(p, mem, root, id, 0, p.depth - 1) == Some(a)
    ensures a in mem && mem[a].Last? && Index(p, id, p.depth - 1) < |mem[a].vals|
    ensures Value(p, Write(mem, a, Index(p, id, p.depth - 1), v), root, id', 0) ==
      if id' == id then v else Value(p, mem, root, id', 0)
  {
    WalkAt(p, mem, at, root, root, id, 0, p.depth - 1);
    assert NodeOk(p, mem, at, a);
    WriteWalk(p, mem, a, Index(p, id, p.depth - 1), v, root, id', 0, p.depth - 1);
    if id' != id && Walk(p, mem, root, id', 0, p.depth - 1) == Some(a) {
      DistinctSlots(p, mem, at, root, id, id');
    }
  }

  // ---- Operations ----

  ghost predicate SameValues<V>(p: Params, mem: Store<V>, mem': Store<V>, root: Addr)
    requires Sane(p)
  {
    forall id: nat {:trigger Value(p, mem', root, id, 0)} :: Value(p, mem', root, id, 0) == Value(p, mem, root, id, 0)
  }

  ghost predicate Below<V>(mem: Store<V>, next: Addr) {
    forall a :: a in mem ==> a < next
  }

  method InitNode<V>(p: Params, i: nat) returns (n: Node<V>)
    ensures n == Blank(p, i)
  {
    if i + 1 == p.depth {
      var vals: seq<Option<V>> := [];
      while |vals| < p.lastWidth
        invariant |vals| <= p.lastWidth && forall j :: 0 <= j < |vals| ==> vals[j] == None
      {
        vals := vals + [None];
      }
      n := Last(vals);
    } else {
      var next: seq<Option<Addr>> := [];
      while |next| < p.width
        invariant |next| <= p.width && forall j :: 0 <= j < |next| ==> next[j] == None
      {
        next := next + [None];
      }
      n := Inner(next);
    }
  }

  method LookupIn<V>(p: Params, mem: Store<V>, root: Addr, id: nat,
      ghost at: map<Addr, seq<nat>>) returns (r: Option<V>)
    requires Tree(p, mem, at, root)
    ensures r == Value(p, mem, root, id, 0)
  {
    var a, i := root, 0;
    while i + 1 < p.depth
      invariant i < p.depth && a in mem && a in at && |at[a]| == i
      invariant Walk(p, mem, root, id, 0, p.depth - 1) == Walk(p, mem, a, id, i, p.depth - 1)
    {
      assert NodeOk(p, mem, at, a) && Leads(mem, at, a, Index(p, id, i));
      var c := mem[a].next[Index(p, id, i)];
      if c.None? {
        return None;
      }
      a, i := c.value, i + 1;
    }
    assert NodeOk(p, mem, at, a);
    r := mem[a].vals[Index(p, id, i)];
  }

  /** How many nodes the path of `id` lacks between node `a` at level `i` and level `j`. */
  function Missing<V>(p: Params, mem: Store<V>, a: Addr, id: nat, i: nat, j: nat): nat
    requires Sane(p)
    decreases j - i
  {
    if i >= j then 0
    else if a in mem && mem[a].Inner? && Index(p, id, i) < |mem[a].next| && mem[a].next[Index(p, id, i)].Some? then
      Missing(p, mem, mem[a].next[Index(p, id, i)].value, id, i + 1, j)
    else j - i
  }

  /** An empty trie lacks every node but the root. */
  lemma BlankMissing<V>(p: Params, mem: Store<V>, a: Addr, id: nat, i: nat, j: nat)
    requires Sane(p) && a in mem && mem[a] == Blank(p, i) && i <= j < p.depth
    ensures Missing(p, mem, a, id, i, j) == j - i
  {
  }

  /** A stored value lacks no node. */
  lemma {:induction false} ReachedMissing<V>(p: Params, mem: Store<V>, a: Addr, id: nat, i: nat, j: nat)
    requires Sane(p)
    ensures Missing(p, mem, a, id, i, j) == 0 <==> Walk(p, mem, a, id, i, j).Some?
    decreases j - i
  {
    if i < j && a in mem && mem[a].Inner? && Index(p, id, i) < |mem[a].next| && mem[a].next[Index(p, id, i)].Some? {
      ReachedMissing(p, mem, mem[a].next[Index(p, id, i)].value, id, i + 1, j);
    }
  }

  /** One step of the expansion, at a slot that is still empty. */
  method Hook<V>(p: Params, mem: Store<V>, root: Addr, id: nat, a: Addr, i: nat, next: Addr,
      ghost at: map<Addr, seq<nat>>)
      returns (mem': Store<V>, ghost at': map<Addr, seq<nat>>)
    requires Tree(p, mem, at, root) && Below(mem, next) && a in mem && a in at && |at[a]| == i && i + 1 < p.depth
    requires mem[a].Inner? && Index(p, id, i) < |mem[a].next| && mem[a].next[Index(p, id, i)] == None
    requires Walk(p, mem, root, id, 0, i) == Some(a)
    ensures Tree(p, mem', at', root) && Below(mem', next + 1) && SameValues(p, mem, mem', root)
    ensures next in mem' && next in at' && |at'[next]| == i + 1 && Walk(p, mem', root, id, 0, i + 1) == Some(next)
    ensures mem'[next] == Blank(p, i + 1)
  {
    var k := Index(p, id, i);
    var n := InitNode(p, i + 1);
    mem', at' := mem[a := Inner(mem[a].next[k := Some(next)])][next := n], at[next := at[a] + [k]];
    assert mem' == Link(p, mem, a, k, next, i);
    LinkTree(p, mem, at, root, a, k, next);
    forall id': nat ensures Value(p, mem', root, id', 0) == Value(p, mem, root, id', 0) {
      LinkKeeps(p, mem, at, root, a, k, next, root, id', 0);
    }
    LinkWalk(p, mem, at, root, a, k, next, root, id, 0, i);
    WalkOn(p, mem', root, id, 0, i);
  }

  /** Allocates the nodes on the path of `id` down to level `limit - 1`. */
  method ExpandPath<V>(p: Params, mem: Store<V>, root: Addr, id: nat, limit: nat, next: Addr, budget: nat,
      ghost at: map<Addr, seq<nat>>)
      returns (ok: bool, mem': Store<V>, a: Addr, next': Addr, budget': nat, ghost at': map<Addr, seq<nat>>)
    requires Tree(p, mem, at, root) && Below(mem, next) && 1 <= limit <= p.depth
    ensures Tree(p, mem', at', root) && Below(mem', next') && SameValues(p, mem, mem', root)
    ensures ok ==> Walk(p, mem', root, id, 0, limit - 1) == Some(a)
    ensures !ok ==> Walk(p, mem', root, id, 0, limit - 1) == None
    ensures ok <==> budget >= Missing(p, mem, root, id, 0, limit - 1)
    ensures budget' == if ok then budget - Missing(p, mem, root, id, 0, limit - 1) else 0
  {
    mem', at', a, next', budget' := mem, at, root, next, budget;
    var i := 0;
    while i + 1 < limit
      invariant i < limit
      invariant Tree(p, mem', at', root) && Below(mem', next') && SameValues(p, mem, mem', root)
      invariant a in mem' && a in at' && |at'[a]| == i && Walk(p, mem', root, id, 0, i) == Some(a)
      invariant budget - Missing(p, mem, root, id, 0, limit - 1) == budget' - Missing(p, mem', a, id, i, limit - 1)
    {
      assert NodeOk(p, mem', at', a) && Leads(mem', at', a, Index(p, id, i));
      WalkOn(p, mem', root, id, 0, i);
      var c := mem'[a].next[Index(p, id, i)];
      if c.Some? {
        a := c.value;
      } else {
        if budget' == 0 {
          WalkNowhere(p, mem', root, id, i + 1, limit - 1);
          return false, mem', a, next', budget', at';
        }
        mem', at' := Hook(p, mem', root, id, a, i, next', at');
        a, next', budget' := next', next' + 1, budget' - 1;
      }
      i := i + 1;
    }
    ok := true;
  }

  lemma {:induction false} WalkNowhere<V>(p: Params, mem: Store<V>, root: Addr, id: nat, i: nat, j: nat)
    requires Sane(p) && i <= j && Walk(p, mem, root, id, 0, i) == None
    ensures Walk(p, mem, root, id, 0, j) == None
    decreases j - i
  {
    if i < j {
      WalkOn(p, mem, root, id, 0, i);
      WalkNowhere(p, mem, root, id, i + 1, j);
    }
  }

  /** `mem'` differs from `mem` at most in the value of `id`. */
  ghost predicate OnlyChanges<V>(p: Params, mem: Store<V>, mem': Store<V>, root: Addr, id: nat)
    requires Sane(p)
  {
    forall id': nat {:trigger Value(p, mem', root, id', 0)} ::
      id' < MaxId(p) && id' != id ==> Value(p, mem', root, id', 0) == Value(p, mem, root, id', 0)
  }

  /** Sets the leaf of `id`, unless that would overwrite a value with another. */
  method SetLeaf<V>(p: Params, mem: Store<V>, root: Addr, id: nat, a: Addr, data: Option<V>,
      ghost at: map<Addr, seq<nat>>)
      returns (mem': Store<V>, done: bool)
    requires Tree(p, mem, at, root) && id < MaxId(p) && Walk(p, mem, root, id, 0, p.depth - 1) == Some(a)
    ensures Tree(p, mem', at, root) && mem'.Keys == mem.Keys && OnlyChanges(p, mem, mem', root, id)
    ensures done <==> data.None? || Value(p, mem, root, id, 0).None?
    ensures done ==> Value(p, mem', root, id, 0) == data
    ensures !done ==> mem' == mem
  {
    WriteKeeps(p, mem, at, root, id, a, data, id);
    var k := Index(p, id, p.depth - 1);
    if data.Some? && mem[a].vals[k].Some? {
      return mem, false;
    }
    mem', done := mem[a := Last(mem[a].vals[k := data])], true;
    assert mem' == Write(mem, a, k, data);
    WriteTree(p, mem, at, root, a, k, data);
    forall id': nat | id' < MaxId(p) && id' != id ensures Value(p, mem', root, id', 0) == Value(p, mem, root, id', 0) {
      WriteKeeps(p, mem, at, root, id, a, data, id');
    }
  }

  /** A trie from identifiers to values; `budget` is how many nodes can still be allocated. */
  class KvTrie<V> {
    const p: Params
    const root: Addr
    var mem: Store<V>
    var next: Addr
    var budget: nat
    ghost var at: map<Addr, seq<nat>>

    ghost predicate Valid()
      reads this
    {
      Tree(p, mem, at, root) && Below(mem, next)
    }

    ghost function Get(id: nat): Option<V>
      requires Valid()
      reads this
    {
      Value(p, mem, root, id, 0)
    }

    /** The nodes that expanding the path of `id` to depth `dlimit` has to allocate. */
    ghost function Lacking(id: nat, dlimit: nat): nat
      requires Valid() && 1 <= dlimit
      reads this
    {
      Missing(p, mem, root, id, 0, (if dlimit < p.depth then dlimit else p.depth) - 1)
    }

    constructor (p: Params, budget: nat)
      requires Sane(p)
      ensures Valid() && this.p == p && this.budget == budget
      ensures forall id: nat :: Get(id) == None && Lacking(id, p.depth) == p.depth - 1
    {
      this.p, this.budget, root, next := p, budget, 0, 1;
      var n := InitNode(p, 0);
      mem, at := map[0 := n], map[0 := []];
      new;
      assert NodeOk(p, mem, at, 0);
      forall id: nat ensures Get(id) == None && Lacking(id, p.depth) == p.depth - 1 {
        BlankValue(p, mem, 0, id, 0);
        BlankMissing(p, mem, 0, id, 0, p.depth - 1);
      }
    }

    method Lookup(id: nat) returns (r: Option<V>)
      requires Valid() && id < MaxId(p)
      ensures r == Get(id)
    {
      r := LookupIn(p, mem, root, id, at);
    }

    method Expand(id: nat, dlimit: nat, data: Option<V>) returns (ret: int)
      requires Valid() && id < MaxId(p) && 1 <= dlimit <= p.depth + 1
      modifies this
      ensures Valid() && OnlyChanges(p, old(mem), mem, root, id)
      ensures ret == 1 <==> dlimit == p.depth + 1 && data.Some? && old(Get(id)).Some?
      ensures ret == -1 <==> old(budget) < old(Lacking(id, dlimit))
      ensures ret == -1 ==> old(Get(id)) == None
      ensures ret == -1 || ret == 0 || ret == 1
      ensures budget == if ret == -1 then 0 else old(budget) - old(Lacking(id, dlimit))
      ensures Get(id) == if ret == 0 && dlimit == p.depth + 1 then data else old(Get(id))
    {
      var limit := if dlimit < p.depth then dlimit else p.depth;
      var ok, a;
      ghost var mem0 := mem;
      ok, mem, a, next, budget, at := ExpandPath(p, mem, root, id, limit, next, budget, at);
      assert Value(p, mem, root, id, 0) == Value(p, mem0, root, id, 0);
      if !ok {
        WalkNowhere(p, mem, root, id, limit - 1, p.depth - 1);
        return -1;
      }
      ret := 0;
      if dlimit == p.depth + 1 {
        var done;
        mem, done := SetLeaf(p, mem, root, id, a, data, at);
        ret := if done then 0 else 1;
      }
    }

    /** Fails with 1 exactly if `id` is present.  Otherwise the value is found again, as the source
        asserts, exactly if memory suffices for the nodes that the path of `id` lacks. */
    method Add(id: nat, val: V) returns (ret: int)
      requires Valid() && id < MaxId(p)
      modifies this
      ensures Valid() && OnlyChanges(p, old(mem), mem, root, id)
      ensures ret == 1 <==> old(Get(id)).Some?
      ensures ret == -1 <==> old(Get(id)).None? && old(budget) < old(Lacking(id, p.depth))
      ensures ret == -1 || ret == 0 || ret == 1
      ensures Get(id) == if ret == 0 then Some(val) else old(Get(id))
    {
      var present := Lookup(id);
      if present.Some? {
        return 1;
      }
      ret := Expand(id, p.depth + 1, Some(val));
    }

    method Del(id: nat) returns (ret: int)
      requires Valid() && id < MaxId(p)
      modifies this
      ensures Valid() && OnlyChanges(p, old(mem), mem, root, id) && Get(id) == None && ret == 0
    {
      var _ := Expand(id, p.depth + 1, None);
      ret := 0;
    }
  }

  /** Two levels and no memory for the second: the addition fails and the value is not found, so the
      closing assertion of the source does not hold. */
  method AddWithoutMemory(val: int) returns (ret: int, found: Option<int>)
    ensures ret == -1 && found == None
  {
    var p := Params(2, 2, 2);
    assert Span(p, 1) == 2 && MaxId(p) == 4;
    var t := new KvTrie<int>(p, 0);
    assert t.Get(1) == None && t.Lacking(1, p.depth) == 1;
    ret := t.Add(1, val);
    found := t.Lookup(1);
  }
}
