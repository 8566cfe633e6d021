/** The cache of ccv_cache.c: a byte budget kept over the radix tree of `CcvTrie` by evicting the
    entries that were put longest ago.

    Nodes are values here, so a write through a node pointer is a `Graft` at that node's depth.
    Values are never null.  `freed` records the calls of the free functions, and the history what
    became of every value. */
module CcvCache {
  import opened Wrappers
  import opened CcvTrie

  // ---- Writing through a node pointer ----

  /** The tree with the node at depth `j` on the path of `s` overwritten. */
  function Graft<V>(n: Node<V>, s: Sign, i: nat, j: nat, new': Node<V>): Node<V>
    decreases n
  {
    if i >= j || n.Leaf? || !HasKid(n, Digit(s, i)) then new'
    else WithKid(n, Digit(s, i), Graft(Kid(n, Digit(s, i)), s, i + 1, j, new'), n.minAge)
  }

  lemma {:induction false} GraftPut<V>(n: Node<V>, s: Sign, e: Entry<V>, i: nat)
    requires Puttable(n, s, i)
    ensures var f := Seek(n, s, i).value;
      f.depth >= i && PutIn(n, s, e, i) == Graft(n, s, i, f.depth, Rewritten(f.node, s, e, f.depth))
    decreases n
  {
    if !(n.Leaf? || !HasKid(n, Digit(s, i))) {
      GraftPut(Kid(n, Digit(s, i)), s, e, i + 1);
    }
  }

  /** Where the walk of a removal ends: the last branch, its depth, and the depth of the uncle, the
      last branch met whose parent has other children (`u` if there is none). */
  function Trace<V>(n: Node<V>, s: Sign, i: nat, u: nat): (Node<V>, nat, nat)
    requires n.Branch?
    decreases n
  {
    if !HasKid(n, Digit(s, i)) || Kid(n, Digit(s, i)).Leaf? then (n, i, u)
    else Trace(Kid(n, Digit(s, i)), s, i + 1, if |n.kids| > 1 then i + 1 else u)
  }

  function Remains<V>(r: Removal<V>): Node<V> {
    match r case Kept(n) => n case Collapsed(t) => t
  }

  /** The tree after a removal, as the two writes of the code leave it. */
  lemma {:induction false} GraftOut<V>(n: Node<V>, m: map<Sign, Entry<V>>, s: Sign, i: nat, u: nat)
    requires n.Branch? && Shape(n, m, i) && s in m && u <= i
    ensures var (p, j, v) := Trace(n, s, i, u);
      && i <= j <= 8 && (v == u || i < v <= j)
      && p.Branch? && 2 <= |p.kids| && Rank(p.bitmap, Digit(s, j)) < |p.kids|
      && OutIn(n, s, i, m) ==
         match Unhook(p, Digit(s, j))
         case Kept(q) => Kept(Graft(n, s, i, j, q))
         case Collapsed(t) => if v <= i then Collapsed(t) else Kept(Graft(n, s, i, v, t))
    decreases n
  {
    var x := Digit(s, i);
    assert KidShape(n, m, i, x);
    SlotIsRank(n, m, i, x);
    if Kid(n, x).Branch? {
      GraftOut(Kid(n, x), Under(m, i, x), s, i + 1, if |n.kids| > 1 then i + 1 else u);
    }
  }

  // ---- The walks ----

  method SeekNode<V>(origin: Node<V>, s: Sign, ghost m: map<Sign, Entry<V>>) returns (branch: Node<V>, depth: nat)
    requires Shape(origin, m, 0)
    ensures Seek(origin, s, 0) == Some(Found(branch, depth))
  {
    FindIsLookup(origin, m, s, 0);
    branch, depth := origin, 0;
    while depth < 10
      invariant depth <= 10
      invariant Seek(origin, s, 0) == Seek(branch, s, depth) != None
    {
      if branch.Leaf? || !HasKid(branch, Digit(s, depth)) {
        return;
      }
      branch := Kid(branch, Digit(s, depth));
      depth := depth + 1;
    }
  }

  method OldestAge<V>(kids: seq<Node<V>>) returns (a: nat)
    requires |kids| > 0
    ensures a == MinAge(kids)
  {
    a := AgeOf(kids[0]);
    var j := 1;
    assert kids[..1] == [kids[0]];
    while j < |kids|
      invariant 1 <= j <= |kids|
      invariant a == MinAge(kids[..j])
    {
      assert kids[..j + 1][..j] == kids[..j];
      if AgeOf(kids[j]) < a {
        a := AgeOf(kids[j]);
      }
      j := j + 1;
    }
    assert kids[..|kids|] == kids;
  }

  ghost predicate Path<V>(crumbs: seq<Node<V>>, s: Sign) {
    forall k :: 0 <= k < |crumbs| - 1 ==>
      && crumbs[k].Branch? && HasKid(crumbs[k], Digit(s, k))
      && Kid(crumbs[k], Digit(s, k)) == crumbs[k + 1]
  }

  /** Ages along the path of `s`: a walk down that leaves breadcrumbs, then up again. */
  method Aging<V>(origin: Node<V>, s: Sign, ghost m: map<Sign, Entry<V>>) returns (n: Node<V>)
    requires Shape(origin, m, 0)
    ensures n == AgeIn(origin, s, 0)
  {
    var crumbs, i := Breadcrumbs(origin, s, m);
    n := crumbs[i];
    if n.Branch? {
      var a := OldestAge(n.kids);
      n := n.(minAge := a);
    }
    while i > 0
      invariant 0 <= i < |crumbs|
      invariant n == AgeIn(crumbs[i], s, i)
    {
      i := i - 1;
      var c, x := crumbs[i], Digit(s, i);
      var a := OldestAge(c.kids[Slot(c, x) := n]);
      n := WithKid(c, x, n, a);
    }
  }

  method Breadcrumbs<V>(origin: Node<V>, s: Sign, ghost m: map<Sign, Entry<V>>) returns (crumbs: seq<Node<V>>, i: nat)
    requires Shape(origin, m, 0)
    ensures |crumbs| == i + 1 && crumbs[0] == origin && Path(crumbs, s)
    ensures crumbs[i].Branch? ==> |crumbs[i].kids| > 0 && !HasKid(crumbs[i], Digit(s, i))
  {
    var branch := origin;
    ghost var mm := m;
    crumbs, i := [origin], 0;
    while i < 10
      invariant i <= 9 && |crumbs| == i + 1 && crumbs[i] == branch && crumbs[0] == origin
      invariant Shape(branch, mm, i)
      invariant Path(crumbs, s)
    {
      if branch.Leaf? || !HasKid(branch, Digit(s, i)) {
        return;
      }
      assert KidShape(branch, mm, i, Digit(s, i)) by {
        SlotIsRank(branch, mm, i, Digit(s, i));
      }
      mm := Under(mm, i, Digit(s, i));
      branch := Kid(branch, Digit(s, i));
      i := i + 1;
      crumbs := crumbs + [branch];
    }
  }

  /** The walk of an eviction: always into the first child with the smallest age. */
  method OldestSign<V>(origin: Node<V>, ghost m: map<Sign, Entry<V>>) returns (s: Sign)
    requires Shape(origin, m, 0) && Aged(origin)
    ensures s in m && forall t :: t in m ==> m[s].age <= m[t].age
  {
    var branch, minAge, i := origin, AgeOf(origin), 0;
    ghost var mm := m;
    ghost var _ := AgeIsMin(origin, m, 0);
    while i < 10
      invariant i <= 9 && Shape(branch, mm, i) && Aged(branch) && AgeOf(branch) == minAge
      invariant forall t :: t in mm ==> t in m && mm[t] == m[t]
    {
      if branch.Leaf? {
        return branch.sign;
      }
      var j := FirstOfAge(branch.kids, minAge);
      ghost var x := DigitAt(branch.bitmap, j, 64);
      assert KidShape(branch, mm, i, x) && Slot(branch, x) == j by {
        SlotIsRank(branch, mm, i, x);
      }
      mm := Under(mm, i, x);
      branch := branch.kids[j];
      i := i + 1;
    }
  }

  method FirstOfAge<V>(kids: seq<Node<V>>, minAge: nat) returns (j: nat)
    requires |kids| > 0 && minAge == MinAge(kids)
    ensures j < |kids| && AgeOf(kids[j]) == minAge
  {
    MinAgeIs(kids, minAge);
    j := 0;
    while AgeOf(kids[j]) != minAge
      invariant j < |kids|
      invariant forall i :: 0 <= i < j ==> AgeOf(kids[i]) != minAge
      decreases |kids| - j
    {
      assert AgeOf(kids[j]) >= minAge;
      j := j + 1;
    }
  }

  /** The walk of a removal. */
  method TraceLeaf<V>(origin: Node<V>, s: Sign, ghost m: map<Sign, Entry<V>>)
      returns (found: bool, leaf: Node<V>, parent: Node<V>, depth: nat, uncle: nat)
    requires Shape(origin, m, 0) && origin.Branch?
    ensures found <==> s in m
    ensures found ==> (parent, depth, uncle) == Trace(origin, s, 0, 0) && leaf == Leaf(s, m[s])
  {
    FindIsLookup(origin, m, s, 0);
    parent, depth, uncle, leaf, found := origin, 0, 0, origin, false;
    while depth < 10
      invariant depth <= 10 && parent.Branch?
      invariant Seek(origin, s, 0) == Seek(parent, s, depth) != None
      invariant Trace(origin, s, 0, 0) == Trace(parent, s, depth, uncle)
      decreases 10 - depth
    {
      if !HasKid(parent, Digit(s, depth)) {
        return;
      }
      leaf := Kid(parent, Digit(s, depth));
      if leaf.Leaf? {
        found := leaf.sign == s;
        return;
      }
      if |parent.kids| > 1 {
        uncle := depth + 1;
      }
      parent, depth := leaf, depth + 1;
    }
  }

  // ---- The writes ----

  method RemoveLeaf<V>(origin: Node<V>, s: Sign, ghost m: map<Sign, Entry<V>>)
      returns (found: bool, leaf: Node<V>, n: Node<V>)
    requires Shape(origin, m, 0) && Aged(origin) && origin.Branch?
    ensures found <==> s in m
    ensures found ==> leaf == Leaf(s, m[s]) && Shape(n, m - {s}, 0) && Aged(n)
    ensures !found ==> n == origin
  {
    var parent, depth, uncle;
    found, leaf, parent, depth, uncle := TraceLeaf(origin, s, m);
    n := origin;
    if found {
      GraftOut(origin, m, s, 0, 0);
      OutShape(origin, m, s, 0);
      OutAgedOff(origin, m, s, 0);
      match Unhook(parent, Digit(s, depth)) {
        case Kept(p) => n := Graft(origin, s, 0, depth, p);
        case Collapsed(t) => n := Graft(origin, s, 0, uncle, t);
      }
      assert n == Remains(OutIn(origin, s, 0, m));
      AgeInAged(n, s, 0);
      AgeInShape(n, m - {s}, s, 0);
      n := Aging(n, s, m - {s});
    }
  }

  method WriteEntry<V>(origin: Node<V>, s: Sign, e: Entry<V>, ghost m: map<Sign, Entry<V>>)
      returns (replaced: Option<Entry<V>>, n: Node<V>)
    requires Shape(origin, m, 0) && Aged(origin)
    requires forall t :: t in m ==> m[t].age <= e.age
    ensures replaced == if s in m then Some(m[s]) else None
    ensures Apart(m, s, 0) ==> Shape(n, m[s := e], 0) && Aged(n)
    ensures !Apart(m, s, 0) ==> s !in m && Shadowed(n, m, s)
  {
    var branch, depth := SeekNode(origin, s, m);
    FindIsLookup(origin, m, s, 0);
    ShapePuttable(origin, m, s, 0);
    GraftPut(origin, s, e, 0);
    n := Graft(origin, s, 0, depth, Rewritten(branch, s, e, depth));
    if branch.Leaf? && branch.sign == s {
      replaced := Some(branch.entry);
      KeySeparates(origin, m, s);
      PutShape(origin, m, s, e, 0);
      PutAgedOff(origin, m, s, e, 0);
      AgeInAged(n, s, 0);
      AgeInShape(n, m[s := e], s, 0);
      n := Aging(n, s, m[s := e]);
    } else {
      replaced := None;
      NewEntry(origin, m, s, e);
    }
  }

  lemma KeySeparates<V>(n: Node<V>, m: map<Sign, Entry<V>>, s: Sign)
    requires Shape(n, m, 0) && s in m
    ensures Apart(m, s, 0)
  {
    forall t | t in m && t != s ensures !Share(s, t, 0, 9) {
      Separated(n, m, s, t, 0);
    }
  }

  lemma NewEntry<V>(n: Node<V>, m: map<Sign, Entry<V>>, s: Sign, e: Entry<V>)
    requires Shape(n, m, 0) && Aged(n) && Puttable(n, s, 0) && s !in m
    requires forall t :: t in m ==> m[t].age <= e.age
    ensures Apart(m, s, 0) ==> Shape(PutIn(n, s, e, 0), m[s := e], 0) && Aged(PutIn(n, s, e, 0))
    ensures !Apart(m, s, 0) ==> Shadowed(PutIn(n, s, e, 0), m, s)
  {
    if Apart(m, s, 0) {
      PutShape(n, m, s, e, 0);
      PutAged(n, m, s, e, 0);
    } else {
      PutShadows(n, m, s, e, PutIn(n, s, e, 0));
    }
  }

  // ---- The order of the puts ----

  /** What the cache stands for: its entries, in the order they were put. */
  datatype Record<V> = Record(sign: Sign, entry: Entry<V>)

  type Log<V> = seq<Record<V>>

  function Lookup<V>(log: Log<V>, s: Sign): Option<Entry<V>> {
    if log == [] then None
    else if log[0].sign == s then Some(log[0].entry)
    else Lookup(log[1..], s)
  }

  function Without<V>(log: Log<V>, s: Sign): Log<V> {
    if log == [] then []
    else if log[0].sign == s then log[1..]
    else [log[0]] + Without(log[1..], s)
  }

  function Sizes<V>(log: Log<V>): nat {
    if log == [] then 0 else log[0].entry.size + Sizes(log[1..])
  }

  /** Every signature occurs once, and the ages rise from above `lo` up to `hi`. */
  ghost predicate Ordered<V>(log: Log<V>, lo: nat, hi: nat)
    decreases |log|
  {
    if log == [] then lo <= hi
    else lo < log[0].entry.age && Lookup(log[1..], log[0].sign) == None && Ordered(log[1..], log[0].entry.age, hi)
  }

  ghost predicate Linked<V>(m: map<Sign, Entry<V>>, log: Log<V>) {
    forall s {:trigger Lookup(log, s)} :: Lookup(log, s) == if s in m then Some(m[s]) else None
  }

  lemma {:induction false} OrderedAges<V>(log: Log<V>, lo: nat, hi: nat, s: Sign)
    requires Ordered(log, lo, hi)
    ensures lo <= hi && (Lookup(log, s).Some? ==> lo < Lookup(log, s).value.age <= hi)
    decreases |log|
  {
    if log != [] {
      OrderedAges(log[1..], log[0].entry.age, hi, s);
    }
  }

  lemma {:induction false} OrderedWithout<V>(log: Log<V>, lo: nat, hi: nat, s: Sign)
    requires Ordered(log, lo, hi)
    ensures Ordered(Without(log, s), lo, hi)
    decreases |log|
  {
    if log != [] && log[0].sign != s {
      OrderedWithout(log[1..], log[0].entry.age, hi, s);
      LookupWithout(log[1..], log[0].entry.age, hi, s, log[0].sign);
      var rest := Without(log[1..], s);
      assert ([log[0]] + rest)[1..] == rest;
    } else if log != [] {
      OrderedFrom(log[1..], log[0].entry.age, lo, hi);
    }
  }

  lemma OrderedFrom<V>(log: Log<V>, lo: nat, lo': nat, hi: nat)
    requires Ordered(log, lo, hi) && lo' <= lo
    ensures Ordered(log, lo', hi)
  {
  }

  lemma {:induction false} LookupWithout<V>(log: Log<V>, lo: nat, hi: nat, s: Sign, t: Sign)
    requires Ordered(log, lo, hi)
    ensures Lookup(Without(log, s), t) == if t == s then None else Lookup(log, t)
    decreases |log|
  {
    if log != [] && log[0].sign != s {
      LookupWithout(log[1..], log[0].entry.age, hi, s, t);
      var rest := Without(log[1..], s);
      assert ([log[0]] + rest)[1..] == rest;
    }
  }

  lemma {:induction false} SizesWithout<V>(log: Log<V>, s: Sign)
    requires Lookup(log, s).Some?
    ensures Sizes(log) == Lookup(log, s).value.size + Sizes(Without(log, s))
    ensures |Without(log, s)| == |log| - 1
  {
    if log[0].sign != s {
      SizesWithout(log[1..], s);
      var rest := Without(log[1..], s);
      assert ([log[0]] + rest)[1..] == rest;
    }
  }

  lemma {:induction false} WithoutAbsent<V>(log: Log<V>, s: Sign)
    requires Lookup(log, s) == None
    ensures Without(log, s) == log
  {
    if log != [] {
      WithoutAbsent(log[1..], s);
    }
  }

  lemma {:induction false} Append<V>(log: Log<V>, lo: nat, hi: nat, r: Record<V>)
    requires Ordered(log, lo, hi) && Lookup(log, r.sign) == None && hi < r.entry.age
    ensures Ordered(log + [r], lo, r.entry.age)
    ensures Sizes(log + [r]) == Sizes(log) + r.entry.size
    decreases |log|
  {
    if log == [] {
      assert log + [r] == [r];
      assert [r][1..] == [];
    } else {
      Append(log[1..], log[0].entry.age, hi, r);
      assert (log + [r])[1..] == log[1..] + [r];
      LookupAppend(log[1..], r, log[0].sign);
    }
  }

  lemma {:induction false} LookupAppend<V>(log: Log<V>, r: Record<V>, t: Sign)
    ensures Lookup(log + [r], t) ==
      if Lookup(log, t).Some? then Lookup(log, t) else if t == r.sign then Some(r.entry) else None
  {
    if log == [] {
      assert log + [r] == [r];
    } else {
      LookupAppend(log[1..], r, t);
      assert (log + [r])[1..] == log[1..] + [r];
    }
  }

  // ---- What became of the values ----

  function Item<V>(e: Entry<V>): (V, nat) {
    (e.value, e.kind)
  }

  ghost function Items<V>(log: Log<V>): multiset<(V, nat)> {
    if log == [] then multiset{} else multiset{Item(log[0].entry)} + Items(log[1..])
  }

  datatype Fate<V(==)> = Fate(given: multiset<(V, nat)>, freed: multiset<(V, nat)>, handed: multiset<(V, nat)>)

  /** Every value ever put is live, was freed, or was handed back. */
  ghost predicate Balanced<V>(log: Log<V>, f: Fate<V>) {
    f.given == Items(log) + f.freed + f.handed
  }

  ghost function Put<V>(f: Fate<V>, e: Entry<V>): Fate<V> {
    f.(given := f.given + multiset{Item(e)})
  }

  ghost function Free<V>(f: Fate<V>, e: Entry<V>): Fate<V> {
    f.(freed := f.freed + multiset{Item(e)})
  }

  ghost function HandOver<V>(f: Fate<V>, e: Entry<V>): Fate<V> {
    f.(handed := f.handed + multiset{Item(e)})
  }

  lemma {:induction false} ItemsWithout<V>(log: Log<V>, s: Sign)
    requires Lookup(log, s).Some?
    ensures Items(log) == multiset{Item(Lookup(log, s).value)} + Items(Without(log, s))
  {
    if log[0].sign != s {
      ItemsWithout(log[1..], s);
      var rest := Without(log[1..], s);
      assert ([log[0]] + rest)[1..] == rest;
    }
  }

  lemma {:induction false} ItemsAppend<V>(log: Log<V>, r: Record<V>)
    ensures Items(log + [r]) == Items(log) + multiset{Item(r.entry)}
  {
    if log == [] {
      assert log + [r] == [r];
    } else {
      ItemsAppend(log[1..], r);
      assert (log + [r])[1..] == log[1..] + [r];
    }
  }

  lemma BalancedOut<V>(log: Log<V>, f: Fate<V>, s: Sign)
    requires Balanced(log, f) && Lookup(log, s).Some?
    ensures Balanced(Without(log, s), HandOver(f, Lookup(log, s).value))
    ensures Balanced(Without(log, s), Free(f, Lookup(log, s).value))
  {
    ItemsWithout(log, s);
  }

  lemma BalancedPut<V>(log: Log<V>, f: Fate<V>, r: Record<V>)
    requires Balanced(log, f)
    ensures Balanced(log + [r], Put(f, r.entry))
  {
    ItemsAppend(log, r);
  }

  // ---- The cache ----

  /** The fields of a `ccv_cache_t`, and the values passed to its free functions so far, with the type
      that selects the function. */
  datatype State<V> = State(origin: Node<V>, rnum: nat, age: nat, size: nat, freed: seq<(V, nat)>)

  ghost predicate Counted<V>(c: State<V>, log: Log<V>) {
    c.rnum == |log| && c.size == Sizes(log) && Ordered(log, 0, c.age)
  }

  ghost predicate Sound<V>(c: State<V>, m: map<Sign, Entry<V>>, log: Log<V>) {
    && Counted(c, log)
    && Linked(m, log)
    && (c.rnum > 0 ==> Shape(c.origin, m, 0) && Aged(c.origin))
  }

  lemma LoneEntry<V>(n: Node<V>, m: map<Sign, Entry<V>>, log: Log<V>, lo: nat, hi: nat)
    requires n.Leaf? && Shape(n, m, 0) && Linked(m, log) && Ordered(log, lo, hi)
    ensures log == [Record(n.sign, n.entry)]
  {
    LeafShape(n, m, 0);
    assert Lookup(log, n.sign) == Some(n.entry);
    assert Lookup(log, log[0].sign).Some?;
    assert |log| > 1 ==> Lookup(log[1..], log[1].sign).Some?;
    assert |log| > 1 && log[1].sign != log[0].sign ==> Lookup(log, log[1].sign).Some?;
  }

  lemma LinkedWithout<V>(m: map<Sign, Entry<V>>, log: Log<V>, lo: nat, hi: nat, s: Sign)
    requires Linked(m, log) && Ordered(log, lo, hi)
    ensures Linked(m - {s}, Without(log, s))
  {
    forall t ensures Lookup(Without(log, s), t) == if t in m - {s} then Some((m - {s})[t]) else None {
      LookupWithout(log, lo, hi, s, t);
      assert Lookup(log, t) == if t in m then Some(m[t]) else None;
    }
  }

  lemma OutSound<V>(c: State<V>, m: map<Sign, Entry<V>>, log: Log<V>, s: Sign, n: Node<V>, a: nat)
    requires Sound(c, m, log) && s in m
    requires c.origin.Branch? ==> Shape(n, m - {s}, 0) && Aged(n) && a == c.age
    requires c.origin.Leaf? ==> a == 1
    ensures Lookup(log, s) == Some(m[s]) && m[s].size <= c.size && c.rnum > 0
    ensures c.origin.Leaf? ==> c.rnum == 1
    ensures Sound(State(n, c.rnum - 1, a, c.size - m[s].size, c.freed), m - {s}, Without(log, s))
  {
    assert Lookup(log, s) == Some(m[s]);
    OrderedWithout(log, 0, c.age, s);
    LinkedWithout(m, log, 0, c.age, s);
    SizesWithout(log, s);
    if c.origin.Leaf? {
      LoneEntry(c.origin, m, log, 0, c.age);
    }
  }

  method TakeLeaf<V>(origin: Node<V>, age: nat, s: Sign, ghost m: map<Sign, Entry<V>>)
      returns (found: bool, leaf: Node<V>, n: Node<V>, a: nat)
    requires Shape(origin, m, 0) && Aged(origin)
    ensures found <==> s in m
    ensures found ==> leaf == Leaf(s, m[s])
    ensures origin.Branch? ==> a == age && (found ==> Shape(n, m - {s}, 0) && Aged(n))
    ensures origin.Leaf? && found ==> a == 1
    ensures !found ==> n == origin && a == age
  {
    n, a := origin, age;
    if origin.Branch? {
      found, leaf, n := RemoveLeaf(origin, s, m);
    } else {
      LeafShape(origin, m, 0);
      found, leaf := origin.sign == s, origin;
      if found {
        a := 1;
      }
    }
  }

  // ---- Operations ----

  /** What the cache is known by: the map in its tree, the log, and what became of the values. */
  datatype History<V(==)> = History(m: map<Sign, Entry<V>>, log: Log<V>, fate: Fate<V>)

  ghost predicate Good<V>(c: State<V>, h: History<V>, up: nat) {
    Sound(c, h.m, h.log) && c.size <= up && Balanced(h.log, h.fate) && multiset(c.freed) == h.fate.freed
  }

  ghost function HandedOver<V>(h: History<V>, r: Record<V>): History<V> {
    History(h.m - {r.sign}, Without(h.log, r.sign), HandOver(h.fate, r.entry))
  }

  ghost function Freed<V>(h: History<V>, r: Record<V>): History<V> {
    History(h.m - {r.sign}, Without(h.log, r.sign), Free(h.fate, r.entry))
  }

  /** A value is passed to the free function of its type. */
  function Release<V>(c: State<V>, e: Entry<V>): State<V> {
    c.(freed := c.freed + [Item(e)])
  }

  method TakeOut<V(==)>(c: State<V>, s: Sign, ghost h: History<V>, ghost up: nat)
      returns (c': State<V>, r: Option<Entry<V>>)
    requires Good(c, h, up)
    ensures r == Lookup(h.log, s)
    ensures r.None? ==> c' == c
    ensures r.Some? ==> Good(c', HandedOver(h, Record(s, r.value)), up) && c'.freed == c.freed
    ensures r.Some? ==> Good(Release(c', r.value), Freed(h, Record(s, r.value)), up)
    ensures r.Some? ==> c'.rnum < c.rnum && (c.rnum != 1 ==> c'.age == c.age)
  {
    assert Lookup(h.log, s) == if s in h.m then Some(h.m[s]) else None;
    if c.rnum == 0 {
      return c, None;
    }
    var found, leaf, n, a := TakeLeaf(c.origin, c.age, s, h.m);
    if !found {
      return c, None;
    }
    OutSound(c, h.m, h.log, s, n, a);
    BalancedOut(h.log, h.fate, s);
    r := Some(leaf.entry);
    c' := State(n, c.rnum - 1, a, c.size - leaf.entry.size, c.freed);
  }

  lemma FirstIsOldest<V>(m: map<Sign, Entry<V>>, log: Log<V>, lo: nat, hi: nat, s: Sign)
    requires Linked(m, log) && Ordered(log, lo, hi) && s in m && forall t :: t in m ==> m[s].age <= m[t].age
    ensures log != [] && log[0].sign == s
  {
    assert Lookup(log, s) == Some(m[s]);
    var o := log[0].sign;
    assert Lookup(log, o).Some?;
    OrderedAges(log[1..], log[0].entry.age, hi, s);
  }

  lemma EvictLeaf<V>(c: State<V>, h: History<V>, up: nat)
    requires Good(c, h, up) && c.rnum > 0 && c.origin.Leaf?
    ensures h.log == [Record(c.origin.sign, c.origin.entry)]
    ensures Good(Release(c.(rnum := 0, size := 0), c.origin.entry), Freed(h, h.log[0]), up)
  {
    LoneEntry(c.origin, h.m, h.log, 0, c.age);
    LinkedWithout(h.m, h.log, 0, c.age, c.origin.sign);
    BalancedOut(h.log, h.fate, c.origin.sign);
  }

  method EvictOldest<V(==)>(c: State<V>, ghost h: History<V>, ghost up: nat) returns (c': State<V>)
    requires Good(c, h, up) && c.rnum > 0
    ensures h.log != [] && Good(c', Freed(h, h.log[0]), up) && c'.rnum < c.rnum && c'.age == c.age
    ensures c'.freed == c.freed + [Item(h.log[0].entry)]
  {
    if c.origin.Leaf? {
      EvictLeaf(c, h, up);
      return Release(c.(rnum := 0, size := 0), c.origin.entry);
    }
    var s := OldestSign(c.origin, h.m);
    FirstIsOldest(h.m, h.log, 0, c.age, s);
    TwoEntries(c.origin, h.m, h.log, 0);
    var c1, r := TakeOut(c, s, h, up);
    c' := Release(c1, r.value);
  }

  lemma TwoEntries<V>(n: Node<V>, m: map<Sign, Entry<V>>, log: Log<V>, d: nat)
    requires n.Branch? && Shape(n, m, d) && Linked(m, log)
    ensures |log| > 1
  {
    var s, t := TwoSigns(n, m, d);
    assert Lookup(log, s).Some? && Lookup(log, t).Some?;
    assert log[0].sign != s ==> Lookup(log[1..], s).Some?;
    assert log[0].sign != t ==> Lookup(log[1..], t).Some?;
  }

  /** The history after evicting the first `k` entries of the log. */
  ghost function Evicted<V>(h: History<V>, k: nat): (r: History<V>)
    requires k <= |h.log|
    ensures r.log == h.log[k..] && r.fate.handed == h.fate.handed
  {
    if k == 0 then h
    else
      var g := Evicted(h, k - 1);
      Freed(g, g.log[0])
  }

  /** The values of the first `k` entries, oldest first, as they are passed to the free functions. */
  ghost function FirstItems<V>(log: Log<V>, k: nat): seq<(V, nat)>
    requires k <= |log|
  {
    if k == 0 then [] else FirstItems(log, k - 1) + [Item(log[k - 1].entry)]
  }

  /** Dropping the first `k` entries brings the size down to `limit`, and dropping fewer does not. */
  ghost predicate Fewest<V>(log: Log<V>, limit: nat, k: nat) {
    k <= |log| && Sizes(log[k..]) <= limit && (k > 0 ==> Sizes(log[k - 1..]) > limit)
  }

  /** One turn of the loop of an eviction, after `k` entries have gone. */
  method EvictNext<V(==)>(c: State<V>, ghost h: History<V>, ghost k: nat, ghost up: nat) returns (c': State<V>)
    requires k <= |h.log| && Good(c, Evicted(h, k), up) && c.size > 0
    ensures k < |h.log| && Good(c', Evicted(h, k + 1), up) && c'.rnum < c.rnum && c'.age == c.age
    ensures c'.freed == c.freed + [Item(h.log[k].entry)] && c.size == Sizes(h.log[k..])
  {
    c' := EvictOldest(c, Evicted(h, k), up);
  }

  lemma FirstItemsOn<V>(freed: seq<(V, nat)>, log: Log<V>, k: nat)
    requires k < |log|
    ensures freed + FirstItems(log, k) + [Item(log[k].entry)] == freed + FirstItems(log, k + 1)
  {
  }

  method Depleted<V(==)>(c: State<V>, limit: nat, ghost h: History<V>, ghost up: nat)
      returns (c': State<V>, ghost k: nat)
    requires Good(c, h, up)
    ensures Fewest(h.log, limit, k) && Good(c', Evicted(h, k), up) && c'.age == c.age && c'.size <= limit
    ensures c'.freed == c.freed + FirstItems(h.log, k)
  {
    c', k := c, 0;
    assert h.log[0..] == h.log && c.freed + [] == c.freed;
    while c'.size > limit
      invariant k <= |h.log| && Good(c', Evicted(h, k), up) && c'.age == c.age
      invariant k > 0 ==> Sizes(h.log[k - 1..]) > limit
      invariant c'.freed == c.freed + FirstItems(h.log, k)
      decreases c'.rnum
    {
      c' := EvictNext(c', h, k, up);
      FirstItemsOn(c.freed, h.log, k);
      k := k + 1;
    }
  }

  /** The start of a put: entries are evicted only if the budget would be exceeded. */
  method MakeRoom<V(==)>(c: State<V>, size: nat, ghost h: History<V>, up: nat) returns (c': State<V>, ghost k: nat)
    requires Good(c, h, up) && size <= up
    ensures Fewest(h.log, up - size, k) && Good(c', Evicted(h, k), up) && c'.size + size <= up && c'.age == c.age
    ensures c'.freed == c.freed + FirstItems(h.log, k)
  {
    c', k := c, 0;
    assert h.log[0..] == h.log && c.freed + [] == c.freed;
    if size + c.size > up {
      c', k := Depleted(c, up - size, h, up);
    }
  }

  /** The history after a put: an entry with the same signature is freed, the new one comes last. */
  ghost function Stored<V>(h: History<V>, s: Sign, e: Entry<V>): History<V> {
    History(h.m[s := e], Without(h.log, s) + [Record(s, e)],
            match Lookup(h.log, s)
            case None => Put(h.fate, e)
            case Some(d) => Put(Free(h.fate, d), e))
  }

  lemma LinkedPut<V>(m: map<Sign, Entry<V>>, log: Log<V>, lo: nat, hi: nat, s: Sign, e: Entry<V>)
    requires Linked(m, log) && Ordered(log, lo, hi)
    ensures Linked(m[s := e], Without(log, s) + [Record(s, e)])
  {
    var log' := Without(log, s) + [Record(s, e)];
    forall t ensures Lookup(log', t) == if t in m[s := e] then Some(m[s := e][t]) else None {
      LookupAppend(Without(log, s), Record(s, e), t);
      LookupWithout(log, lo, hi, s, t);
      assert Lookup(log, t) == if t in m then Some(m[t]) else None;
    }
  }

  lemma CountedPut<V>(c: State<V>, log: Log<V>, s: Sign, e: Entry<V>)
    requires Counted(c, log) && e.age == c.age + 1
    ensures var log' := Without(log, s) + [Record(s, e)];
      Ordered(log', 0, e.age) &&
      match Lookup(log, s)
      case None => |log'| == |log| + 1 && Sizes(log') == Sizes(log) + e.size
      case Some(d) => |log'| == |log| && d.size <= Sizes(log) && Sizes(log') == Sizes(log) + e.size - d.size
  {
    OrderedWithout(log, 0, c.age, s);
    LookupWithout(log, 0, c.age, s, s);
    Append(Without(log, s), 0, c.age, Record(s, e));
    if Lookup(log, s).Some? {
      SizesWithout(log, s);
    } else {
      WithoutAbsent(log, s);
    }
  }

  lemma BalancedStored<V>(h: History<V>, s: Sign, e: Entry<V>)
    requires Balanced(h.log, h.fate)
    ensures Balanced(Stored(h, s, e).log, Stored(h, s, e).fate)
  {
    if Lookup(h.log, s).Some? {
      BalancedOut(h.log, h.fate, s);
      BalancedPut(Without(h.log, s), Free(h.fate, Lookup(h.log, s).value), Record(s, e));
    } else {
      WithoutAbsent(h.log, s);
      BalancedPut(h.log, h.fate, Record(s, e));
    }
  }

  /** The fields of the cache after `WriteEntry` turned the tree into `n`. */
  function AfterWrite<V>(c: State<V>, n: Node<V>, replaced: Option<Entry<V>>, size: nat): State<V>
    requires replaced.Some? ==> replaced.value.size <= c.size + size
  {
    match replaced
    case None => State(n, c.rnum + 1, c.age + 1, c.size + size, c.freed)
    case Some(d) => Release(State(n, c.rnum, c.age + 1, c.size + size - d.size, c.freed), d)
  }

  lemma StoredGood<V>(c: State<V>, h: History<V>, up: nat, s: Sign, e: Entry<V>, n: Node<V>)
    requires Good(c, h, up) && e.age == c.age + 1 && c.size + e.size <= up
    requires Shape(n, h.m[s := e], 0) && Aged(n)
    ensures Lookup(h.log, s).Some? ==> Lookup(h.log, s).value.size <= c.size + e.size
    ensures Good(AfterWrite(c, n, Lookup(h.log, s), e.size), Stored(h, s, e), up)
  {
    CountedPut(c, h.log, s, e);
    LinkedPut(h.m, h.log, 0, c.age, s, e);
    BalancedStored(h, s, e);
  }

  lemma FirstGood<V>(c: State<V>, h: History<V>, up: nat, s: Sign, e: Entry<V>)
    requires Good(c, h, up) && c.rnum == 0 && e.age == 1 && e.size <= up
    ensures Apart(h.m, s, 0) && Lookup(h.log, s) == None
    ensures Good(State(Leaf(s, e), 1, 1, e.size, c.freed), Stored(h, s, e), up)
  {
    forall t ensures t !in h.m {
      assert Lookup(h.log, t) == None;
    }
    assert h.m[s := e] == map[s := e];
    LinkedPut(h.m, h.log, 0, c.age, s, e);
    assert [Record(s, e)][1..] == [];
    BalancedStored(h, s, e);
  }

  function ReplacedItem<V>(o: Option<Entry<V>>): seq<(V, nat)> {
    match o case None => [] case Some(d) => [Item(d)]
  }

  /** The entry's fields packed with its age. */
  method Store<V(==)>(c: State<V>, s: Sign, value: V, size: nat, kind: nat, ghost h: History<V>, up: nat)
      returns (c': State<V>, r: int)
    requires Good(c, h, up) && c.size + size <= up
    ensures Apart(h.m, s, 0) ==> r == (if Lookup(h.log, s).Some? then 1 else 0)
    ensures Apart(h.m, s, 0) ==> Good(c', Stored(h, s, Entry(value, kind, c'.age, size)), up)
    ensures !Apart(h.m, s, 0) ==> r == 0 && Shadowed(c'.origin, h.m, s)
    ensures c'.freed == c.freed + ReplacedItem(Lookup(h.log, s))
    ensures c'.age == if h.log == [] then 1 else c.age + 1
  {
    if c.rnum == 0 {
      var e := Entry(value, kind, 1, size);
      FirstGood(c, h, up, s, e);
      return State(Leaf(s, e), 1, 1, size, c.freed), 0;
    }
    var e := Entry(value, kind, c.age + 1, size);
    forall t | t in h.m ensures h.m[t].age <= e.age {
      assert Lookup(h.log, t) == Some(h.m[t]);
      OrderedAges(h.log, 0, c.age, t);
    }
    assert Lookup(h.log, s) == if s in h.m then Some(h.m[s]) else None;
    var replaced, n := WriteEntry(c.origin, s, e, h.m);
    CountedPut(c, h.log, s, e);
    c', r := AfterWrite(c, n, replaced, size), if replaced.Some? then 1 else 0;
    if Apart(h.m, s, 0) {
      StoredGood(c, h, up, s, e, n);
    }
  }

  /** A put that fits the budget, on the fields of the cache. */
  method PutWithin<V(==)>(c: State<V>, s: Sign, value: V, size: nat, kind: nat, ghost h: History<V>, up: nat)
      returns (c': State<V>, r: int, ghost k: nat)
    requires Good(c, h, up) && size <= up
    ensures Fewest(h.log, up - size, k)
    ensures Apart(Evicted(h, k).m, s, 0) ==>
      && Good(c', Stored(Evicted(h, k), s, Entry(value, kind, c'.age, size)), up)
      && r == if Lookup(h.log[k..], s).Some? then 1 else 0
    ensures !Apart(Evicted(h, k).m, s, 0) ==> r == 0 && Shadowed(c'.origin, Evicted(h, k).m, s)
    ensures c'.freed == c.freed + FirstItems(h.log, k) + ReplacedItem(Lookup(h.log[k..], s))
    ensures c'.age == if k == |h.log| then 1 else c.age + 1
  {
    c', k := MakeRoom(c, size, h, up);
    c', r := Store(c', s, value, size, kind, Evicted(h, k), up);
  }

  lemma StoredHandsNothing<V>(h: History<V>, k: nat, s: Sign, e: Entry<V>)
    requires k <= |h.log|
    ensures Stored(Evicted(h, k), s, e).fate.handed == h.fate.handed
  {
  }

  class Cache<V(==)> {
    const up: nat
    var c: State<V>
    ghost var h: History<V>

    ghost predicate Valid()
      reads this
    {
      Good(c, h, up)
    }

    constructor (up: nat)
      ensures Valid() && this.up == up
      ensures h == History(map[], [], Fate(multiset{}, multiset{}, multiset{})) && c.freed == []
    {
      this.up := up;
      c := State(Branch({}, [], 0, false), 0, 0, 0, []);
      h := History(map[], [], Fate(multiset{}, multiset{}, multiset{}));
    }

    method Get(s: Sign) returns (r: Option<Entry<V>>)
      requires Valid()
      ensures r == Lookup(h.log, s)
    {
      assert Lookup(h.log, s) == if s in h.m then Some(h.m[s]) else None;
      if c.rnum == 0 {
        return None;
      }
      FindIsLookup(c.origin, h.m, s, 0);
      var branch, depth := SeekNode(c.origin, s, h.m);
      r := if branch.Leaf? && branch.sign == s then Some(branch.entry) else None;
    }

    method Out(s: Sign) returns (r: Option<Entry<V>>)
      requires Valid()
      modifies this
      ensures Valid()
      ensures r == Lookup(old(h).log, s)
      ensures r.None? ==> c == old(c) && h == old(h)
      ensures r.Some? ==> h == HandedOver(old(h), Record(s, r.value))
      ensures r.Some? ==> h.fate.handed == old(h).fate.handed + multiset{Item(r.value)}
      ensures c.freed == old(c).freed
    {
      c, r := TakeOut(c, s, h, up);
      if r.Some? {
        h := HandedOver(h, Record(s, r.value));
      }
    }

    method Delete(s: Sign) returns (r: int)
      requires Valid()
      modifies this
      ensures Valid()
      ensures Lookup(old(h).log, s).None? ==> r == -1 && c == old(c) && h == old(h)
      ensures Lookup(old(h).log, s).Some? ==> r == 0 && h == Freed(old(h), Record(s, Lookup(old(h).log, s).value))
      ensures c.freed == old(c).freed + ReplacedItem(Lookup(old(h).log, s)) && h.fate.handed == old(h).fate.handed
    {
      var out;
      c, out := TakeOut(c, s, h, up);
      if out.None? {
        return -1;
      }
      c := Release(c, out.value);
      h := Freed(h, Record(s, out.value));
      r := 0;
    }

    /** With `k` entries evicted first, the put takes effect exactly if no other entry left in the
        cache has the same low 54 bits; otherwise it claims success, the value and the entry it met
        are lost, and every other entry is still found. */
    method Put(s: Sign, value: V, size: nat, kind: nat) returns (r: int, ghost k: nat)
      requires Valid()
      modifies this
      ensures size > up ==> r == -1 && c == old(c) && h == old(h)
      ensures size <= up ==> Fewest(old(h).log, up - size, k)
      ensures size <= up && Apart(Evicted(old(h), k).m, s, 0) ==>
        && Valid() && h == Stored(Evicted(old(h), k), s, Entry(value, kind, c.age, size))
        && r == if Lookup(old(h).log[k..], s).Some? then 1 else 0
      ensures size <= up && !Apart(Evicted(old(h), k).m, s, 0) ==>
        r == 0 && Shadowed(c.origin, Evicted(old(h), k).m, s)
      ensures size <= up ==>
        c.freed == old(c).freed + FirstItems(old(h).log, k) + ReplacedItem(Lookup(old(h).log[k..], s))
      ensures size <= up ==> h.fate.handed == old(h).fate.handed
      ensures size <= up ==> c.age == if k == |old(h).log| then 1 else old(c).age + 1
    {
      k := 0;
      if size > up {
        return -1, k;
      }
      ghost var was := h;
      c, r, k := PutWithin(c, s, value, size, kind, h, up);
      h := Stored(Evicted(h, k), s, Entry(value, kind, c.age, size));
      StoredHandsNothing(was, k, s, Entry(value, kind, c.age, size));
    }
  }
}
