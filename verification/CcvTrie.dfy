/** The radix tree of ccv_cache.c.  A node is either a leaf or a branch with one child for every
    6-bit digit in its bitmap, kept in the order of the digits.  The walks look at depths 0 to 9.

    `Shape(n, m, d)` says that the tree `n` at depth `d` holds exactly the entries of the map `m`. */
module CcvTrie {
  import opened Wrappers
  import Arith

  type Sign = nat
  type Digits = set<nat>

  datatype Entry<V> = Entry(value: V, kind: nat, age: nat, size: nat)

  datatype Node<V> =
    | Leaf(sign: Sign, entry: Entry<V>)
    | Branch(bitmap: Digits, kids: seq<Node<V>>, minAge: nat, full: bool)

  /** The `i`-th 6-bit digit of a signature, lowest first. */
  function Digit(s: Sign, i: nat): (x: nat)
    ensures x < 64
    decreases i
  {
    if i == 0 then s % 64 else Digit(s / 64, i - 1)
  }

  ghost predicate Share(s: Sign, t: Sign, i: nat, j: nat) {
    forall k :: i <= k < j ==> Digit(s, k) == Digit(t, k)
  }

  // ---- Population counts ----

  /** The number of digits below `x` in the bitmap. */
  function Rank(b: Digits, x: nat): nat {
    if x == 0 then 0 else Rank(b, x - 1) + if x - 1 in b then 1 else 0
  }

  lemma {:induction false} RankLess(b: Digits, x: nat, y: nat)
    requires x <= y
    ensures Rank(b, x) <= Rank(b, y)
    ensures x < y && x in b ==> Rank(b, x) < Rank(b, y)
  {
    if x < y {
      RankLess(b, x, y - 1);
    }
  }

  /** Only a bitmap with every digit has the full count. */
  lemma {:induction false} RankBound(b: Digits, x: nat, y: nat)
    requires y <= x
    ensures Rank(b, y) <= Rank(b, x) <= x
    ensures Rank(b, x) == x ==> Rank(b, y) == y && (y < x ==> y in b)
  {
    if y < x {
      RankBound(b, x - 1, y);
    } else if x > 0 {
      RankBound(b, x - 1, y - 1);
    }
  }

  lemma {:induction false} RankAdd(b: Digits, x: nat, y: nat)
    requires x !in b
    ensures Rank(b + {x}, y) == Rank(b, y) + if x < y then 1 else 0
  {
    if y > 0 {
      RankAdd(b, x, y - 1);
    }
  }

  lemma RankRemove(b: Digits, x: nat, y: nat)
    requires x in b
    ensures Rank(b, y) == Rank(b - {x}, y) + if x < y then 1 else 0
  {
    RankAdd(b - {x}, x, y);
    assert b - {x} + {x} == b;
  }

  /** Every child belongs to a digit. */
  lemma {:induction false} DigitAt(b: Digits, j: nat, y: nat) returns (x: nat)
    requires j < Rank(b, y)
    ensures x in b && x < y && Rank(b, x) == j
  {
    if y - 1 in b && Rank(b, y - 1) == j {
      x := y - 1;
    } else {
      x := DigitAt(b, j, y - 1);
    }
  }

  lemma RankSame(b: Digits, x: nat, y: nat)
    requires x in b && y in b && Rank(b, x) == Rank(b, y)
    ensures x == y
  {
    RankLess(b, x, if x < y then y else x);
    RankLess(b, y, if y < x then x else y);
  }

  // ---- Trees that hold a map ----

  function Total(n: Node): nat
    requires n.Branch?
  {
    Rank(n.bitmap, 64)
  }

  /** Where the child for digit `x` is: a full branch is indexed directly. */
  function Slot(n: Node, x: nat): nat
    requires n.Branch?
  {
    if n.full then x else Rank(n.bitmap, x)
  }

  predicate HasKid(n: Node, x: nat)
    requires n.Branch?
  {
    (n.full || x in n.bitmap) && Slot(n, x) < |n.kids|
  }

  function Kid(n: Node, x: nat): Node
    requires n.Branch? && HasKid(n, x)
  {
    n.kids[Slot(n, x)]
  }

  ghost function Under<V>(m: map<Sign, V>, d: nat, x: nat): map<Sign, V> {
    map s | s in m && Digit(s, d) == x :: m[s]
  }

  ghost predicate Shape<V>(n: Node<V>, m: map<Sign, Entry<V>>, d: nat)
    decreases n
  {
    match n
    case Leaf(s, e) => m == map[s := e]
    case Branch(b, kids, _, full) =>
      && d <= 8
      && |kids| == Rank(b, 64) >= 1
      && (full <==> |kids| == 64)
      && (|kids| == 1 ==> kids[0].Branch?)
      && (forall s :: s in m ==> Digit(s, d) in b)
      && (forall x :: x in b ==> x < 64)
      && (forall x {:trigger KidShape(n, m, d, x)} :: x in b ==> KidShape(n, m, d, x))
  }

  ghost predicate KidShape<V>(n: Node<V>, m: map<Sign, Entry<V>>, d: nat, x: nat)
    requires n.Branch?
    decreases n, 0
  {
    HasKid(n, x) && Shape(Kid(n, x), Under(m, d, x), d + 1)
  }

  /** In a well-shaped branch the direct index of a full branch is the rank. */
  lemma SlotIsRank<V>(n: Node<V>, m: map<Sign, Entry<V>>, d: nat, x: nat)
    requires n.Branch? && Shape(n, m, d) && x < 64
    ensures HasKid(n, x) <==> x in n.bitmap
    ensures Slot(n, x) == Rank(n.bitmap, x)
  {
    RankBound(n.bitmap, 64, x);
    RankLess(n.bitmap, x, 64);
  }

  lemma {:induction false} Inhabited<V>(n: Node<V>, m: map<Sign, Entry<V>>, d: nat) returns (s: Sign)
    requires Shape(n, m, d)
    ensures s in m
    decreases n
  {
    if n.Leaf? {
      s := n.sign;
    } else {
      var x := DigitAt(n.bitmap, 0, 64);
      assert KidShape(n, m, d, x);
      s := Inhabited(Kid(n, x), Under(m, d, x), d + 1);
    }
  }

  /** A branch holds at least two entries. */
  lemma {:induction false} TwoSigns<V>(n: Node<V>, m: map<Sign, Entry<V>>, d: nat) returns (s: Sign, t: Sign)
    requires n.Branch? && Shape(n, m, d)
    ensures s in m && t in m && s != t
    decreases n
  {
    var x := DigitAt(n.bitmap, 0, 64);
    assert KidShape(n, m, d, x);
    SlotIsRank(n, m, d, x);
    if |n.kids| == 1 {
      s, t := TwoSigns(Kid(n, x), Under(m, d, x), d + 1);
    } else {
      var y := DigitAt(n.bitmap, 1, 64);
      assert KidShape(n, m, d, y);
      s := Inhabited(Kid(n, x), Under(m, d, x), d + 1);
      t := Inhabited(Kid(n, y), Under(m, d, y), d + 1);
    }
  }

  // ---- Lookup ----

  datatype Found<V> = Found(node: Node<V>, depth: nat)

  /** Where the walk for `s` ends: at a leaf or at a branch without the next digit; a walk that
      passes depth 9 ends nowhere. */
  function Seek<V>(n: Node<V>, s: Sign, i: nat): Option<Found<V>>
    decreases n
  {
    if i >= 10 then None
    else if n.Leaf? || !HasKid(n, Digit(s, i)) then Some(Found(n, i))
    else Seek(Kid(n, Digit(s, i)), s, i + 1)
  }

  function Find<V>(n: Node<V>, s: Sign, i: nat): Option<Entry<V>> {
    match Seek(n, s, i)
    case Some(Found(Leaf(t, e), _)) => if t == s then Some(e) else None
    case _ => None
  }

  lemma {:induction false} FindIsLookup<V>(n: Node<V>, m: map<Sign, Entry<V>>, s: Sign, d: nat)
    requires Shape(n, m, d) && d <= 9
    ensures Find(n, s, d) == if s in m then Some(m[s]) else None
    ensures Seek(n, s, d).Some? && d <= Seek(n, s, d).value.depth <= 9
    decreases n
  {
    if n.Branch? {
      var x := Digit(s, d);
      SlotIsRank(n, m, d, x);
      if x in n.bitmap {
        assert KidShape(n, m, d, x);
        FindIsLookup(Kid(n, x), Under(m, d, x), s, d + 1);
      }
    }
  }

  // ---- Insertion ----

  function WithKid<V>(n: Node<V>, x: nat, c: Node<V>, a: nat): Node<V>
    requires n.Branch? && HasKid(n, x)
  {
    Branch(n.bitmap, n.kids[Slot(n, x) := c], a, n.full)
  }

  function InsertKid<V>(n: Node<V>, x: nat, c: Node<V>): Node<V>
    requires n.Branch? && Rank(n.bitmap, x) <= |n.kids|
  {
    var r := Rank(n.bitmap, x);
    Branch(n.bitmap + {x}, n.kids[..r] + [c] + n.kids[r..], n.minAge, Total(n) == 63)
  }

  /** A leaf that is in the way of `s` becomes a chain of single-child branches down to the first
      digit that tells the two apart; after depth 9 the last digits looked at are used. */
  function Split<V>(t: Node<V>, s: Sign, e: Entry<V>, i: nat): Node<V>
    requires t.Leaf?
    decreases 10 - i
  {
    if i < 10 && Digit(t.sign, i) == Digit(s, i) then
      Branch({Digit(s, i)}, [Split(t, s, e, i + 1)], t.entry.age, false)
    else
      var j := if i < 10 then i else 9;
      Branch({Digit(t.sign, j), Digit(s, j)},
             if Digit(t.sign, j) < Digit(s, j) then [t, Leaf(s, e)] else [Leaf(s, e), t], t.entry.age, false)
  }

  /** What a put makes of the node its walk ends at. */
  function Rewritten<V>(n: Node<V>, s: Sign, e: Entry<V>, i: nat): Node<V>
    requires n.Leaf? || Rank(n.bitmap, Digit(s, i)) <= |n.kids|
  {
    if n.Branch? then InsertKid(n, Digit(s, i), Leaf(s, e))
    else if n.sign == s then Leaf(s, e)
    else Split(n, s, e, i)
  }

  ghost predicate Apart<V>(m: map<Sign, V>, s: Sign, d: nat) {
    forall t :: t in m && t != s ==> !Share(s, t, d, 9)
  }

  /** Exchanging one child exchanges the entries with its digit. */
  lemma WithKidShape<V>(n: Node<V>, m: map<Sign, Entry<V>>, d: nat, x: nat, c: Node<V>, m': map<Sign, Entry<V>>, a: nat)
    requires n.Branch? && Shape(n, m, d) && x in n.bitmap && HasKid(n, x)
    requires Shape(c, Under(m', d, x), d + 1)
    requires |n.kids| == 1 ==> c.Branch?
    requires forall t :: Digit(t, d) != x ==> (t in m <==> t in m') && (t in m ==> m[t] == m'[t])
    ensures Shape(WithKid(n, x, c, a), m', d)
  {
    var n' := WithKid(n, x, c, a);
    forall y | y in n.bitmap ensures KidShape(n', m', d, y) {
      SlotIsRank(n, m, d, x);
      SlotIsRank(n, m, d, y);
      assert KidShape(n, m, d, y);
      if y != x {
        assert Under(m, d, y) == Under(m', d, y);
        if Rank(n.bitmap, x) == Rank(n.bitmap, y) {
          RankSame(n.bitmap, x, y);
        }
        assert Kid(n', y) == Kid(n, y);
      }
    }
  }

  lemma InsertShape<V>(n: Node<V>, m: map<Sign, Entry<V>>, d: nat, s: Sign, e: Entry<V>)
    requires n.Branch? && Shape(n, m, d) && Digit(s, d) !in n.bitmap
    ensures Rank(n.bitmap, Digit(s, d)) <= |n.kids|
    ensures Shape(InsertKid(n, Digit(s, d), Leaf(s, e)), m[s := e], d)
  {
    var b, x, r := n.bitmap, Digit(s, d), Rank(n.bitmap, Digit(s, d));
    RankLess(b, x, 64);
    RankAdd(b, x, 64);
    var n' := InsertKid(n, x, Leaf(s, e));
    RankBound(b + {x}, 64, 0);
    forall y | y in n'.bitmap ensures KidShape(n', m[s := e], d, y) {
      InsertedKid(n, m, d, s, e, y);
    }
  }

  lemma InsertedKid<V>(n: Node<V>, m: map<Sign, Entry<V>>, d: nat, s: Sign, e: Entry<V>, y: nat)
    requires n.Branch? && Shape(n, m, d) && Digit(s, d) !in n.bitmap && y in n.bitmap + {Digit(s, d)}
    requires Rank(n.bitmap, Digit(s, d)) <= |n.kids|
    ensures KidShape(InsertKid(n, Digit(s, d), Leaf(s, e)), m[s := e], d, y)
  {
    var b, x, r := n.bitmap, Digit(s, d), Rank(n.bitmap, Digit(s, d));
    var n' := InsertKid(n, x, Leaf(s, e));
    RankAdd(b, x, y);
    RankAdd(b, x, 64);
    RankBound(b + {x}, 64, y);
    RankLess(b + {x}, y, 64);
    if y == x {
      assert Under(m[s := e], d, x) == map[s := e];
    } else {
      assert KidShape(n, m, d, y);
      SlotIsRank(n, m, d, y);
      assert Under(m[s := e], d, y) == Under(m, d, y);
      if y < x {
        RankLess(b, y, x);
      } else {
        RankLess(b, x, y);
      }
      assert n'.kids[Rank(b + {x}, y)] == n.kids[Rank(b, y)];
    }
  }

  lemma {:induction false} SplitShape<V>(t: Node<V>, s: Sign, e: Entry<V>, d: nat)
    requires t.Leaf? && t.sign != s && !Share(s, t.sign, d, 9)
    ensures Shape(Split(t, s, e, d), map[t.sign := t.entry][s := e], d)
    ensures Split(t, s, e, d).Branch?
    decreases 10 - d
  {
    var m := map[t.sign := t.entry][s := e];
    if Digit(t.sign, d) == Digit(s, d) {
      SplitShape(t, s, e, d + 1);
      ChainShape(Split(t, s, e, d + 1), m, Digit(s, d), t.entry.age, d);
    } else {
      ForkShape(t, s, e, d);
    }
  }

  lemma ChainShape<V>(c: Node<V>, m: map<Sign, Entry<V>>, x: nat, age: nat, d: nat)
    requires c.Branch? && Shape(c, m, d + 1) && d <= 8 && x < 64 && forall s :: s in m ==> Digit(s, d) == x
    ensures Shape(Branch({x}, [c], age, false), m, d)
  {
    OneDigit(x);
    assert Under(m, d, x) == m;
    assert KidShape(Branch({x}, [c], age, false), m, d, x);
  }

  lemma ForkShape<V>(t: Node<V>, s: Sign, e: Entry<V>, d: nat)
    requires t.Leaf? && d <= 8 && Digit(t.sign, d) != Digit(s, d)
    ensures Shape(Split(t, s, e, d), map[t.sign := t.entry][s := e], d)
  {
    var n, m := Split(t, s, e, d), map[t.sign := t.entry][s := e];
    var x, y := Digit(t.sign, d), Digit(s, d);
    TwoDigits(x, y);
    assert Under(m, d, x) == map[t.sign := t.entry];
    assert Under(m, d, y) == map[s := e];
    assert KidShape(n, m, d, x);
    assert KidShape(n, m, d, y);
  }

  lemma OneDigit(x: nat)
    requires x < 64
    ensures Rank({x}, x) == 0 && Rank({x}, 64) == 1
  {
    RankAdd({}, x, x);
    RankAdd({}, x, 64);
    RankNone(x);
    RankNone(64);
    assert {} + {x} == {x};
  }

  lemma {:induction false} RankNone(x: nat)
    ensures Rank({}, x) == 0
  {
    if x > 0 {
      RankNone(x - 1);
    }
  }

  lemma TwoDigits(x: nat, y: nat)
    requires x < 64 && y < 64 && x != y
    ensures Rank({x, y}, 64) == 2
    ensures Rank({x, y}, x) == (if y < x then 1 else 0) && Rank({x, y}, y) == if x < y then 1 else 0
  {
    OneDigit(x);
    OneDigit(y);
    assert {x} + {y} == {x, y} && {y} + {x} == {x, y};
    RankAdd({x}, y, 64);
    RankAdd({x}, y, y);
    RankAdd({y}, x, x);
    RankAdd({}, x, y);
    RankAdd({}, y, x);
    RankNone(x);
    RankNone(y);
    assert {} + {x} == {x} && {} + {y} == {y};
  }

  /** The tree after a put. */
  function PutIn<V>(n: Node<V>, s: Sign, e: Entry<V>, i: nat): Node<V>
    requires Seek(n, s, i).Some?
    requires var f := Seek(n, s, i).value; f.node.Leaf? || Rank(f.node.bitmap, Digit(s, f.depth)) <= |f.node.kids|
    decreases n
  {
    if n.Leaf? || !HasKid(n, Digit(s, i)) then Rewritten(n, s, e, i)
    else WithKid(n, Digit(s, i), PutIn(Kid(n, Digit(s, i)), s, e, i + 1), n.minAge)
  }

  ghost predicate Puttable<V>(n: Node<V>, s: Sign, i: nat) {
    && Seek(n, s, i).Some?
    && var f := Seek(n, s, i).value; (f.node.Leaf? || Rank(f.node.bitmap, Digit(s, f.depth)) <= |f.node.kids|)
  }

  lemma {:induction false} ShapePuttable<V>(n: Node<V>, m: map<Sign, Entry<V>>, s: Sign, d: nat)
    requires Shape(n, m, d) && d <= 9
    ensures Puttable(n, s, d)
    decreases n
  {
    if n.Branch? {
      var x := Digit(s, d);
      SlotIsRank(n, m, d, x);
      RankLess(n.bitmap, x, 64);
      if x in n.bitmap {
        assert KidShape(n, m, d, x);
        ShapePuttable(Kid(n, x), Under(m, d, x), s, d + 1);
      }
    }
  }

  /** A put updates the map, provided no other signature agrees on the digits below 9. */
  lemma {:induction false} PutShape<V>(n: Node<V>, m: map<Sign, Entry<V>>, s: Sign, e: Entry<V>, d: nat)
    requires Shape(n, m, d) && Puttable(n, s, d) && Apart(m, s, d) && d <= 9
    ensures Shape(PutIn(n, s, e, d), m[s := e], d)
    ensures n.Branch? ==> PutIn(n, s, e, d).Branch?
    decreases n
  {
    if n.Leaf? {
      if n.sign == s {
        assert m[s := e] == map[s := e];
      } else {
        assert n.sign in m;
        SplitShape(n, s, e, d);
      }
    } else {
      var x := Digit(s, d);
      SlotIsRank(n, m, d, x);
      if x in n.bitmap {
        assert KidShape(n, m, d, x);
        ApartUnder(m, s, d);
        PutShape(Kid(n, x), Under(m, d, x), s, e, d + 1);
        PutKidShape(n, m, s, e, d, PutIn(Kid(n, x), s, e, d + 1));
      } else {
        InsertShape(n, m, d, s, e);
      }
    }
  }

  lemma PutKidShape<V>(n: Node<V>, m: map<Sign, Entry<V>>, s: Sign, e: Entry<V>, d: nat, c: Node<V>)
    requires n.Branch? && Shape(n, m, d) && Digit(s, d) in n.bitmap && HasKid(n, Digit(s, d))
    requires Shape(c, Under(m, d, Digit(s, d))[s := e], d + 1)
    requires |n.kids| == 1 ==> c.Branch?
    ensures Shape(WithKid(n, Digit(s, d), c, n.minAge), m[s := e], d)
  {
    assert Under(m[s := e], d, Digit(s, d)) == Under(m, d, Digit(s, d))[s := e];
    WithKidShape(n, m, d, Digit(s, d), c, m[s := e], n.minAge);
  }

  lemma ApartUnder<V>(m: map<Sign, V>, s: Sign, d: nat)
    requires Apart(m, s, d)
    ensures Apart(Under(m, d, Digit(s, d)), s, d + 1)
  {
    forall t | t in Under(m, d, Digit(s, d)) && t != s ensures !Share(s, t, d + 1, 9) {
      assert t in m;
    }
  }

  // ---- Exactly when a put is found again ----

  lemma {:induction false} Separated<V>(n: Node<V>, m: map<Sign, Entry<V>>, s: Sign, t: Sign, d: nat)
    requires Shape(n, m, d) && s in m && t in m && s != t
    ensures !Share(s, t, d, 9)
    decreases n
  {
    if Share(s, t, d, 9) {
      var x := Digit(s, d);
      assert KidShape(n, m, d, x);
      Separated(Kid(n, x), Under(m, d, x), s, t, d + 1);
    }
  }

  lemma {:induction false} SplitLost<V>(t: Node<V>, s: Sign, e: Entry<V>, d: nat)
    requires t.Leaf? && Share(s, t.sign, d, 9) && d <= 9
    ensures Seek(Split(t, s, e, d), s, d) == None && Seek(Split(t, s, e, d), t.sign, d) == None
    decreases 10 - d
  {
    var x, y := Digit(t.sign, d), Digit(s, d);
    OneDigit(y);
    if d < 9 {
      SplitLost(t, s, e, d + 1);
    } else if x != y {
      TwoDigits(x, y);
    }
  }

  /** A put next to a signature with the same digits below 9 is never found, nor is that signature. */
  lemma {:induction false} PutLost<V>(n: Node<V>, m: map<Sign, Entry<V>>, s: Sign, e: Entry<V>, t: Sign, d: nat)
    requires Shape(n, m, d) && Puttable(n, s, d) && d <= 9
    requires s !in m && t in m && Share(s, t, d, 9)
    ensures Seek(PutIn(n, s, e, d), s, d) == None && Seek(PutIn(n, s, e, d), t, d) == None
    decreases n
  {
    if n.Leaf? {
      SplitLost(n, s, e, d);
    } else {
      var x := Digit(s, d);
      assert Digit(t, d) == x;
      SlotIsRank(n, m, d, x);
      assert KidShape(n, m, d, x);
      PutLost(Kid(n, x), Under(m, d, x), s, e, t, d + 1);
      SeekThrough(n, x, PutIn(Kid(n, x), s, e, d + 1), s, d);
      SeekThrough(n, x, PutIn(Kid(n, x), s, e, d + 1), t, d);
    }
  }

  /** A walk through a child that was exchanged. */
  lemma SeekThrough<V>(n: Node<V>, x: nat, c: Node<V>, s: Sign, d: nat)
    requires n.Branch? && HasKid(n, x) && Digit(s, d) == x && d <= 9
    ensures Seek(WithKid(n, x, c, n.minAge), s, d) == Seek(c, s, d + 1)
  {
  }

  /** Below a leaf split by such a put nothing is found. */
  lemma {:induction false} SplitFinds<V>(t: Node<V>, s: Sign, e: Entry<V>, d: nat, u: Sign)
    requires t.Leaf? && Share(s, t.sign, d, 9) && d <= 9
    ensures Find(Split(t, s, e, d), u, d) == None
    decreases 10 - d
  {
    var y := Digit(s, d);
    OneDigit(y);
    if d < 9 {
      assert Digit(t.sign, d) == y;
      SplitFinds(t, s, e, d + 1, u);
      if Digit(u, d) == y {
        assert Seek(Split(t, s, e, d), u, d) == Seek(Split(t, s, e, d + 1), u, d + 1);
      }
    } else {
      var b := Split(t, s, e, d);
      if HasKid(b, Digit(u, d)) {
        assert Seek(Kid(b, Digit(u, d)), u, 10) == None;
      }
    }
  }

  /** A walk past a child that was exchanged. */
  lemma FindPast<V>(n: Node<V>, m: map<Sign, Entry<V>>, x: nat, c: Node<V>, u: Sign, d: nat)
    requires n.Branch? && Shape(n, m, d) && x in n.bitmap && HasKid(n, x) && Digit(u, d) != x
    ensures Find(WithKid(n, x, c, n.minAge), u, d) == Find(n, u, d)
  {
    var y := Digit(u, d);
    SlotIsRank(n, m, d, x);
    SlotIsRank(n, m, d, y);
    if y in n.bitmap {
      if Rank(n.bitmap, x) == Rank(n.bitmap, y) {
        RankSame(n.bitmap, x, y);
      }
      assert Kid(WithKid(n, x, c, n.minAge), y) == Kid(n, y);
    }
  }

  lemma ShareFrom(s: Sign, u: Sign, d: nat)
    requires d < 9
    ensures Share(s, u, d, 9) <==> Digit(s, d) == Digit(u, d) && Share(s, u, d + 1, 9)
  {
  }

  /** Such a put loses every signature with the digits of `s` below 9, and no other. */
  lemma {:induction false} PutFinds<V>(n: Node<V>, m: map<Sign, Entry<V>>, s: Sign, e: Entry<V>, t: Sign, d: nat,
      u: Sign)
    requires Shape(n, m, d) && Puttable(n, s, d) && d <= 9
    requires s !in m && t in m && Share(s, t, d, 9)
    ensures Find(PutIn(n, s, e, d), u, d) == if Share(s, u, d, 9) then None else Find(n, u, d)
    decreases n
  {
    if n.Leaf? {
      SplitFinds(n, s, e, d, u);
    } else {
      var x := Digit(s, d);
      ShareFrom(s, t, d);
      ShareFrom(s, u, d);
      SlotIsRank(n, m, d, x);
      assert KidShape(n, m, d, x);
      var c := PutIn(Kid(n, x), s, e, d + 1);
      if Digit(u, d) == x {
        PutFinds(Kid(n, x), Under(m, d, x), s, e, t, d + 1, u);
        SeekThrough(n, x, c, u, d);
      } else {
        FindPast(n, m, x, c, u, d);
      }
    }
  }

  /** What is found when `s` was put next to a signature with the same low 54 bits: all but the
      signatures with those bits. */
  ghost predicate Shadowed<V>(n: Node<V>, m: map<Sign, Entry<V>>, s: Sign) {
    forall u: Sign {:trigger Find(n, u, 0)} ::
      Find(n, u, 0) == if u % LOW != s % LOW && u in m then Some(m[u]) else None
  }

  lemma PutShadows<V>(n: Node<V>, m: map<Sign, Entry<V>>, s: Sign, e: Entry<V>, n': Node<V>)
    requires Shape(n, m, 0) && Puttable(n, s, 0) && s !in m && !Apart(m, s, 0) && n' == PutIn(n, s, e, 0)
    ensures Shadowed(n', m, s)
  {
    var t :| t in m && t != s && Share(s, t, 0, 9);
    forall u: Sign
      ensures Find(n', u, 0) == if u % LOW != s % LOW && u in m then Some(m[u]) else None
    {
      PutFinds(n, m, s, e, t, 0, u);
      ShareIsLow54(s, u);
      FindIsLookup(n, m, u, 0);
    }
  }

  lemma PutFoundIff<V>(n: Node<V>, m: map<Sign, Entry<V>>, s: Sign, e: Entry<V>)
    requires Shape(n, m, 0) && Puttable(n, s, 0)
    ensures Find(PutIn(n, s, e, 0), s, 0) == Some(e) <==> Apart(m, s, 0)
  {
    if Apart(m, s, 0) {
      PutShape(n, m, s, e, 0);
      FindIsLookup(PutIn(n, s, e, 0), m[s := e], s, 0);
    } else {
      var t :| t in m && t != s && Share(s, t, 0, 9);
      if s in m {
        Separated(n, m, s, t, 0);
      }
      PutLost(n, m, s, e, t, 0);
    }
  }

  function Pow64(k: nat): nat {
    if k == 0 then 1 else 64 * Pow64(k - 1)
  }

  /** Sharing the digits below `k` is agreeing on the low `6 * k` bits. */
  lemma {:induction false} ShareIsLowBits(s: Sign, t: Sign, k: nat)
    ensures Pow64(k) > 0
    ensures Share(s, t, 0, k) <==> s % Pow64(k) == t % Pow64(k)
    decreases k
  {
    if k > 0 {
      ShareIsLowBits(s / 64, t / 64, k - 1);
      LowBits(s, Pow64(k - 1));
      LowBits(t, Pow64(k - 1));
      if Share(s, t, 0, k) {
        assert Digit(s, 0) == Digit(t, 0);
        forall i | 0 <= i < k - 1 ensures Digit(s / 64, i) == Digit(t / 64, i) {
          assert Digit(s, i + 1) == Digit(t, i + 1);
        }
      }
      if s % 64 == t % 64 && Share(s / 64, t / 64, 0, k - 1) {
        forall i | 0 <= i < k ensures Digit(s, i) == Digit(t, i) {
          assert i > 0 ==> Digit(s / 64, i - 1) == Digit(t / 64, i - 1);
        }
      }
    }
  }

  lemma LowBits(s: nat, p: nat)
    requires p > 0
    ensures s % (64 * p) == s % 64 + 64 * ((s / 64) % p)
  {
    var q, r := (s / 64) / p, (s / 64) % p;
    assert s / 64 == q * p + r;
    Arith.Regroup(q, p, 64);
    Arith.DivModIs(s, 64 * p, q, s % 64 + 64 * r);
  }

  const LOW := 0x40_0000_0000_0000

  lemma ShareIsLow54(s: Sign, t: Sign)
    ensures Share(s, t, 0, 9) <==> s % LOW == t % LOW
  {
    ShareIsLowBits(s, t, 9);
    assert Pow64(1) == 64 && Pow64(2) == 0x1000 && Pow64(3) == 0x4_0000;
    assert Pow64(5) == 0x4000_0000 && Pow64(7) == 0x400_0000_0000;
    assert Pow64(9) == LOW;
  }

  /** The condition of `PutFoundIff` in terms of the low 54 bits. */
  lemma ApartIsLow54<V>(m: map<Sign, V>, s: Sign)
    ensures Apart(m, s, 0) <==> forall t :: t in m && t != s ==> t % LOW != s % LOW
  {
    forall t: Sign ensures Share(s, t, 0, 9) <==> s % LOW == t % LOW {
      ShareIsLow54(s, t);
    }
  }

  /** Signature 2^54 put into a cache that holds signature 0: neither is found afterwards. */
  lemma PutLostExample<V>(d: Entry<V>, e: Entry<V>)
    ensures Puttable(Leaf(0, d), LOW, 0)
    ensures var n := PutIn(Leaf(0, d), LOW, e, 0); Find(n, LOW, 0) == None && Find(n, 0, 0) == None
  {
    ShareIsLow54(LOW, 0);
    PutLost(Leaf(0, d), map[0 := d], LOW, e, 0, 0);
  }

  // ---- Ages ----

  function AgeOf(n: Node): nat {
    if n.Leaf? then n.entry.age else n.minAge
  }

  function MinAge(ks: seq<Node>): nat {
    if ks == [] then 0
    else if |ks| == 1 || AgeOf(ks[|ks| - 1]) < MinAge(ks[..|ks| - 1]) then AgeOf(ks[|ks| - 1])
    else MinAge(ks[..|ks| - 1])
  }

  lemma {:induction false} MinAgeLow(ks: seq<Node>, i: nat)
    requires i < |ks|
    ensures MinAge(ks) <= AgeOf(ks[i])
  {
    if i < |ks| - 1 {
      MinAgeLow(ks[..|ks| - 1], i);
    }
  }

  lemma {:induction false} MinAgeAt(ks: seq<Node>) returns (j: nat)
    requires ks != []
    ensures j < |ks| && AgeOf(ks[j]) == MinAge(ks)
  {
    j := |ks| - 1;
    if MinAge(ks) != AgeOf(ks[j]) {
      j := MinAgeAt(ks[..j]);
    }
  }

  lemma MinAgeIs(ks: seq<Node>, a: nat)
    requires |ks| > 0
    ensures a == MinAge(ks) <==>
      (forall j :: 0 <= j < |ks| ==> a <= AgeOf(ks[j])) && (exists j :: 0 <= j < |ks| && AgeOf(ks[j]) == a)
  {
    var k := MinAgeAt(ks);
    forall j | 0 <= j < |ks| ensures MinAge(ks) <= AgeOf(ks[j]) {
      MinAgeLow(ks, j);
    }
  }

  /** Every branch carries the smallest age among its children. */
  ghost predicate Aged(n: Node)
    decreases n
  {
    n.Branch? ==> n.minAge == MinAge(n.kids) && forall j :: 0 <= j < |n.kids| ==> Aged(n.kids[j])
  }

  /** The age of a node is the age of the oldest entry below it. */
  lemma {:induction false} AgeIsMin<V>(n: Node<V>, m: map<Sign, Entry<V>>, d: nat) returns (s: Sign)
    requires Shape(n, m, d) && Aged(n)
    ensures s in m && m[s].age == AgeOf(n)
    ensures forall t :: t in m ==> AgeOf(n) <= m[t].age
    decreases n
  {
    if n.Leaf? {
      s := n.sign;
    } else {
      MinAgeIs(n.kids, n.minAge);
      forall t | t in m ensures n.minAge <= m[t].age {
        var x := Digit(t, d);
        assert KidShape(n, m, d, x);
        var _ := AgeIsMin(Kid(n, x), Under(m, d, x), d + 1);
        assert t in Under(m, d, x);
      }
      var j :| 0 <= j < |n.kids| && AgeOf(n.kids[j]) == n.minAge;
      var x := DigitAt(n.bitmap, j, 64);
      assert KidShape(n, m, d, x);
      SlotIsRank(n, m, d, x);
      s := AgeIsMin(Kid(n, x), Under(m, d, x), d + 1);
    }
  }

  /** A new entry, younger than every other, leaves all ages as they are. */
  lemma {:induction false} PutAged<V>(n: Node<V>, m: map<Sign, Entry<V>>, s: Sign, e: Entry<V>, d: nat)
    requires Shape(n, m, d) && Aged(n) && Puttable(n, s, d) && s !in m
    requires forall t :: t in m ==> m[t].age <= e.age
    ensures Aged(PutIn(n, s, e, d)) && AgeOf(PutIn(n, s, e, d)) == AgeOf(n)
    decreases n
  {
    if n.Leaf? {
      assert n.sign in m;
      SplitAged(n, s, e, d);
    } else {
      var x := Digit(s, d);
      SlotIsRank(n, m, d, x);
      if x in n.bitmap {
        assert KidShape(n, m, d, x);
        PutAged(Kid(n, x), Under(m, d, x), s, e, d + 1);
        SameAge(n, x, PutIn(Kid(n, x), s, e, d + 1));
      } else {
        var _ := AgeIsMin(n, m, d);
        InsertAged(n, x, Leaf(s, e));
      }
    }
  }

  lemma SameAge(n: Node, x: nat, c: Node)
    requires n.Branch? && HasKid(n, x) && Aged(n) && Aged(c) && AgeOf(c) == AgeOf(Kid(n, x))
    ensures Aged(WithKid(n, x, c, n.minAge))
  {
    var ks := n.kids[Slot(n, x) := c];
    MinAgeIs(n.kids, n.minAge);
    var j :| 0 <= j < |n.kids| && AgeOf(n.kids[j]) == n.minAge;
    assert AgeOf(ks[j]) == n.minAge;
    MinAgeIs(ks, n.minAge);
  }

  lemma InsertAged<V>(n: Node<V>, x: nat, c: Node<V>)
    requires n.Branch? && Aged(n) && Aged(c) && n.minAge <= AgeOf(c) && |n.kids| > 0 && Rank(n.bitmap, x) <= |n.kids|
    ensures Aged(InsertKid(n, x, c))
  {
    var r := Rank(n.bitmap, x);
    var ks := n.kids[..r] + [c] + n.kids[r..];
    AllInserted(n.kids, r, c, ks);
    InsertMinAge(n.kids, r, c, ks);
    AllAged(n.kids, r, c, ks);
  }

  lemma AllInserted<T>(kids: seq<T>, r: nat, c: T, ks: seq<T>)
    requires r <= |kids| && ks == kids[..r] + [c] + kids[r..]
    ensures |ks| == |kids| + 1 && forall i :: 0 <= i < |ks| ==> ks[i] == Inserted(kids, r, c, i)
  {
  }

  lemma AllAged<V>(kids: seq<Node<V>>, r: nat, c: Node<V>, ks: seq<Node<V>>)
    requires r <= |kids| && Aged(c) && forall j :: 0 <= j < |kids| ==> Aged(kids[j])
    requires |ks| == |kids| + 1 && forall i :: 0 <= i < |ks| ==> ks[i] == Inserted(kids, r, c, i)
    ensures forall j :: 0 <= j < |ks| ==> Aged(ks[j])
  {
  }

  function Inserted<T>(kids: seq<T>, r: nat, c: T, i: nat): T
    requires i <= |kids| && r <= |kids|
  {
    if i < r then kids[i] else if i == r || i == 0 then c else kids[i - 1]
  }

  lemma InsertMinAge<V>(kids: seq<Node<V>>, r: nat, c: Node<V>, ks: seq<Node<V>>)
    requires r <= |kids| && kids != [] && MinAge(kids) <= AgeOf(c)
    requires |ks| == |kids| + 1 && forall i :: 0 <= i < |ks| ==> ks[i] == Inserted(kids, r, c, i)
    ensures MinAge(ks) == MinAge(kids)
  {
    var j := MinAgeAt(kids);
    var j' := if j < r then j else j + 1;
    assert ks[j'] == Inserted(kids, r, c, j');
    MinAgeLow(ks, j');
    var i := MinAgeAt(ks);
    assert ks[i] == Inserted(kids, r, c, i);
    if i != r {
      MinAgeLow(kids, if i < r then i else i - 1);
    }
  }

  lemma {:induction false} SplitAged<V>(t: Node<V>, s: Sign, e: Entry<V>, d: nat)
    requires t.Leaf? && t.entry.age <= e.age
    ensures Aged(Split(t, s, e, d)) && AgeOf(Split(t, s, e, d)) == t.entry.age
    decreases 10 - d
  {
    if d < 10 && Digit(t.sign, d) == Digit(s, d) {
      SplitAged(t, s, e, d + 1);
    } else {
      var n := Split(t, s, e, d);
      assert n.kids == [t, Leaf(s, e)] || n.kids == [Leaf(s, e), t];
      MinAgeIs(n.kids, t.entry.age);
    }
  }

  /** The ages are right everywhere but on the path of `s`. */
  ghost predicate AgedOff(n: Node, s: Sign, i: nat)
    decreases n
  {
    n.Branch? ==>
      && (forall j :: 0 <= j < |n.kids| && (HasKid(n, Digit(s, i)) ==> j != Slot(n, Digit(s, i))) ==> Aged(n.kids[j]))
      && (HasKid(n, Digit(s, i)) ==> AgedOff(Kid(n, Digit(s, i)), s, i + 1))
  }

  /** The tree with the ages along the path of `s` computed afresh, from the bottom up. */
  function AgeIn<V>(n: Node<V>, s: Sign, i: nat): Node<V>
    decreases n
  {
    if n.Leaf? then n
    else if !HasKid(n, Digit(s, i)) then n.(minAge := MinAge(n.kids))
    else
      var c := AgeIn(Kid(n, Digit(s, i)), s, i + 1);
      WithKid(n, Digit(s, i), c, MinAge(n.kids[Slot(n, Digit(s, i)) := c]))
  }

  lemma {:induction false} AgeInAged<V>(n: Node<V>, s: Sign, i: nat)
    requires AgedOff(n, s, i)
    ensures Aged(AgeIn(n, s, i))
    decreases n
  {
    if n.Branch? && HasKid(n, Digit(s, i)) {
      AgeInAged(Kid(n, Digit(s, i)), s, i + 1);
    }
  }

  lemma {:induction false} AgeInShape<V>(n: Node<V>, m: map<Sign, Entry<V>>, s: Sign, d: nat)
    requires Shape(n, m, d)
    ensures Shape(AgeIn(n, s, d), m, d)
    ensures n.Branch? ==> AgeIn(n, s, d).Branch?
    decreases n
  {
    if n.Branch? {
      var x := Digit(s, d);
      SlotIsRank(n, m, d, x);
      if x in n.bitmap {
        assert KidShape(n, m, d, x);
        AgeInShape(Kid(n, x), Under(m, d, x), s, d + 1);
        var c := AgeIn(Kid(n, x), s, d + 1);
        WithKidShape(n, m, d, x, c, m, MinAge(n.kids[Slot(n, x) := c]));
      } else {
        var n' := n.(minAge := MinAge(n.kids));
        forall y | y in n'.bitmap ensures KidShape(n', m, d, y) {
          assert KidShape(n, m, d, y);
        }
      }
    }
  }

  lemma {:induction false} PutAgedOff<V>(n: Node<V>, m: map<Sign, Entry<V>>, s: Sign, e: Entry<V>, d: nat)
    requires Shape(n, m, d) && Aged(n) && Puttable(n, s, d) && s in m
    ensures AgedOff(PutIn(n, s, e, d), s, d)
    decreases n
  {
    if n.Branch? {
      var x := Digit(s, d);
      SlotIsRank(n, m, d, x);
      assert KidShape(n, m, d, x);
      PutAgedOff(Kid(n, x), Under(m, d, x), s, e, d + 1);
    }
  }

  // ---- Removal ----

  function RemoveKid<V>(n: Node<V>, x: nat): Node<V>
    requires n.Branch? && Rank(n.bitmap, x) < |n.kids|
  {
    var r := Rank(n.bitmap, x);
    Branch(n.bitmap - {x}, n.kids[..r] + n.kids[r + 1..], n.minAge, false)
  }

  /** What removing an entry makes of a branch: a branch again, or a single leaf that belongs at the
      lowest node on the path that has siblings. */
  datatype Removal<V> = Kept(node: Node<V>) | Collapsed(leaf: Node<V>)

  /** The child of `n` for digit `x` is the leaf to remove. */
  function Unhook<V>(n: Node<V>, x: nat): Removal<V>
    requires n.Branch? && 2 <= |n.kids| && Rank(n.bitmap, x) < |n.kids|
  {
    var r := Rank(n.bitmap, x);
    if |n.kids| > 2 || n.kids[1 - r].Branch? then Kept(RemoveKid(n, x)) else Collapsed(n.kids[1 - r])
  }

  function OutIn<V>(n: Node<V>, s: Sign, i: nat, ghost m: map<Sign, Entry<V>>): Removal<V>
    requires n.Branch? && Shape(n, m, i) && s in m
    decreases n
  {
    var x := Digit(s, i);
    assert KidShape(n, m, i, x);
    SlotIsRank(n, m, i, x);
    if Kid(n, x).Leaf? then
      assert |n.kids| != 1;
      Unhook(n, x)
    else
      match OutIn(Kid(n, x), s, i + 1, Under(m, i, x))
      case Kept(c) => Kept(WithKid(n, x, c, n.minAge))
      case Collapsed(t) => if |n.kids| > 1 then Kept(WithKid(n, x, t, n.minAge)) else Collapsed(t)
  }

  ghost predicate Holds<V>(r: Removal<V>, m: map<Sign, Entry<V>>, d: nat) {
    match r
    case Kept(n) => n.Branch? && Shape(n, m, d)
    case Collapsed(t) => t.Leaf? && m == map[t.sign := t.entry]
  }

  lemma RemovedKid<V>(n: Node<V>, m: map<Sign, Entry<V>>, d: nat, s: Sign, y: nat)
    requires n.Branch? && Shape(n, m, d) && Digit(s, d) in n.bitmap && y in n.bitmap && y != Digit(s, d)
    requires Rank(n.bitmap, Digit(s, d)) < |n.kids|
    ensures KidShape(RemoveKid(n, Digit(s, d)), m - {s}, d, y)
  {
    var b, x, r := n.bitmap, Digit(s, d), Rank(n.bitmap, Digit(s, d));
    var n' := RemoveKid(n, x);
    RankRemove(b, x, y);
    RankRemove(b, x, 64);
    RankLess(b, y, 64);
    assert KidShape(n, m, d, y);
    SlotIsRank(n, m, d, y);
    assert Under(m - {s}, d, y) == Under(m, d, y);
    if y < x {
      RankLess(b, y, x);
    } else {
      RankLess(b, x, y);
    }
    assert n'.kids[Rank(b - {x}, y)] == n.kids[Rank(b, y)];
  }

  lemma RemoveShape<V>(n: Node<V>, m: map<Sign, Entry<V>>, d: nat, s: Sign)
    requires n.Branch? && Shape(n, m, d) && s in m && HasKid(n, Digit(s, d)) && Kid(n, Digit(s, d)).Leaf?
    requires Rank(n.bitmap, Digit(s, d)) < |n.kids|
    requires |n.kids| > 2 || (|n.kids| == 2 && n.kids[1 - Rank(n.bitmap, Digit(s, d))].Branch?)
    ensures Shape(RemoveKid(n, Digit(s, d)), m - {s}, d)
  {
    var b, x, r := n.bitmap, Digit(s, d), Rank(n.bitmap, Digit(s, d));
    var n' := RemoveKid(n, x);
    RankRemove(b, x, 64);
    RankBound(b, 64, 0);
    assert KidShape(n, m, d, x);
    OnlyOne(n, m, d, s);
    forall y | y in n'.bitmap ensures KidShape(n', m - {s}, d, y) {
      RemovedKid(n, m, d, s, y);
    }
  }

  lemma LeafShape<V>(n: Node<V>, m: map<Sign, Entry<V>>, d: nat)
    requires n.Leaf? && Shape(n, m, d)
    ensures m == map[n.sign := n.entry]
  {
  }

  /** A leaf holds the only entry with its digit. */
  lemma OnlyOne<V>(n: Node<V>, m: map<Sign, Entry<V>>, d: nat, s: Sign)
    requires n.Branch? && Shape(n, m, d) && s in m && HasKid(n, Digit(s, d)) && Kid(n, Digit(s, d)).Leaf?
    ensures forall t :: t in m && Digit(t, d) == Digit(s, d) ==> t == s
  {
    var x := Digit(s, d);
    assert KidShape(n, m, d, x);
    LeafShape(Kid(n, x), Under(m, d, x), d + 1);
    forall t | t in m && Digit(t, d) == x ensures t == s {
      assert t in Under(m, d, x) && s in Under(m, d, x);
    }
  }

  lemma CollapseShape<V>(n: Node<V>, m: map<Sign, Entry<V>>, d: nat, s: Sign)
    requires n.Branch? && Shape(n, m, d) && s in m && HasKid(n, Digit(s, d)) && Kid(n, Digit(s, d)).Leaf?
    requires |n.kids| == 2 && Rank(n.bitmap, Digit(s, d)) < 2 && n.kids[1 - Rank(n.bitmap, Digit(s, d))].Leaf?
    ensures var t := n.kids[1 - Rank(n.bitmap, Digit(s, d))]; m - {s} == map[t.sign := t.entry]
  {
    var b, x, r := n.bitmap, Digit(s, d), Rank(n.bitmap, Digit(s, d));
    var t := n.kids[1 - r];
    var y := DigitAt(b, 1 - r, 64);
    assert KidShape(n, m, d, y);
    SlotIsRank(n, m, d, y);
    OnlyOne(n, m, d, s);
    forall u | u in m && u != s ensures Digit(u, d) == y {
      OtherDigit(b, x, y, Digit(u, d));
    }
    RestUnder(m, s, d, y);
    LeafShape(t, Under(m, d, y), d + 1);
  }

  lemma RestUnder<V>(m: map<Sign, V>, s: Sign, d: nat, y: nat)
    requires forall u :: u in m && u != s ==> Digit(u, d) == y
    requires Digit(s, d) != y
    ensures m - {s} == Under(m, d, y)
  {
  }

  lemma OtherDigit(b: Digits, x: nat, y: nat, z: nat)
    requires x in b && y in b && z in b && x < 64 && y < 64 && z < 64 && Rank(b, 64) == 2
    requires Rank(b, x) != Rank(b, y) && z != x
    ensures z == y
  {
    RankLess(b, x, 64);
    RankLess(b, y, 64);
    RankLess(b, z, 64);
    if Rank(b, z) == Rank(b, x) {
      RankSame(b, z, x);
    } else {
      RankSame(b, z, y);
    }
  }

  /** Removal takes exactly `s` out of the map. */
  lemma {:induction false} OutShape<V>(n: Node<V>, m: map<Sign, Entry<V>>, s: Sign, d: nat)
    requires n.Branch? && Shape(n, m, d) && s in m
    ensures Holds(OutIn(n, s, d, m), m - {s}, d)
    decreases n
  {
    var x := Digit(s, d);
    assert KidShape(n, m, d, x);
    SlotIsRank(n, m, d, x);
    if Kid(n, x).Leaf? {
      if |n.kids| > 2 || n.kids[1 - Rank(n.bitmap, x)].Branch? {
        RemoveShape(n, m, d, s);
      } else {
        CollapseShape(n, m, d, s);
      }
    } else {
      OutShape(Kid(n, x), Under(m, d, x), s, d + 1);
      OutKidShape(n, m, s, d, OutIn(Kid(n, x), s, d + 1, Under(m, d, x)));
    }
  }

  lemma OutKidShape<V>(n: Node<V>, m: map<Sign, Entry<V>>, s: Sign, d: nat, r: Removal<V>)
    requires n.Branch? && Shape(n, m, d) && s in m && HasKid(n, Digit(s, d))
    requires Holds(r, Under(m, d, Digit(s, d)) - {s}, d + 1)
    ensures r.Kept? ==> Shape(WithKid(n, Digit(s, d), r.node, n.minAge), m - {s}, d)
    ensures r.Collapsed? && |n.kids| > 1 ==> Shape(WithKid(n, Digit(s, d), r.leaf, n.minAge), m - {s}, d)
    ensures r.Collapsed? && |n.kids| == 1 ==> m - {s} == map[r.leaf.sign := r.leaf.entry]
  {
    var x := Digit(s, d);
    assert Under(m - {s}, d, x) == Under(m, d, x) - {s};
    if r.Kept? {
      WithKidShape(n, m, d, x, r.node, m - {s}, n.minAge);
    } else if |n.kids| > 1 {
      WithKidShape(n, m, d, x, r.leaf, m - {s}, n.minAge);
    } else {
      OnlyChild(n, m, d, x);
    }
  }

  /** The one child of a branch holds everything the branch does. */
  lemma OnlyChild<V>(n: Node<V>, m: map<Sign, Entry<V>>, d: nat, x: nat)
    requires n.Branch? && Shape(n, m, d) && |n.kids| == 1 && x in n.bitmap
    ensures Under(m, d, x) == m
  {
    forall t | t in m ensures Digit(t, d) == x {
      RankLess(n.bitmap, x, 64);
      RankLess(n.bitmap, Digit(t, d), 64);
      RankSame(n.bitmap, x, Digit(t, d));
    }
  }

  lemma RemoveAgedOff<V>(n: Node<V>, s: Sign, d: nat)
    requires n.Branch? && Aged(n) && Rank(n.bitmap, Digit(s, d)) < |n.kids|
    ensures AgedOff(RemoveKid(n, Digit(s, d)), s, d)
  {
  }

  lemma WithKidAgedOff<V>(n: Node<V>, c: Node<V>, s: Sign, d: nat)
    requires n.Branch? && Aged(n) && HasKid(n, Digit(s, d)) && AgedOff(c, s, d + 1)
    ensures AgedOff(WithKid(n, Digit(s, d), c, n.minAge), s, d)
  {
  }

  lemma {:induction false} OutAgedOff<V>(n: Node<V>, m: map<Sign, Entry<V>>, s: Sign, d: nat)
    requires n.Branch? && Shape(n, m, d) && s in m && Aged(n)
    ensures var r := OutIn(n, s, d, m); r.Kept? ==> AgedOff(r.node, s, d)
    decreases n
  {
    var x := Digit(s, d);
    assert KidShape(n, m, d, x);
    SlotIsRank(n, m, d, x);
    if Kid(n, x).Branch? {
      OutAgedOff(Kid(n, x), Under(m, d, x), s, d + 1);
      OutShape(Kid(n, x), Under(m, d, x), s, d + 1);
      var r := OutIn(Kid(n, x), s, d + 1, Under(m, d, x));
      WithKidAgedOff(n, if r.Kept? then r.node else r.leaf, s, d);
    } else {
      RemoveAgedOff(n, s, d);
    }
  }
}
