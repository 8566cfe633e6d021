/** The array heap of heap.c: a 1-based binary heap whose entries know their own slot.

    The source calls `c(a, b)` ("is a >= b?") on entries whose keys live outside the heap
    and change in place.  Here each operation is handed the comparator as it evaluates at
    that moment, so "the key of one entry changed" is "the comparator changed on pairs that
    mention that entry".  The update callback `u(entry, pos)` writes the map `idx`. */
module Heaps {
  import opened Wrappers

  ghost predicate TotalPreorder<T(!new)>(ge: (T, T) -> bool) {
    && (forall a, b :: ge(a, b) || ge(b, a))
    && (forall a, b, c :: ge(a, b) && ge(b, c) ==> ge(a, c))
  }

  /** Heap order of the slots 1, 2, ... of `s`; slot 0 is unused. */
  ghost predicate Ordered<T>(s: seq<T>, ge: (T, T) -> bool) {
    forall i :: 2 <= i < |s| ==> ge(s[i / 2], s[i])
  }

  /** Heap order everywhere except on the links of slot `c`, which its neighbours skip over:
      what is left of the order once the key of the entry in slot `c` has changed. */
  ghost predicate OrderedAround<T>(s: seq<T>, c: nat, ge: (T, T) -> bool) {
    && (forall i :: 2 <= i < |s| && i != c && i / 2 != c ==> ge(s[i / 2], s[i]))
    && (forall i :: 2 <= i < |s| && i / 2 == c && 2 <= c ==> ge(s[c / 2], s[i]))
  }

  /** As above, and the entry in slot `c` is in order with its parent. */
  ghost predicate OrderedAbove<T>(s: seq<T>, c: nat, ge: (T, T) -> bool) {
    && OrderedAround(s, c, ge)
    && (2 <= c < |s| ==> ge(s[c / 2], s[c]))
  }

  ghost function Swapped<T>(s: seq<T>, a: nat, b: nat): (r: seq<T>)
    requires a < |s| && b < |s|
  {
    s[a := s[b]][b := s[a]]
  }

  lemma SwapUpStep<T(!new)>(s: seq<T>, c: nat, ge: (T, T) -> bool)
    requires TotalPreorder(ge) && 2 <= c < |s| && OrderedAround(s, c, ge) && !ge(s[c / 2], s[c])
    ensures OrderedAround(Swapped(s, c / 2, c), c / 2, ge)
  {
    var p := c / 2;
    var r := Swapped(s, p, c);
    assert ge(s[c], s[p]);
    forall i | 2 <= i < |r| && i != p && i / 2 != p ensures ge(r[i / 2], r[i]) {}
    forall i | 2 <= i < |r| && i / 2 == p && 2 <= p ensures ge(r[p / 2], r[i]) {
      assert ge(s[p / 2], s[p]);
    }
  }

  ghost function Shrunk<T>(s: seq<T>): seq<T>
    requires |s| > 1
  {
    s[1 := s[|s| - 1]][..|s| - 1]
  }

  lemma RootReplaced<T>(s: seq<T>, ge: (T, T) -> bool)
    requires |s| > 1 && Ordered(s, ge)
    ensures OrderedAbove(Shrunk(s), 1, ge)
  {
  }

  lemma SwapDownStep<T(!new)>(s: seq<T>, c: nat, n: nat, ge: (T, T) -> bool)
    requires TotalPreorder(ge) && 1 <= c && 2 <= n < |s| && n / 2 == c
    requires OrderedAbove(s, c, ge) && !ge(s[c], s[n])
    requires forall i :: 2 <= i < |s| && i / 2 == c ==> ge(s[n], s[i])
    ensures OrderedAbove(Swapped(s, n, c), n, ge)
  {
    var r := Swapped(s, n, c);
    forall i | 2 <= i < |r| && i != n && i / 2 != n ensures ge(r[i / 2], r[i]) {}
    forall i | 2 <= i < |r| && i / 2 == n ensures ge(r[n / 2], r[i]) {}
  }

  lemma SwapDownDone<T(!new)>(s: seq<T>, c: nat, n: nat, ge: (T, T) -> bool)
    requires TotalPreorder(ge) && 1 <= c && 2 <= n < |s| && n / 2 == c
    requires OrderedAbove(s, c, ge) && ge(s[c], s[n])
    requires forall i :: 2 <= i < |s| && i / 2 == c ==> ge(s[n], s[i])
    ensures Ordered(s, ge)
  {
  }

  /** The child of slot `c` that the heap would promote: the left one unless the right one beats it. */
  function HeavierChild<T(!new)>(s: seq<T>, c: nat, ge: (T, T) -> bool): (n: nat)
    requires TotalPreorder(ge) && 1 <= c && 2 * c < |s|
    ensures n / 2 == c && n < |s|
    ensures forall i :: 2 <= i < |s| && i / 2 == c ==> ge(s[n], s[i])
  {
    var left, right := 2 * c, 2 * c + 1;
    if right > |s| - 1 then left else if ge(s[left], s[right]) then left else right
  }

  /** In heap order the entry in slot 1 is at least every other entry. */
  lemma {:induction false} RootIsMax<T(!new)>(s: seq<T>, ge: (T, T) -> bool, i: nat)
    requires TotalPreorder(ge) && Ordered(s, ge) && 1 <= i < |s|
    ensures ge(s[1], s[i])
    decreases i
  {
    if i > 1 {
      RootIsMax(s, ge, i / 2);
    }
  }

  /** Changing the key of one entry leaves the order around its slot. */
  lemma KeyChange<T(!new)>(s: seq<T>, c: nat, was: (T, T) -> bool, ge: (T, T) -> bool)
    requires TotalPreorder(was) && Ordered(s, was) && 1 <= c < |s|
    requires forall i, j :: 1 <= i < |s| && 1 <= j < |s| && i != c && j != c ==> ge(s[i], s[j]) == was(s[i], s[j])
    ensures OrderedAround(s, c, ge)
  {
    forall i | 2 <= i < |s| && i / 2 == c && 2 <= c ensures ge(s[c / 2], s[i]) {
      assert was(s[c / 2], s[c]) && was(s[c], s[i]);
    }
  }

  lemma OrderedIsAround<T(!new)>(s: seq<T>, c: nat, ge: (T, T) -> bool)
    requires TotalPreorder(ge) && Ordered(s, ge) && 1 <= c < |s|
    ensures OrderedAround(s, c, ge)
  {
    KeyChange(s, c, ge, ge);
  }

  /** Moving the last entry into slot `c` leaves the order around that slot. */
  lemma FillHole<T(!new)>(s: seq<T>, c: nat, ge: (T, T) -> bool)
    requires OrderedAround(s, c, ge) && 1 <= c < |s|
    ensures if c == |s| - 1 then Ordered(s[..|s| - 1], ge) else OrderedAround(s[..|s| - 1][c := s[|s| - 1]], c, ge)
  {
  }

  lemma {:induction false} SlotsCount<T>(s: seq<T>, k: nat)
    requires 1 <= k <= |s| && forall i, j :: 1 <= i < j < |s| ==> s[i] != s[j]
    ensures |(set i | 1 <= i < k :: s[i])| == k - 1
    decreases k
  {
    if k > 1 {
      SlotsCount(s, k - 1);
      assert (set i | 1 <= i < k :: s[i]) == (set i | 1 <= i < k - 1 :: s[i]) + {s[k - 1]};
    }
  }

  class Heap<T(==,!new)> {
    const data: array<T>
    var e: nat             // one past the last used slot; slot 0 is never used
    var idx: map<T, nat>   // slot recorded in each entry by the update callback; 0 once removed
    ghost var elems: set<T>

    /** Every stored entry's recorded index is its slot, and nothing else claims a slot. */
    ghost predicate Valid()
      reads this, data
    {
      && 1 <= e <= data.Length
      && (forall i :: 1 <= i < e ==> data[i] in idx && idx[data[i]] == i)
      && (forall x :: x in idx && idx[x] != 0 ==> idx[x] < e && data[idx[x]] == x)
      && (forall x :: x in elems <==> x in idx && idx[x] != 0)
    }

    ghost predicate ValidFor(ge: (T, T) -> bool)
      reads this, data
    {
      Valid() && Ordered(data[..e], ge)
    }

    constructor (maxSize: nat, filler: T)
      ensures Valid() && fresh(data) && data.Length == maxSize + 1
      ensures e == 1 && idx == map[] && elems == {}
    {
      data := new T[maxSize + 1](_ => filler);
      e := 1;
      idx := map[];
      elems := {};
    }

    lemma Size()
      requires Valid()
      ensures |elems| == e - 1
    {
      SlotsCount(data[..e], e);
      assert elems == set i | 1 <= i < e :: data[..e][i];
    }

    method Swap(a: nat, b: nat)
      requires Valid() && 1 <= a < e && 1 <= b < e && a != b
      modifies data, this`idx
      ensures Valid() && idx.Keys == old(idx.Keys)
      ensures data[..e] == Swapped(old(data[..e]), a, b)
    {
      data[a], data[b] := data[b], data[a];
      idx := idx[data[a] := a];
      idx := idx[data[b] := b];
      assert forall x :: x in idx <==> x in old(idx);
    }

    /** One turn of swap_up: the entry in slot `c` beats its parent in slot `p`. */
    method Lift(c: nat, p: nat, ge: (T, T) -> bool)
      requires Valid() && TotalPreorder(ge) && 2 <= c < e && p == c / 2 && !ge(data[p], data[c])
      requires OrderedAround(data[..e], c, ge)
      modifies data, this`idx
      ensures Valid() && idx.Keys == old(idx.Keys) && data[p] == old(data[c]) && OrderedAround(data[..e], p, ge)
    {
      ghost var s := data[..e];
      SwapUpStep(s, c, ge);
      Swap(p, c);
      assert data[p] == data[..e][p] == Swapped(s, p, c)[p] == s[c];
    }

    method SwapUp(start: nat, ge: (T, T) -> bool) returns (c: nat)
      requires Valid() && TotalPreorder(ge) && 1 <= start < e && OrderedAround(data[..e], start, ge)
      modifies data, this`idx
      ensures Valid() && idx.Keys == old(idx.Keys)
      ensures 1 <= c < e && data[c] == old(data[start]) && OrderedAbove(data[..e], c, ge)
    {
      c := start;
      while c > 1
        invariant Valid() && idx.Keys == old(idx.Keys)
        invariant 1 <= c < e && data[c] == old(data[start]) && OrderedAround(data[..e], c, ge)
      {
        var p := c / 2;
        if ge(data[p], data[c]) {
          break;
        }
        Lift(c, p, ge);
        c := p;
      }
    }

    method SwapDown(start: nat, ge: (T, T) -> bool) returns (c: nat)
      requires Valid() && TotalPreorder(ge) && 1 <= start <= e && OrderedAbove(data[..e], start, ge)
      modifies data, this`idx
      ensures Valid() && idx.Keys == old(idx.Keys)
      ensures Ordered(data[..e], ge)
    {
      c := start;
      var l := e - 1;
      while c <= l / 2
        invariant Valid() && idx.Keys == old(idx.Keys)
        invariant OrderedAbove(data[..e], c, ge)
        invariant 1 <= c <= e && l == e - 1
        decreases e - c
      {
        var n := HeavierChild(data[..e], c, ge);
        if ge(data[c], data[n]) {
          SwapDownDone(data[..e], c, n, ge);
          break;
        }
        SwapDownStep(data[..e], c, n, ge);
        Swap(n, c);
        c := n;
      }
    }

    method Heapify(start: nat, ge: (T, T) -> bool) returns (c: nat)
      requires Valid() && TotalPreorder(ge) && 1 <= start < e && OrderedAround(data[..e], start, ge)
      modifies data, this`idx
      ensures ValidFor(ge) && idx.Keys == old(idx.Keys)
    {
      c := SwapUp(start, ge);
      c := SwapDown(c, ge);
    }

    /** Refused, with nothing changed, exactly when the array is full. */
    method Add(x: T, ge: (T, T) -> bool) returns (ok: bool)
      requires ValidFor(ge) && TotalPreorder(ge) && x !in elems
      modifies this, data
      ensures ValidFor(ge) && ok == (old(e) < data.Length)
      ensures ok ==> e == old(e) + 1 && elems == old(elems) + {x} && idx.Keys == old(idx.Keys) + {x}
      ensures !ok ==> e == old(e) && idx == old(idx) && data[..] == old(data[..])
    {
      if data.Length == e {
        return false;
      }
      var c := e;
      data[c] := x;
      idx := idx[x := c];
      e := e + 1;
      elems := elems + {x};
      assert data[..e] == old(data[..e]) + [x];
      var _ := Heapify(c, ge);
      ok := true;
    }

    /** `c` is the slot of the one entry whose key changed since the heap was in order. */
    method Adjust(c: nat, ge: (T, T) -> bool)
      requires Valid() && TotalPreorder(ge) && 1 <= c < e && OrderedAround(data[..e], c, ge)
      modifies data, this`idx
      ensures ValidFor(ge) && idx.Keys == old(idx.Keys)
    {
      var _ := Heapify(c, ge);
    }

    /** Nothing, with nothing changed, exactly when the heap is empty. */
    method Highest(ge: (T, T) -> bool) returns (r: Option<T>)
      requires ValidFor(ge) && TotalPreorder(ge)
      modifies this, data
      ensures ValidFor(ge) && (r.None? <==> old(elems) == {}) && (r.None? <==> old(e) == 1)
      ensures r.None? ==> e == old(e) && elems == old(elems) && idx == old(idx) && data[..] == old(data[..])
      ensures r.Some? ==> e == old(e) - 1 && r.value in old(elems) && elems == old(elems) - {r.value}
      ensures r.Some? ==> forall x :: x in old(elems) ==> ge(r.value, x)
      ensures r.Some? ==> idx.Keys == old(idx.Keys) && idx[r.value] == 0
    {
      if e == 1 {
        return None;
      }
      assert data[1] in elems;
      var top := TakeTop(ge);
      r := Some(top);
    }

    method TakeTop(ge: (T, T) -> bool) returns (r: T)
      requires ValidFor(ge) && TotalPreorder(ge) && e > 1
      modifies this, data
      ensures ValidFor(ge) && e == old(e) - 1
      ensures r in old(elems) && elems == old(elems) - {r}
      ensures forall x :: x in old(elems) ==> ge(r, x)
      ensures idx.Keys == old(idx.Keys) && idx[r] == 0
    {
      forall x | x in elems ensures ge(data[1], x) {
        RootIsMax(data[..e], ge, idx[x]);
      }
      RootReplaced(data[..e], ge);
      r := MoveLastUp();
      var _ := SwapDown(1, ge);
    }

    /** The last entry takes the slot of the first, which is removed. */
    method MoveLastUp() returns (r: T)
      requires Valid() && e > 1
      modifies this, data
      ensures Valid() && e == old(e) - 1 && r == old(data[1]) && r in old(elems) && elems == old(elems) - {r}
      ensures idx.Keys == old(idx.Keys) && idx[r] == 0
      ensures data[..e] == Shrunk(old(data[..e]))
    {
      r := data[1];
      e := e - 1;
      data[1] := data[e];
      idx := idx[data[1] := 1];
      idx := idx[r := 0];
      elems := elems - {r};
    }

    /** Nothing exactly when the heap is empty. */
    method Peek(ge: (T, T) -> bool) returns (r: Option<T>)
      requires ValidFor(ge) && TotalPreorder(ge)
      ensures (r.None? <==> elems == {}) && (r.None? <==> e == 1)
      ensures r.Some? ==> r.value in elems && r.value == data[1] && forall x :: x in elems ==> ge(r.value, x)
    {
      if e == 1 {
        return None;
      }
      assert data[1] in elems;
      r := Some(data[1]);
      forall x | x in elems ensures ge(data[1], x) {
        RootIsMax(data[..e], ge, idx[x]);
      }
    }

    /** The key of the removed entry need not be in order. */
    method Remove(c: nat, ge: (T, T) -> bool) returns (r: T)
      requires Valid() && TotalPreorder(ge) && 1 <= c < e && OrderedAround(data[..e], c, ge)
      modifies this, data
      ensures ValidFor(ge) && e == old(e) - 1 && r == old(data[c])
      ensures elems == old(elems) - {r} && idx.Keys == old(idx.Keys) && idx[r] == 0
    {
      ghost var was := data[..e];
      FillHole(was, c, ge);
      r := TakeOut(c);
      if c == e {
        return;
      }
      assert data[..e] == was[..e][c := was[e]];
      Adjust(c, ge);
    }

    /** The first half of a removal: the last entry takes the slot of the removed one. */
    method TakeOut(c: nat) returns (r: T)
      requires Valid() && 1 <= c < e
      modifies this, data
      ensures Valid() && e == old(e) - 1 && r == old(data[c])
      ensures elems == old(elems) - {r} && idx.Keys == old(idx.Keys) && idx[r] == 0
      ensures data[..e] == if c == e then old(data[..e])[..e] else old(data[..e])[..e][c := old(data[..e])[e]]
    {
      r := data[c];
      e := e - 1;
      idx := idx[r := 0];
      elems := elems - {r};
      if c == e {
        return;
      }
      data[c] := data[e];
      idx := idx[data[c] := c];
    }
  }
}
