/** The slab allocator of cslab.h: pages with a header and a bitmap of free objects, and a list of the
    pages that still have one.

    Pages are numbered, and an address is a page number times the page size plus an offset.  The
    circular list is the sequence of its pages, starting at the list pointer. */
module Slabs {
  import opened Wrappers
  import opened Words
  import opened Bitmaps
  import Arith

  const PAGE_SIZE := 4096
  const FIRST_OFF := 64
  const BITMAP_SIZE := 4
  const MAX_BITS := WORD_SIZE * BITMAP_SIZE

  datatype Slab = Slab(nfree: nat, bitmap: seq<bv32>)

  // ---- Counting free objects ----

  ghost function FreeIn(b: seq<bv32>, n: nat): nat
    requires |b| == BITMAP_SIZE && n <= MAX_BITS
  {
    if n == 0 then 0 else FreeIn(b, n - 1) + if Has(b, n - 1) then 1 else 0
  }

  lemma {:induction false} FreeDiffers(b: seq<bv32>, b': seq<bv32>, v: nat, n: nat)
    requires |b| == |b'| == BITMAP_SIZE && n <= MAX_BITS && v < MAX_BITS && !Has(b, v) && Has(b', v)
    requires forall k: nat :: k < MAX_BITS && k != v ==> (Has(b, k) <==> Has(b', k))
    ensures FreeIn(b', n) == FreeIn(b, n) + if v < n then 1 else 0
  {
    if n > 0 {
      FreeDiffers(b, b', v, n - 1);
    }
  }

  lemma FreeUnset(b: seq<bv32>, v: nat, n: nat)
    requires |b| == BITMAP_SIZE && v < n <= MAX_BITS && Has(b, v)
    ensures FreeIn(WithoutBit(b, v), n) == FreeIn(b, n) - 1
  {
    forall k: nat | k < MAX_BITS ensures Has(WithoutBit(b, v), k) <==> k != v && Has(b, k) {
      HasWithoutBit(b, v, k);
    }
    FreeDiffers(WithoutBit(b, v), b, v, n);
  }

  lemma FreeSet(b: seq<bv32>, v: nat, n: nat)
    requires |b| == BITMAP_SIZE && v < n <= MAX_BITS && !Has(b, v)
    ensures FreeIn(WithBit(b, v), n) == FreeIn(b, n) + 1
  {
    forall k: nat | k < MAX_BITS ensures Has(WithBit(b, v), k) <==> k == v || Has(b, k) {
      HasWithBit(b, v, k);
    }
    FreeDiffers(b, WithBit(b, v), v, n);
  }

  lemma {:induction false} FreeBounds(b: seq<bv32>, n: nat)
    requires |b| == BITMAP_SIZE && n <= MAX_BITS
    ensures FreeIn(b, n) <= n
    ensures FreeIn(b, n) == n <==> forall k: nat :: k < n ==> Has(b, k)
    ensures FreeIn(b, n) == 0 <==> forall k: nat :: k < n ==> !Has(b, k)
  {
    if n > 0 {
      FreeBounds(b, n - 1);
    }
  }

  // ---- Pages and the free list ----

  ghost predicate SlabOk(s: Slab, max: nat) {
    |s.bitmap| == BITMAP_SIZE && max <= MAX_BITS && s.nfree == FreeIn(s.bitmap, max) < max
  }

  ghost predicate Distinct(list: seq<nat>) {
    forall i, j :: 0 <= i < j < |list| ==> list[i] != list[j]
  }

  /** Every page has a live object, and the list holds exactly the pages with a free one. */
  ghost predicate Ok(max: nat, pages: map<nat, Slab>, list: seq<nat>) {
    && (forall p {:trigger SlabOk(pages[p], max)} :: p in pages ==> SlabOk(pages[p], max))
    && (forall p :: p in list <==> p in pages && pages[p].nfree > 0)
    && Distinct(list)
  }

  /** Object `i` of page `p` is handed out. */
  ghost predicate Live(max: nat, pages: map<nat, Slab>, p: nat, i: nat) {
    p in pages && |pages[p].bitmap| == BITMAP_SIZE && i < max <= MAX_BITS && !Has(pages[p].bitmap, i)
  }

  function Unlink(list: seq<nat>, p: nat): seq<nat> {
    if list == [] then []
    else if list[0] == p then list[1..]
    else [list[0]] + Unlink(list[1..], p)
  }

  lemma {:induction false} UnlinkMeans(list: seq<nat>, p: nat)
    requires Distinct(list)
    ensures Distinct(Unlink(list, p)) && forall q :: q in Unlink(list, p) <==> q in list && q != p
  {
    if list != [] {
      var rest := list[1..];
      assert list == [list[0]] + rest;
      UnlinkMeans(rest, p);
      assert list[0] !in rest;
    }
  }

  /** The other pages keep their order. */
  lemma {:induction false} UnlinkAt(list: seq<nat>, k: nat)
    requires Distinct(list) && k < |list|
    ensures Unlink(list, list[k]) == list[..k] + list[k + 1..]
  {
    if k > 0 {
      UnlinkAt(list[1..], k - 1);
      assert list[1..][k - 1] == list[k];
      assert [list[0]] + list[1..][..k - 1] == list[..k];
    }
  }

  /** The new page goes in front, and the page that was in front comes last. */
  function Relink(list: seq<nat>, p: nat): seq<nat> {
    if list == [] then [p] else [p] + list[1..] + [list[0]]
  }

  lemma RelinkMeans(list: seq<nat>, p: nat)
    requires Distinct(list) && p !in list
    ensures Distinct(Relink(list, p)) && forall q :: q in Relink(list, p) <==> q in list || q == p
    ensures |Relink(list, p)| == |list| + 1 && Relink(list, p)[0] == p
    ensures forall i :: 1 <= i < |list| ==> Relink(list, p)[i] == list[i]
    ensures list != [] ==> Relink(list, p)[|list|] == list[0]
  {
    if list != [] {
      assert list == [list[0]] + list[1..];
    }
  }

  // ---- Addresses ----

  ghost predicate Sizes(objSz: nat, max: nat) {
    32 <= objSz <= PAGE_SIZE - FIRST_OFF && max == (PAGE_SIZE - FIRST_OFF) / objSz
  }

  function AddrOf(objSz: nat, p: nat, i: nat): nat {
    p * PAGE_SIZE + FIRST_OFF + i * objSz
  }

  function PageOf(a: nat): nat {
    a / PAGE_SIZE
  }

  function IndexOf(objSz: nat, a: nat): int
    requires objSz > 0
  {
    (a - PageOf(a) * PAGE_SIZE - FIRST_OFF) / objSz
  }

  lemma SizesMean(objSz: nat, max: nat)
    requires Sizes(objSz, max)
    ensures 1 <= max <= 126 && max * objSz <= PAGE_SIZE - FIRST_OFF
  {
    var n := PAGE_SIZE - FIRST_OFF;
    assert n == max * objSz + n % objSz;
    if max > 126 {
      Arith.MulLe(32, objSz, max);
    }
  }

  /** An object lies in its page, past the header, and its address determines it. */
  lemma ObjectInPage(objSz: nat, max: nat, p: nat, i: nat)
    requires Sizes(objSz, max) && i < max
    ensures var a := AddrOf(objSz, p, i);
      && p * PAGE_SIZE + FIRST_OFF <= a && a + objSz <= (p + 1) * PAGE_SIZE
      && PageOf(a) == p && IndexOf(objSz, a) == i
  {
    SizesMean(objSz, max);
    Arith.MulLe(i + 1, max, objSz);
    Arith.Distribute(i, 1, objSz);
    Arith.DivModIs(i * objSz, objSz, i, 0);
  }

  /** Distinct objects do not overlap. */
  lemma ObjectsDisjoint(objSz: nat, max: nat, p: nat, i: nat, q: nat, j: nat)
    requires Sizes(objSz, max) && i < max && j < max && (p != q || i != j)
    ensures AddrOf(objSz, p, i) + objSz <= AddrOf(objSz, q, j) || AddrOf(objSz, q, j) + objSz <= AddrOf(objSz, p, i)
  {
    ObjectInPage(objSz, max, p, i);
    ObjectInPage(objSz, max, q, j);
    if i < j {
      Arith.MulLe(i + 1, j, objSz);
      Arith.Distribute(i, 1, objSz);
    } else if j < i {
      Arith.MulLe(j + 1, i, objSz);
      Arith.Distribute(j, 1, objSz);
    }
  }

  // ---- Taking and returning an object ----

  ghost predicate LiveAlso(max: nat, pages: map<nat, Slab>, pages': map<nat, Slab>, p: nat, i: nat) {
    forall q: nat, j: nat {:trigger Live(max, pages', q, j)} ::
      Live(max, pages', q, j) <==> Live(max, pages, q, j) || (q == p && j == i)
  }

  function Taken(s: Slab, v: nat): Slab
    requires |s.bitmap| == BITMAP_SIZE && v < MAX_BITS && s.nfree > 0
  {
    Slab(s.nfree - 1, WithoutBit(s.bitmap, v))
  }

  /** Page `p` is in the list and may be entirely free; everything else is as it should be. */
  ghost predicate Ready(max: nat, pages: map<nat, Slab>, list: seq<nat>, p: nat) {
    && p in list && Distinct(list) && 1 <= max <= MAX_BITS
    && (forall q {:trigger SlabOk(pages[q], max)} :: q in pages && q != p ==> SlabOk(pages[q], max))
    && (forall q :: q in list <==> q in pages && pages[q].nfree > 0)
    && |pages[p].bitmap| == BITMAP_SIZE && pages[p].nfree == FreeIn(pages[p].bitmap, max)
  }

  lemma TakeOk(max: nat, pages: map<nat, Slab>, list: seq<nat>, p: nat, v: nat)
    requires Ready(max, pages, list, p) && v < max && Has(pages[p].bitmap, v)
    ensures pages[p].nfree > 0
    ensures Ok(max, pages[p := Taken(pages[p], v)], if pages[p].nfree == 1 then Unlink(list, p) else list)
  {
    var s := pages[p];
    FreeUnset(s.bitmap, v, max);
    FreeBounds(s.bitmap, max);
    UnlinkMeans(list, p);
    var pages' := pages[p := Taken(s, v)];
    forall q | q in pages' ensures SlabOk(pages'[q], max) {
      assert q != p ==> SlabOk(pages[q], max);
    }
  }

  lemma TakeLive(max: nat, pages: map<nat, Slab>, p: nat, v: nat)
    requires p in pages && v < max <= MAX_BITS && |pages[p].bitmap| == BITMAP_SIZE && pages[p].nfree > 0
    requires Has(pages[p].bitmap, v)
    ensures !Live(max, pages, p, v) && LiveAlso(max, pages, pages[p := Taken(pages[p], v)], p, v)
  {
    var pages' := pages[p := Taken(pages[p], v)];
    forall q: nat, j: nat ensures Live(max, pages', q, j) <==> Live(max, pages, q, j) || (q == p && j == v) {
      if q == p && j < max {
        HasWithoutBit(pages[p].bitmap, v, j);
      }
    }
  }

  /** A fresh page: all objects free, and the only page in the list. */
  lemma FreshReady(max: nat, pages: map<nat, Slab>, p: nat, b: seq<bv32>)
    requires Ok(max, pages, []) && p !in pages && 1 <= max <= MAX_BITS
    requires |b| == BITMAP_SIZE && forall k :: 0 <= k < BITMAP_SIZE ==> b[k] == 0xFFFF_FFFF
    ensures Ready(max, pages[p := Slab(max, b)], [p], p)
    ensures forall q: nat, j: nat {:trigger Live(max, pages, q, j)} ::
      Live(max, pages[p := Slab(max, b)], q, j) <==> Live(max, pages, q, j)
  {
    forall k: nat | k < MAX_BITS ensures Has(b, k) {
      HasAll(b, k);
    }
    FreeBounds(b, max);
    forall q | q in pages ensures pages[q].nfree == 0 && SlabOk(pages[q], max) {
      assert SlabOk(pages[q], max);
      assert q !in [];
    }
  }

  lemma ListedReady(max: nat, pages: map<nat, Slab>, list: seq<nat>)
    requires Ok(max, pages, list) && list != []
    ensures Ready(max, pages, list, list[0])
  {
    assert list[0] in list;
    assert SlabOk(pages[list[0]], max);
  }

  /** A page leaves the list with its last free object. */
  function ListAfter(list: seq<nat>, pages: map<nat, Slab>, p: nat): seq<nat> {
    if p in pages && pages[p].nfree == 0 then Unlink(list, p) else list
  }

  /** Finds the first free object of page `p`, which is at the head of the list, and takes it. */
  method TakeFrom(max: nat, pages: map<nat, Slab>, list: seq<nat>, p: nat)
      returns (v: nat, pages': map<nat, Slab>, list': seq<nat>)
    requires Ready(max, pages, list, p)
    ensures v < max && !Live(max, pages, p, v) && LiveAlso(max, pages, pages', p, v)
    ensures forall j: nat {:trigger Live(max, pages, p, j)} :: j < v ==> Live(max, pages, p, j)
    ensures Ok(max, pages', list') && p in pages' && pages' == pages[p := pages'[p]]
    ensures list' == ListAfter(list, pages', p)
  {
    var s := pages[p];
    var idx := One(s.bitmap, BITMAP_SIZE);
    FreeBounds(s.bitmap, max);
    assert 0 <= idx < max;
    v := idx;
    TakeOk(max, pages, list, p, v);
    TakeLive(max, pages, p, v);
    pages' := pages[p := Taken(s, v)];
    list' := if s.nfree == 1 then Unlink(list, p) else list;
  }

  function Returned(s: Slab, v: nat): Slab
    requires |s.bitmap| == BITMAP_SIZE && v < MAX_BITS
  {
    Slab(s.nfree + 1, WithBit(s.bitmap, v))
  }

  /** `v` is the only live object of page `p`. */
  ghost predicate LastObject(max: nat, pages: map<nat, Slab>, p: nat, v: nat) {
    forall j: nat {:trigger Live(max, pages, p, j)} :: Live(max, pages, p, j) ==> j == v
  }

  lemma ReturnCount(max: nat, pages: map<nat, Slab>, p: nat, v: nat)
    requires Live(max, pages, p, v) && SlabOk(pages[p], max)
    ensures var s' := Returned(pages[p], v);
      s'.nfree == FreeIn(s'.bitmap, max) <= max && (s'.nfree == max <==> LastObject(max, pages, p, v))
  {
    var s, s' := pages[p], Returned(pages[p], v);
    FreeSet(s.bitmap, v, max);
    FreeBounds(s'.bitmap, max);
    forall j: nat | j < max ensures Has(s'.bitmap, j) <==> j == v || !Live(max, pages, p, j) {
      HasWithBit(s.bitmap, v, j);
    }
  }

  lemma ReturnLive(max: nat, pages: map<nat, Slab>, p: nat, v: nat)
    requires Live(max, pages, p, v)
    ensures LiveAlso(max, pages[p := Returned(pages[p], v)], pages, p, v)
    ensures !Live(max, pages[p := Returned(pages[p], v)], p, v)
  {
    var pages' := pages[p := Returned(pages[p], v)];
    HasWithBit(pages[p].bitmap, v, v);
    forall q: nat, j: nat ensures Live(max, pages, q, j) <==> Live(max, pages', q, j) || (q == p && j == v) {
      if q == p && j < max {
        HasWithBit(pages[p].bitmap, v, j);
      }
    }
  }

  /** Returning the last object of a page. */
  lemma ReleaseOk(max: nat, pages: map<nat, Slab>, list: seq<nat>, p: nat, v: nat)
    requires Ok(max, pages, list) && Live(max, pages, p, v) && LastObject(max, pages, p, v)
    ensures Ok(max, pages - {p}, Unlink(list, p))
    ensures LiveAlso(max, pages - {p}, pages, p, v) && !Live(max, pages - {p}, p, v)
  {
    UnlinkMeans(list, p);
    var pages' := pages - {p};
    forall q | q in pages' ensures SlabOk(pages'[q], max) {
      assert SlabOk(pages[q], max);
    }
  }

  /** Returning an object of a page that keeps others. */
  lemma ReturnOk(max: nat, pages: map<nat, Slab>, list: seq<nat>, p: nat, v: nat)
    requires Ok(max, pages, list) && Live(max, pages, p, v) && !LastObject(max, pages, p, v)
    ensures Ok(max, pages[p := Returned(pages[p], v)], if pages[p].nfree == 0 then Relink(list, p) else list)
  {
    assert SlabOk(pages[p], max);
    ReturnCount(max, pages, p, v);
    if pages[p].nfree == 0 {
      RelinkMeans(list, p);
    }
    var pages' := pages[p := Returned(pages[p], v)];
    forall q | q in pages' ensures SlabOk(pages'[q], max) {
      assert q != p ==> SlabOk(pages[q], max);
    }
  }

  class Allocator {
    const objSz: nat
    const max: nat
    var pages: map<nat, Slab>
    var list: seq<nat>
    ghost var held: set<nat>  // pages obtained from the page allocator and not given back

    ghost predicate Valid()
      reads this
    {
      Sizes(objSz, max) && Ok(max, pages, list) && pages.Keys == held
    }

    constructor (objSz: nat)
      requires 32 <= objSz <= PAGE_SIZE - FIRST_OFF
      ensures Valid() && pages == map[] && list == [] && held == {} && this.objSz == objSz
    {
      this.objSz, max := objSz, (PAGE_SIZE - FIRST_OFF) / objSz;
      pages, list, held := map[], [], {};
    }

    /** `newPage` is what the page allocator would return; it is asked only if the list is empty.  The
        object is the first free one of the new page, or of the page at the head of the list. */
    method Alloc(newPage: Option<nat>) returns (mem: Option<nat>, ghost p: nat, ghost i: nat)
      requires Valid() && (newPage.Some? ==> newPage.value !in pages)
      modifies this
      ensures Valid()
      ensures mem.None? <==> old(list) == [] && newPage.None?
      ensures mem.None? ==> pages == old(pages) && list == old(list)
      ensures mem.Some? ==>
        && mem.value == AddrOf(objSz, p, i) && i < max
        && !Live(max, old(pages), p, i) && LiveAlso(max, old(pages), pages, p, i)
        && p == (if old(list) == [] then newPage.value else old(list)[0])
        && (forall j: nat {:trigger Live(max, pages, p, j)} :: j < i ==> Live(max, pages, p, j))
        && list == ListAfter(if old(list) == [] then [p] else old(list), pages, p)
      ensures held == old(held) + if old(list) == [] && newPage.Some? then {newPage.value} else {}
      ensures forall q :: q in old(pages) && (mem.None? || q != p) ==> q in pages && pages[q] == old(pages)[q]
    {
      SizesMean(objSz, max);
      p, i := 0, 0;
      var page;
      ghost var before := pages;
      if list == [] {
        if newPage.None? {
          return None, 0, 0;
        }
        page := newPage.value;
        var full := [0xFFFF_FFFF, 0xFFFF_FFFF, 0xFFFF_FFFF, 0xFFFF_FFFF];
        FreshReady(max, pages, page, full);
        pages, list, held := pages[page := Slab(max, full)], [page], held + {newPage.value};
      } else {
        page := list[0];
        ListedReady(max, pages, list);
      }
      var v;
      ghost var ready := pages;
      v, pages, list := TakeFrom(max, pages, list, page);
      p, i := page, v;
      assert pages.Keys == ready.Keys;
      assert LiveAlso(max, before, pages, p, i);
      mem := Some(AddrOf(objSz, page, v));
    }

    /** The page is given back exactly when `buf` was its last live object. */
    method Free(buf: nat, ghost p: nat, ghost i: nat) returns (freedPage: Option<nat>)
      requires Valid() && Live(max, pages, p, i) && buf == AddrOf(objSz, p, i)
      modifies this
      ensures Valid()
      ensures LiveAlso(max, pages, old(pages), p, i) && !Live(max, pages, p, i)
      ensures freedPage == if LastObject(max, old(pages), p, i) then Some(p) else None
      ensures held == old(held) - if freedPage.Some? then {freedPage.value} else {}
      ensures list == if freedPage.Some? then Unlink(old(list), p)
                      else if old(pages)[p].nfree == 0 then Relink(old(list), p) else old(list)
      ensures forall q :: q in old(pages) && q != p ==> q in pages && pages[q] == old(pages)[q]
    {
      ObjectInPage(objSz, max, p, i);
      var page, idx := PageOf(buf), IndexOf(objSz, buf);
      var s := pages[page];
      assert SlabOk(s, max);
      ReturnCount(max, pages, p, i);
      if s.nfree + 1 == max {
        ReleaseOk(max, pages, list, p, i);
        pages, list, held := pages - {page}, Unlink(list, page), held - {page};
        return Some(page);
      }
      ReturnOk(max, pages, list, p, i);
      ReturnLive(max, pages, p, i);
      pages := pages[page := Slab(s.nfree + 1, WithBit(s.bitmap, idx))];
      if s.nfree == 0 {
        list := Relink(list, page);
      }
      freedPage := None;
    }
  }
}
