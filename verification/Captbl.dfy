/** Capabilities packed into cache lines, captbl.h: a line has four 16-byte slots, and all live
    capabilities in it have one size of 16, 32 or 64 bytes, kept in the header of the line. */
module Captbl {
  import opened Wrappers
  import Ertrie

  const SLOTS := 4
  const LEAF_LINES := 32
  const MAX_ID := 0x1_0000

  const EINVAL := -22
  const EPERM := -1
  const EEXIST := -17

  datatype Size = Sz16 | Sz32 | Sz64

  datatype Kind = Free | Sinv | Sret | Asnd | Arcv | Thd | CapTable | PageTable

  /** `amap` and `size` are the header of the line, `kinds` the type fields of the four slots. */
  datatype Line = Line(amap: seq<bool>, size: Size, readOnly: bool, kinds: seq<Kind>)

  function Extent(sz: Size): nat {
    match sz case Sz16 => 1 case Sz32 => 2 case Sz64 => 4
  }

  function KindSize(k: Kind): Option<Size> {
    match k
    case Thd => Some(Sz16)
    case Sret => Some(Sz16)
    case Sinv => Some(Sz32)
    case Asnd => Some(Sz32)
    case Arcv => Some(Sz32)
    case _ => None
  }

  /** The slots at which a capability of a size may start. */
  function Mask(sz: Size): seq<bool> {
    match sz
    case Sz16 => [true, true, true, true]
    case Sz32 => [true, false, true, false]
    case Sz64 => [true, false, false, false]
  }

  lemma MaskMeans(sz: Size, c: nat)
    requires c < SLOTS
    ensures Mask(sz)[c] <==> c % Extent(sz) == 0
  {}

  ghost predicate Empty(l: Line) {
    forall c :: 0 <= c < |l.amap| ==> !l.amap[c]
  }

  ghost predicate Starts(l: Line, c: nat)
    requires |l.amap| == SLOTS
  {
    c < SLOTS && l.amap[c]
  }

  /** A live capability at slot `c` extends over slot `s`. */
  ghost predicate Covers(l: Line, c: nat, s: nat)
    requires |l.amap| == SLOTS
  {
    Starts(l, c) && c <= s < c + Extent(l.size)
  }

  ghost predicate LineOk(l: Line) {
    && |l.amap| == SLOTS && |l.kinds| == SLOTS
    && (forall c: nat {:trigger Starts(l, c)} ::
         Starts(l, c) ==> Mask(l.size)[c] && KindSize(l.kinds[c]) == Some(l.size))
    && (Empty(l) ==> l.size == Sz64)
  }

  function BlankLine(): Line {
    Line([false, false, false, false], Sz64, false, [Free, Free, Free, Free])
  }

  /** The slot of the live capability that a slot belongs to. */
  function GetLeaf(l: Line, s: nat): Option<nat>
    requires |l.amap| == SLOTS && s < SLOTS
  {
    var c := s - s % Extent(l.size);
    if l.amap[c] then Some(c) else None
  }

  /** Lookup finds exactly the live capability that covers the slot. */
  lemma GetLeafCovers(l: Line, s: nat, c: nat)
    requires LineOk(l) && s < SLOTS
    ensures GetLeaf(l, s) == Some(c) <==> Covers(l, c, s)
    ensures GetLeaf(l, s) == Some(c) ==> c + Extent(l.size) <= SLOTS
  {
    assert Starts(l, c) ==> Mask(l.size)[c];
    var d := s - s % Extent(l.size);
    assert Starts(l, d) ==> Mask(l.size)[d];
  }

  /** Live capabilities do not overlap. */
  lemma ExtentsDisjoint(l: Line, c: nat, d: nat, s: nat)
    requires LineOk(l) && s < SLOTS && Covers(l, c, s) && Covers(l, d, s)
    ensures c == d
  {
    GetLeafCovers(l, s, c);
    GetLeafCovers(l, s, d);
  }

  // ---- One line ----

  /** There is room for a capability of size `sz` at `off`: the slot is a legal start, and the line
      is empty or holds capabilities of that size, none of them at `off`. */
  ghost predicate Fits(l: Line, off: nat, sz: Size)
    requires |l.amap| == SLOTS && off < SLOTS
  {
    !l.readOnly && Mask(sz)[off] && (Empty(l) || (l.size == sz && !l.amap[off]))
  }

  /** A capability of any size can be added at every multiple of its size. */
  ghost predicate Roomy(l: Line) {
    |l.amap| == SLOTS && forall off: nat, sz :: off < SLOTS && off % Extent(sz) == 0 ==> Fits(l, off, sz)
  }

  lemma BlankIsRoomy()
    ensures Roomy(BlankLine()) && !BlankLine().readOnly
  {
    forall off: nat, sz | off < SLOTS && off % Extent(sz) == 0 ensures Fits(BlankLine(), off, sz) {
      MaskMeans(sz, off);
    }
  }

  /** There is room exactly if no live capability covers any of the slots, and the sizes agree. */
  lemma FitsMeans(l: Line, off: nat, sz: Size)
    requires LineOk(l) && off < SLOTS
    ensures Fits(l, off, sz) <==>
      && !l.readOnly && off % Extent(sz) == 0 && (Empty(l) || l.size == sz)
      && forall s: nat :: off <= s < off + Extent(sz) && s < SLOTS ==> GetLeaf(l, s) == None
  {
    MaskMeans(sz, off);
    if Fits(l, off, sz) {
      forall s: nat | off <= s < off + Extent(sz) && s < SLOTS ensures GetLeaf(l, s) == None {
        assert Empty(l) || s - s % Extent(l.size) == off;
      }
    } else if l.size == sz && Mask(sz)[off] && l.amap[off] {
      assert GetLeaf(l, off) == Some(off);
    }
  }

  function Added(l: Line, off: nat, k: Kind, sz: Size): Line
    requires |l.amap| == SLOTS == |l.kinds| && off < SLOTS
  {
    Line(l.amap[off := true], sz, l.readOnly, l.kinds[off := k])
  }

  method AnyLive(amap: seq<bool>) returns (r: bool)
    ensures r <==> exists c :: 0 <= c < |amap| && amap[c]
  {
    r := false;
    var i := 0;
    while i < |amap|
      invariant 0 <= i <= |amap| && (r <==> exists c :: 0 <= c < i && amap[c])
    {
      r := r || amap[i];
      i := i + 1;
    }
  }

  /** `__captbl_header_validate`: the size is the expected one and no bit is outside its mask. */
  method HeaderInvalid(amap: seq<bool>, size: Size, sz: Size) returns (bad: bool)
    requires |amap| == SLOTS
    ensures bad <==> sz != size || exists c :: 0 <= c < SLOTS && amap[c] && !Mask(sz)[c]
  {
    bad := sz != size;
    var i := 0;
    while i < SLOTS
      invariant 0 <= i <= SLOTS && (bad <==> sz != size || exists c :: 0 <= c < i && amap[c] && !Mask(sz)[c])
    {
      bad := bad || (amap[i] && !Mask(sz)[i]);
      i := i + 1;
    }
  }

  predicate Smaller(a: Size, b: Size) {
    Extent(a) < Extent(b)
  }

  /** The slot is in use, or the line holds capabilities of another size. */
  ghost predicate Taken(l: Line, off: nat, sz: Size)
    requires |l.amap| == SLOTS && off < SLOTS
  {
    l.amap[off] || (!Empty(l) && l.size != sz)
  }

  method AddToLine(l: Line, off: nat, k: Kind, sz: Size) returns (l': Line, ret: int)
    requires LineOk(l) && off < SLOTS && KindSize(k) == Some(sz)
    ensures ret == 0 <==> Fits(l, off, sz)
    ensures l' == if ret == 0 then Added(l, off, k, sz) else l
    ensures ret == if l.readOnly then EPERM
                   else if Taken(l, off, sz) then EEXIST
                   else if Mask(sz)[off] then 0 else EINVAL
  {
    if l.readOnly {
      return l, EPERM;
    }
    if l.amap[off] {
      return l, EEXIST;
    }
    var live := AnyLive(l.amap);
    if (live && l.size != sz) || Smaller(l.size, sz) {
      return l, EEXIST;
    }
    var amap := l.amap[off := true];
    var bad := HeaderInvalid(amap, sz, sz);
    ValidateMeans(l, off, sz);
    if bad {
      return l, EINVAL;
    }
    return Line(amap, sz, l.readOnly, l.kinds[off := k]), 0;
  }

  lemma ValidateMeans(l: Line, off: nat, sz: Size)
    requires LineOk(l) && off < SLOTS && (Empty(l) || l.size == sz)
    ensures Mask(sz)[off] <==> forall c :: 0 <= c < SLOTS && l.amap[off := true][c] ==> Mask(sz)[c]
  {
    assert l.amap[off := true][off];
    forall c: nat | c < SLOTS && l.amap[off := true][c] ensures c == off || Mask(sz)[c] {
      assert c != off ==> Starts(l, c);
    }
  }

  lemma AddedOk(l: Line, off: nat, k: Kind, sz: Size)
    requires LineOk(l) && off < SLOTS && KindSize(k) == Some(sz) && Fits(l, off, sz)
    ensures LineOk(Added(l, off, k, sz))
  {
    var l' := Added(l, off, k, sz);
    assert l'.amap[off];
    forall c: nat | Starts(l', c) ensures Mask(sz)[c] && KindSize(l'.kinds[c]) == Some(sz) {
      assert c != off ==> Starts(l, c);
    }
  }

  /** After an addition the new capability covers its slots, and all other slots are as before. */
  lemma AddedMeans(l: Line, off: nat, k: Kind, sz: Size, s: nat)
    requires LineOk(l) && off < SLOTS && KindSize(k) == Some(sz) && Fits(l, off, sz) && s < SLOTS
    ensures LineOk(Added(l, off, k, sz))
    ensures GetLeaf(Added(l, off, k, sz), s) == if off <= s < off + Extent(sz) then Some(off) else GetLeaf(l, s)
  {
    AddedOk(l, off, k, sz);
    StartOf(sz, off, s);
  }

  /** Rounding a slot down to the size gives `off` for exactly the slots from `off` on. */
  lemma StartOf(sz: Size, off: nat, s: nat)
    requires off < SLOTS && s < SLOTS && Mask(sz)[off]
    ensures s - s % Extent(sz) == off <==> off <= s < off + Extent(sz)
  {
  }

  function Removed(l: Line, off: nat): Line
    requires |l.amap| == SLOTS && off < SLOTS
  {
    var amap := l.amap[off := false];
    if amap == [false, false, false, false] then l.(amap := amap, size := Sz64) else l.(amap := amap)
  }

  lemma RemovedOk(l: Line, off: nat)
    requires LineOk(l) && off < SLOTS && l.amap[off]
    ensures LineOk(Removed(l, off))
    ensures Empty(Removed(l, off)) <==> forall c: nat :: Starts(l, c) ==> c == off
  {
    var l' := Removed(l, off);
    assert Starts(l, off);
    forall c: nat | Starts(l', c) ensures Mask(l'.size)[c] && KindSize(l'.kinds[c]) == Some(l'.size) {
      assert Starts(l, c);
    }
    if Empty(l') {
      assert l'.amap == [false, false, false, false];
      forall c: nat | Starts(l, c) ensures c == off {
        assert l.amap[off := false][c] == (c != off);
      }
    } else {
      var c :| 0 <= c < SLOTS && l'.amap[c];
      assert Starts(l, c) && c != off;
    }
  }

  /** After a removal its slots are free, all others are as before, and an empty line is 64 bytes. */
  lemma RemovedMeans(l: Line, off: nat, s: nat)
    requires LineOk(l) && off < SLOTS && GetLeaf(l, off) == Some(off) && s < SLOTS
    ensures LineOk(Removed(l, off)) && (Empty(Removed(l, off)) ==> Removed(l, off).size == Sz64)
    ensures GetLeaf(Removed(l, off), s) == if off <= s < off + Extent(l.size) then None else GetLeaf(l, s)
  {
    RemovedOk(l, off);
    assert Starts(l, off);
    StartOf(l.size, off, s);
    var d := s - s % Extent(l.size);
    assert Starts(l, d) ==> Mask(l.size)[d];
  }

  // ---- The table ----

  ghost predicate LinesOk(lines: map<nat, Line>) {
    forall n {:trigger LineOk(lines[n])} :: n in lines ==> LineOk(lines[n])
  }

  /** The live capability that covers `cap`, by its identifier. */
  ghost function Resolve(lines: map<nat, Line>, cap: nat): Option<nat> {
    if cap / SLOTS !in lines || |lines[cap / SLOTS].amap| != SLOTS then None
    else
      match GetLeaf(lines[cap / SLOTS], cap % SLOTS)
      case None => None
      case Some(c) => Some(cap / SLOTS * SLOTS + c)
  }

  lemma ResolveAdded(lines: map<nat, Line>, cap: nat, k: Kind, sz: Size, x: nat)
    requires LinesOk(lines) && cap / SLOTS in lines && LineOk(lines[cap / SLOTS])
    requires KindSize(k) == Some(sz) && Fits(lines[cap / SLOTS], cap % SLOTS, sz)
    ensures var lines' := lines[cap / SLOTS := Added(lines[cap / SLOTS], cap % SLOTS, k, sz)];
      LinesOk(lines') && Resolve(lines', x) == if cap <= x < cap + Extent(sz) then Some(cap) else Resolve(lines, x)
  {
    AddedMeans(lines[cap / SLOTS], cap % SLOTS, k, sz, x % SLOTS);
    if x / SLOTS in lines {
      assert LineOk(lines[x / SLOTS]);
    }
  }

  lemma ResolveRemoved(lines: map<nat, Line>, cap: nat, x: nat)
    requires LinesOk(lines) && cap / SLOTS in lines && LineOk(lines[cap / SLOTS]) && Resolve(lines, cap) == Some(cap)
    ensures var l := lines[cap / SLOTS];
      var lines' := lines[cap / SLOTS := Removed(l, cap % SLOTS)];
      LinesOk(lines') && Resolve(lines', x) == if cap <= x < cap + Extent(l.size) then None else Resolve(lines, x)
  {
    RemovedMeans(lines[cap / SLOTS], cap % SLOTS, x % SLOTS);
    GetLeafCovers(lines[cap / SLOTS], cap % SLOTS, cap % SLOTS);
    if x / SLOTS in lines {
      assert LineOk(lines[x / SLOTS]);
    }
  }

  lemma RemoveIsRemoved(l: Line, off: nat, amap: seq<bool>, live: bool)
    requires |l.amap| == SLOTS && off < SLOTS && amap == l.amap[off := false]
    requires live <==> exists c :: 0 <= c < |amap| && amap[c]
    ensures Removed(l, off) == l.(amap := amap, size := if live then l.size else Sz64)
  {
    if !live {
      assert amap == [false, false, false, false];
    }
  }

  lemma CoveredBy(lines: map<nat, Line>, cap: nat, x: nat)
    requires LinesOk(lines) && cap / SLOTS in lines && Resolve(lines, cap) == Some(cap)
    ensures Resolve(lines, x) == Some(cap) <==> cap <= x < cap + Extent(lines[cap / SLOTS].size)
  {
    var l := lines[cap / SLOTS];
    assert LineOk(l);
    GetLeafCovers(l, cap % SLOTS, cap % SLOTS);
    if x / SLOTS == cap / SLOTS {
      GetLeafCovers(l, x % SLOTS, cap % SLOTS);
    }
  }

  /** Exactly the slots from `cap` on now resolve to `cap`. */
  ghost predicate GainsOnly(lines: map<nat, Line>, lines': map<nat, Line>, cap: nat, extent: nat) {
    forall x: nat {:trigger Resolve(lines', x)} ::
      Resolve(lines', x) == if cap <= x < cap + extent then Some(cap) else Resolve(lines, x)
  }

  /** Exactly the slots that resolved to `cap` no longer do. */
  ghost predicate LosesOnly(lines: map<nat, Line>, lines': map<nat, Line>, cap: nat) {
    forall x: nat {:trigger Resolve(lines', x)} ::
      Resolve(lines', x) == if Resolve(lines, x) == Some(cap) then None else Resolve(lines, x)
  }

  lemma AddLine(lines: map<nat, Line>, cap: nat, k: Kind, sz: Size)
    requires LinesOk(lines) && cap / SLOTS in lines && LineOk(lines[cap / SLOTS])
    requires KindSize(k) == Some(sz) && Fits(lines[cap / SLOTS], cap % SLOTS, sz)
    ensures var lines' := lines[cap / SLOTS := Added(lines[cap / SLOTS], cap % SLOTS, k, sz)];
      LinesOk(lines') && GainsOnly(lines, lines', cap, Extent(sz))
  {
    ResolveAdded(lines, cap, k, sz, cap);
    var lines' := lines[cap / SLOTS := Added(lines[cap / SLOTS], cap % SLOTS, k, sz)];
    forall x: nat ensures Resolve(lines', x) == if cap <= x < cap + Extent(sz) then Some(cap) else Resolve(lines, x) {
      ResolveAdded(lines, cap, k, sz, x);
    }
  }

  lemma RemoveLine(lines: map<nat, Line>, cap: nat)
    requires LinesOk(lines) && cap / SLOTS in lines && LineOk(lines[cap / SLOTS]) && Resolve(lines, cap) == Some(cap)
    ensures var lines' := lines[cap / SLOTS := Removed(lines[cap / SLOTS], cap % SLOTS)];
      LinesOk(lines') && LosesOnly(lines, lines', cap)
  {
    ResolveRemoved(lines, cap, cap);
    var lines' := lines[cap / SLOTS := Removed(lines[cap / SLOTS], cap % SLOTS)];
    forall x: nat ensures Resolve(lines', x) == if Resolve(lines, x) == Some(cap) then None else Resolve(lines, x) {
      ResolveRemoved(lines, cap, x);
      CoveredBy(lines, cap, x);
    }
  }

  /** What an addition of a capability of size `sz` returns. */
  ghost function AddCode(lines: map<nat, Line>, cap: nat, sz: Option<Size>): int
    requires LinesOk(lines)
  {
    if sz.None? || cap >= MAX_ID then EINVAL
    else if cap / SLOTS !in lines then EPERM
    else
      var l := lines[cap / SLOTS];
      assert LineOk(l);
      if l.readOnly then EPERM
      else if Taken(l, cap % SLOTS, sz.value) then EEXIST
      else if Mask(sz.value)[cap % SLOTS] then 0 else EINVAL
  }

  /** The table is a trie of two levels, 512 leaves of 128 slots. */
  lemma MaxIdIsTrie(p: Ertrie.Params)
    requires p == Ertrie.Params(2, 512, LEAF_LINES * SLOTS)
    ensures Ertrie.MaxId(p) == MAX_ID
  {
    Ertrie.MaxIdIs(p);
    assert Ertrie.Power(512, 1) == 512 * Ertrie.Power(512, 0);
  }

  /** Threads and returns take one slot of 16 bytes, invocations and asynchronous ends two, and nothing
      else can be added. */
  lemma KindExtents(k: Kind)
    ensures KindSize(k).Some? && Extent(KindSize(k).value) == 1 <==> k == Thd || k == Sret
    ensures KindSize(k).Some? && Extent(KindSize(k).value) == 2 <==> k == Sinv || k == Asnd || k == Arcv
    ensures KindSize(k).None? <==> k == Free || k == CapTable || k == PageTable
  {
  }

  /** The table by cache line; the lines of a leaf appear together when the leaf is hooked in. */
  class Table {
    var lines: map<nat, Line>

    ghost predicate Valid()
      reads this
    {
      LinesOk(lines)
    }

    constructor ()
      ensures Valid() && lines == map[]
    {
      lines := map[];
    }

    /** `captbl_init` on a new leaf, hooked in as leaf number `leaf`: all its slots are free. */
    method InitLeaf(leaf: nat)
      requires Valid() && forall n :: leaf * LEAF_LINES <= n < (leaf + 1) * LEAF_LINES ==> n !in lines
      modifies this
      ensures Valid()
      ensures forall n :: n in lines <==> n in old(lines) || leaf * LEAF_LINES <= n < (leaf + 1) * LEAF_LINES
      ensures forall n :: n in lines ==> lines[n] == if n in old(lines) then old(lines)[n] else BlankLine()
      ensures forall n :: n in lines && n !in old(lines) ==> !lines[n].readOnly && Roomy(lines[n])
      ensures forall x: nat {:trigger Resolve(lines, x)} :: Resolve(lines, x) == Resolve(old(lines), x)
    {
      var i := 0;
      while i < LEAF_LINES
        invariant 0 <= i <= LEAF_LINES
        invariant forall n :: n in lines <==> n in old(lines) || leaf * LEAF_LINES <= n < leaf * LEAF_LINES + i
        invariant forall n :: n in lines ==> lines[n] == if n in old(lines) then old(lines)[n] else BlankLine()
      {
        lines := lines[leaf * LEAF_LINES + i := BlankLine()];
        i := i + 1;
      }
      BlankIsRoomy();
    }

    method Lookup(cap: nat) returns (r: Option<nat>)
      requires Valid()
      ensures r == if cap < MAX_ID then Resolve(lines, cap) else None
    {
      if cap >= MAX_ID || cap / SLOTS !in lines {
        return None;
      }
      assert LineOk(lines[cap / SLOTS]);
      var c := GetLeaf(lines[cap / SLOTS], cap % SLOTS);
      r := if c.None? then None else Some(cap / SLOTS * SLOTS + c.value);
    }

    method Add(cap: nat, k: Kind) returns (ret: int)
      requires Valid()
      modifies this
      ensures Valid()
      ensures ret == 0 <==>
        && KindSize(k).Some? && cap < MAX_ID && cap / SLOTS in old(lines)
        && |old(lines)[cap / SLOTS].amap| == SLOTS && Fits(old(lines)[cap / SLOTS], cap % SLOTS, KindSize(k).value)
      ensures ret != 0 ==> lines == old(lines)
      ensures ret == 0 ==> GainsOnly(old(lines), lines, cap, Extent(KindSize(k).value))
      ensures ret == 0 ==>
        var n := cap / SLOTS;
        && n in lines && lines == old(lines)[n := lines[n]] && lines[n].readOnly == old(lines)[n].readOnly
        && |old(lines)[n].kinds| == SLOTS && lines[n].kinds == old(lines)[n].kinds[cap % SLOTS := k]
      ensures ret == AddCode(old(lines), cap, KindSize(k))
    {
      if KindSize(k).None? || cap >= MAX_ID {
        return EINVAL;
      }
      if cap / SLOTS !in lines {
        return EPERM;
      }
      assert LineOk(lines[cap / SLOTS]);
      var sz := KindSize(k).value;
      var l;
      l, ret := AddToLine(lines[cap / SLOTS], cap % SLOTS, k, sz);
      if ret == 0 {
        AddLine(lines, cap, k, sz);
        lines := lines[cap / SLOTS := l];
      }
    }

    /** Only the first slot of a live capability can be deleted. */
    method Del(cap: nat) returns (ret: int)
      requires Valid()
      modifies this
      ensures Valid()
      ensures ret == 0 <==> cap < MAX_ID && Resolve(old(lines), cap) == Some(cap) && !old(lines)[cap / SLOTS].readOnly
      ensures ret != 0 ==> lines == old(lines)
      ensures ret == 0 ==> LosesOnly(old(lines), lines, cap)
      ensures ret == 0 ==>
        var n := cap / SLOTS;
        && n in lines && lines == old(lines)[n := lines[n]] && lines[n].readOnly == old(lines)[n].readOnly
        && lines[n].kinds == old(lines)[n].kinds
      ensures ret ==
        if cap >= MAX_ID then EINVAL
        else if cap / SLOTS !in old(lines) then EPERM
        else if Resolve(old(lines), cap) != Some(cap) then EINVAL
        else if old(lines)[cap / SLOTS].readOnly then EPERM
        else 0
    {
      if cap >= MAX_ID {
        return EINVAL;
      }
      if cap / SLOTS !in lines {
        return EPERM;
      }
      var l := lines[cap / SLOTS];
      assert LineOk(l);
      if GetLeaf(l, cap % SLOTS) != Some(cap % SLOTS) {
        return EINVAL;
      }
      if l.readOnly {
        return EPERM;
      }
      var amap := l.amap[cap % SLOTS := false];
      var live := AnyLive(amap);
      l := l.(amap := amap, size := if live then l.size else Sz64);
      RemoveIsRemoved(lines[cap / SLOTS], cap % SLOTS, amap, live);
      RemoveLine(lines, cap);
      lines := lines[cap / SLOTS := l];
      ret := 0;
    }
  }
}
