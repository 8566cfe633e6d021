/** The word operations of bitmap.h on 32-bit words. */
module Words {
  const WORD_SIZE := 32

  /** The ones of each byte, in the low nibble of the byte. */
  function PerByte(x: bv32): bv32 {
    var a := x - ((x >> 1) & 0x5555_5555);
    var b := ((a >> 2) & 0x3333_3333) + (a & 0x3333_3333);
    ((b >> 4) + b) & 0x0F0F_0F0F
  }

  /** The sum of the bytes, as far as six bits hold it. */
  function Fold(c: bv32): bv32 {
    var d := c + (c >> 8);
    var e := d + (d >> 16);
    e & 0x3f
  }

  function Ones(x: bv32): bv32 {
    Fold(PerByte(x))
  }

  function LsOne(x: bv32): bv32 {
    x & (0 - x)
  }

  /** The bits of `x` copied to all lower positions. */
  function Smear(x: bv32): bv32 {
    var a := x | (x >> 1);
    var b := a | (a >> 2);
    var c := b | (b >> 4);
    var d := c | (c >> 8);
    d | (d >> 16)
  }

  function Log32(x: bv32): bv32 {
    var y := x & (x - 1);
    Ones(Smear(x) >> 1) - ((y | (0 - y)) >> 31)
  }

  predicate PowerOfTwo(p: bv32) {
    p != 0 && p & (p - 1) == 0
  }

  lemma LogStep(p: bv32)
    requires PowerOfTwo(p) && p & 0x8000_0000 == 0
    ensures PowerOfTwo(p << 1) && Log32(p << 1) as nat == Log32(p) as nat + 1
  {
  }

  lemma LogTop(p: bv32)
    requires PowerOfTwo(p) && p & 0x8000_0000 != 0
    ensures Log32(p) as nat == 31
  {
  }

  function Double(m: bv32): bv32 {
    m << 1
  }

  /** `1 << v`, one position at a time. */
  function Mask(v: nat): bv32 {
    if v == 0 then 1 else Double(Mask(v - 1))
  }

  lemma {:induction false} LogMask(v: nat)
    requires v < WORD_SIZE
    ensures PowerOfTwo(Mask(v)) && Log32(Mask(v)) as nat == v
  {
    if v > 0 {
      LogMask(v - 1);
      if Mask(v - 1) & 0x8000_0000 != 0 {
        LogTop(Mask(v - 1));
      } else {
        LogStep(Mask(v - 1));
      }
    }
  }

  function Common(x: bv32, m: bv32): nat {
    if x & m != 0 then 1 else 0
  }

  /** The word and the mask have a bit in common. */
  predicate Meets(x: bv32, m: bv32) {
    Common(x, m) == 1
  }

  /** Bit `k` of a word is set. */
  predicate Bit(x: bv32, k: nat) {
    Meets(x, Mask(k))
  }

  lemma MaskTop(v: nat)
    requires v + 1 < WORD_SIZE
    ensures PowerOfTwo(Mask(v)) && Mask(v) & 0x8000_0000 == 0
  {
    LogMask(v);
    if Mask(v) & 0x8000_0000 != 0 {
      LogTop(Mask(v));
    }
  }

  lemma SomeMasks()
    ensures Mask(24) == 0x100_0000 && Mask(31) == 0x8000_0000
  {
    assert Mask(8) == 0x100;
    assert Mask(16) == 0x1_0000;
  }

  lemma Doubled(p: bv32)
    requires PowerOfTwo(p) && p & 0x8000_0000 == 0
    ensures p < p << 1
  {
  }

  lemma Halved(p: bv32)
    requires PowerOfTwo(p) && p != 1
    ensures PowerOfTwo(p >> 1) && p >> 1 < p && (p >> 1) << 1 == p && (p >> 1) & 0x8000_0000 == 0
  {
  }

  lemma {:induction false} MaskLess(v: nat, k: nat)
    requires v < k < WORD_SIZE
    ensures Mask(v) < Mask(k)
  {
    MaskTop(k - 1);
    Doubled(Mask(k - 1));
    if v < k - 1 {
      MaskLess(v, k - 1);
    }
  }

  lemma MasksCompare(v: nat, k: nat)
    requires v < WORD_SIZE && k < WORD_SIZE
    ensures Mask(v) <= Mask(k) <==> v <= k
  {
    if v < k {
      MaskLess(v, k);
    } else if k < v {
      MaskLess(k, v);
    }
  }

  /** Every power of two is a mask. */
  lemma {:induction false} PowerIsMask(p: bv32) returns (v: nat)
    requires PowerOfTwo(p)
    ensures v < WORD_SIZE && Mask(v) == p
    decreases p
  {
    v := 0;
    if p != 1 {
      Halved(p);
      v := PowerIsMask(p >> 1);
      SomeMasks();
      v := v + 1;
    }
  }

  lemma MaskOrder(p: bv32, v: nat)
    requires PowerOfTwo(p) && v < WORD_SIZE
    ensures PowerOfTwo(Mask(v)) && Log32(p) as nat < WORD_SIZE
    ensures p <= Mask(v) <==> Log32(p) as nat <= v
  {
    LogMask(v);
    var k := PowerIsMask(p);
    LogMask(k);
    MasksCompare(k, v);
  }

  lemma MaskOfLog(p: bv32)
    requires PowerOfTwo(p)
    ensures Log32(p) as nat < WORD_SIZE && Mask(Log32(p) as nat) == p
  {
    var v := PowerIsMask(p);
    LogMask(v);
  }

  lemma MasksDistinct(v: nat, k: nat)
    requires v < WORD_SIZE && k < WORD_SIZE
    ensures PowerOfTwo(Mask(v)) && PowerOfTwo(Mask(k)) && (Mask(v) == Mask(k) <==> v == k)
  {
    LogMask(v);
    LogMask(k);
  }

  lemma SetRaw(x: bv32, o: bv32, p: bv32)
    requires o != 0 && o & (o - 1) == 0 && p != 0 && p & (p - 1) == 0
    ensures (x | o) & p != 0 <==> o == p || x & p != 0
  {
  }

  lemma UnsetRaw(x: bv32, o: bv32, p: bv32)
    requires o != 0 && o & (o - 1) == 0 && p != 0 && p & (p - 1) == 0
    ensures (x & !o) & p != 0 <==> o != p && x & p != 0
  {
  }

  function Joined(x: bv32, m: bv32): bv32 {
    x | m
  }

  function Removed(x: bv32, m: bv32): bv32 {
    x & !m
  }

  lemma SetOther(x: bv32, o: bv32, p: bv32)
    requires PowerOfTwo(o) && PowerOfTwo(p)
    ensures Meets(Joined(x, o), p) <==> o == p || Meets(x, p)
  {
    SetRaw(x, o, p);
  }

  lemma UnsetOther(x: bv32, o: bv32, p: bv32)
    requires PowerOfTwo(o) && PowerOfTwo(p)
    ensures Meets(Removed(x, o), p) <==> o != p && Meets(x, p)
  {
    UnsetRaw(x, o, p);
  }

  lemma Lowest(x: bv32, p: bv32, j: nat)
    requires PowerOfTwo(p) && Meets(x, p) && j < WORD_SIZE && (Meets(x, Mask(j)) ==> p <= Mask(j))
    ensures Log32(p) as nat < WORD_SIZE && Bit(x, Log32(p) as nat)
    ensures j < Log32(p) as nat ==> !Bit(x, j)
  {
    MaskOfLog(p);
    MaskOrder(p, j);
  }

  lemma LeastAmong(x: bv32, p: bv32, j: nat)
    requires x != 0 && p == LsOne(x) && j < WORD_SIZE
    ensures PowerOfTwo(p) && Meets(x, p) && (Meets(x, Mask(j)) ==> p <= Mask(j))
  {
  }

  /** The logarithm of the isolated bit is the index of the least bit set. */
  lemma LogIsLeast(x: bv32, p: bv32, j: nat)
    requires x != 0 && p == LsOne(x) && j < WORD_SIZE
    ensures Log32(p) as nat < WORD_SIZE && Bit(x, Log32(p) as nat)
    ensures j < Log32(p) as nat ==> !Bit(x, j)
  {
    LeastAmong(x, p, j);
    Lowest(x, p, j);
  }
}

/** What the population count of bitmap.h counts. */
module PopCounts {
  import opened Words

  /** How many of the `j` bits from bit `n` on are set. */
  function Count(x: bv32, n: nat, j: nat): (c: nat)
    ensures c <= j
    decreases j
  {
    if j == 0 then 0 else (if Bit(x, n) then 1 else 0) + Count(x, n + 1, j - 1)
  }

  /** The lowest bit of `x`, added to `a`. */
  function Next(x: bv32, a: bv32): bv32 {
    (x & 1) + a
  }

  /** The `j` lowest bits, added up as words. */
  function Sum(x: bv32, j: nat): bv32
    decreases j
  {
    if j == 0 then 0 else Next(x, Sum(x >> 1, j - 1))
  }

  lemma {:induction false} CountSplit(x: bv32, n: nat, i: nat, j: nat)
    ensures Count(x, n, i + j) == Count(x, n, i) + Count(x, n + i, j)
    decreases i
  {
    if i > 0 {
      CountSplit(x, n + 1, i - 1, j);
    }
  }

  lemma BitShift(x: bv32, n: nat)
    requires n + 1 < WORD_SIZE
    ensures Bit(x >> 1, n) <==> Bit(x, n + 1)
  {
  }

  lemma {:induction false} CountShift(x: bv32, n: nat, j: nat)
    requires n + j < WORD_SIZE
    ensures Count(x >> 1, n, j) == Count(x, n + 1, j)
    decreases j
  {
    if j > 0 {
      BitShift(x, n);
      CountShift(x, n + 1, j - 1);
    }
  }

  lemma ByteShiftRaw(x: bv32, m: bv32)
    requires m < 0x100_0000
    ensures (x >> 8) & m != 0 <==> x & (m << 8) != 0
  {
  }

  lemma EightDoubles(m: bv32)
    ensures Double(Double(Double(Double(Double(Double(Double(Double(m)))))))) == m << 8
  {
  }

  lemma MaskFour(k: nat)
    ensures Mask(k + 4) == Double(Double(Double(Double(Mask(k)))))
  {
    assert Mask(k + 2) == Double(Double(Mask(k)));
  }

  lemma BitByte(x: bv32, k: nat)
    requires k < 24
    ensures Bit(x >> 8, k) <==> Bit(x, k + 8)
  {
    SomeMasks();
    MaskLess(k, 24);
    MaskFour(k);
    MaskFour(k + 4);
    EightDoubles(Mask(k));
    ByteShiftRaw(x, Mask(k));
  }

  lemma {:induction false} CountByte(x: bv32, n: nat, j: nat)
    requires n + j <= 24
    ensures Count(x >> 8, n, j) == Count(x, n + 8, j)
    decreases j
  {
    if j > 0 {
      BitByte(x, n);
      CountByte(x, n + 1, j - 1);
    }
  }

  /** The bytes above the lowest. */
  function Above(x: bv32): bv32 {
    x >> 8
  }

  lemma CountFront(x: bv32, b: nat, c: nat)
    requires b == 8 && c <= 24
    ensures Count(x, 0, b + c) == Count(x, 0, b) + Count(Above(x), 0, c)
  {
    CountSplit(x, 0, b, c);
    CountByte(x, 0, c);
  }

  lemma Small(a: bv32)
    requires a as nat < 32
    ensures a < 32
  {
  }

  lemma OneMore(x: bv32, a: bv32)
    requires a < 32
    ensures Next(x, a) as nat == (if Bit(x, 0) then 1 else 0) + a as nat
  {
  }

  lemma CountNext(x: bv32, a: bv32, j: nat)
    requires 0 < j <= 8 && a as nat == Count(x >> 1, 0, j - 1)
    ensures Next(x, a) as nat == Count(x, 0, j)
  {
    Small(a);
    OneMore(x, a);
    CountShift(x, 0, j - 1);
  }

  lemma {:induction false} SumIsCount(x: bv32, j: nat)
    requires j <= 8
    ensures Sum(x, j) as nat == Count(x, 0, j)
    decreases j
  {
    if j > 0 {
      SumIsCount(x >> 1, j - 1);
      CountNext(x, Sum(x >> 1, j - 1), j);
    }
  }

  function Plus(a: bv32, b: bv32): bv32 {
    a + b
  }

  lemma FoldAdds(c: bv32)
    requires c & 0xF0F0_F0F0 == 0
    ensures Fold(c) == Plus(c & 0xf, Plus((c >> 8) & 0xf, Plus((c >> 16) & 0xf, (c >> 24) & 0xf)))
  {
  }

  lemma Nibbles(x: bv32)
    ensures PerByte(x) & 0xF0F0_F0F0 == 0
  {
  }

  /** The four lowest bits, added to `a`. */
  function Four(x: bv32, a: bv32): bv32 {
    Next(x, Next(x >> 1, Next(x >> 1 >> 1, Next(x >> 1 >> 1 >> 1, a))))
  }

  /** The eight lowest bits, added up. */
  function Eight(x: bv32): bv32 {
    Four(x, Four(x >> 1 >> 1 >> 1 >> 1, 0))
  }

  lemma EightIsSum(x: bv32, j: nat)
    requires j == 8
    ensures Eight(x) == Sum(x, j)
  {
  }

  lemma EightSmall(x: bv32)
    ensures Eight(x) <= 8
  {
  }

  lemma Byte0(x: bv32)
    ensures PerByte(x) & 0xf == Eight(x)
  {
  }

  lemma Byte1(x: bv32)
    ensures (PerByte(x) >> 8) & 0xf == Eight(Above(x))
  {
  }

  lemma Byte2(x: bv32)
    ensures (PerByte(x) >> 16) & 0xf == Eight(Above(Above(x)))
  {
  }

  lemma Byte3(x: bv32)
    ensures (PerByte(x) >> 24) & 0xf == Eight(Above(Above(Above(x))))
  {
  }

  lemma FourSmall(a: bv32, b: bv32, c: bv32, d: bv32)
    requires a <= 8 && b <= 8 && c <= 8 && d <= 8
    ensures Plus(c, d) <= 32 && Plus(b, Plus(c, d)) <= 32 && Plus(a, Plus(b, Plus(c, d))) <= 32
  {
  }

  lemma PlusNat(a: bv32, b: bv32)
    requires a <= 32 && b <= 32 && Plus(a, b) <= 32
    ensures Plus(a, b) as nat == a as nat + b as nat
  {
  }

  lemma FourNat(a: bv32, b: bv32, c: bv32, d: bv32)
    requires a <= 8 && b <= 8 && c <= 8 && d <= 8
    ensures Plus(a, Plus(b, Plus(c, d))) as nat == a as nat + b as nat + c as nat + d as nat
  {
    FourSmall(a, b, c, d);
    PlusNat(c, d);
    PlusNat(b, Plus(c, d));
    PlusNat(a, Plus(b, Plus(c, d)));
  }

  lemma FoldNat(c: bv32, n0: bv32, n1: bv32, n2: bv32, n3: bv32)
    requires c & 0xF0F0_F0F0 == 0 && n0 <= 8 && n1 <= 8 && n2 <= 8 && n3 <= 8
    requires c & 0xf == n0 && (c >> 8) & 0xf == n1 && (c >> 16) & 0xf == n2 && (c >> 24) & 0xf == n3
    ensures Fold(c) as nat == n0 as nat + n1 as nat + n2 as nat + n3 as nat
  {
    FoldAdds(c);
    FourNat(n0, n1, n2, n3);
  }

  lemma ByteNat(x: bv32, b: nat)
    requires b == 8
    ensures Eight(x) <= 8 && Eight(x) as nat == Count(x, 0, b)
  {
    EightIsSum(x, b);
    EightSmall(x);
    SumIsCount(x, b);
  }

  lemma CountThree(x: bv32, b: nat)
    requires b == 8
    ensures Count(x, 0, b + (b + b)) == Count(x, 0, b) + Count(Above(x), 0, b) + Count(Above(Above(x)), 0, b)
  {
    CountFront(x, b, b + b);
    CountFront(Above(x), b, b);
  }

  /** The count of a word is the sum of the counts of its bytes. */
  lemma CountBytes(x: bv32, b: nat)
    requires b == 8
    ensures Count(x, 0, b + (b + (b + b))) ==
      Count(x, 0, b) + Count(Above(x), 0, b) + Count(Above(Above(x)), 0, b) + Count(Above(Above(Above(x))), 0, b)
  {
    CountFront(x, b, b + (b + b));
    CountThree(Above(x), b);
  }

  lemma OnesAdd(x: bv32)
    requires Eight(x) <= 8 && Eight(Above(x)) <= 8 && Eight(Above(Above(x))) <= 8 && Eight(Above(Above(Above(x)))) <= 8
    ensures Ones(x) as nat ==
      Eight(x) as nat + Eight(Above(x)) as nat + Eight(Above(Above(x))) as nat + Eight(Above(Above(Above(x)))) as nat
  {
    Nibbles(x);
    Byte0(x);
    Byte1(x);
    Byte2(x);
    Byte3(x);
    FoldNat(PerByte(x), Eight(x), Eight(Above(x)), Eight(Above(Above(x))), Eight(Above(Above(Above(x)))));
  }

  lemma OnesCountTo(x: bv32, w: nat)
    requires w == WORD_SIZE
    ensures Ones(x) as nat == Count(x, 0, w)
  {
    var b := w / 4;
    ByteNat(x, b);
    ByteNat(Above(x), b);
    ByteNat(Above(Above(x)), b);
    ByteNat(Above(Above(Above(x))), b);
    OnesAdd(x);
    CountBytes(x, b);
  }

  /** The population count is the number of bits set. */
  lemma OnesCounts(x: bv32)
    ensures Ones(x) as nat == Count(x, 0, WORD_SIZE)
  {
    OnesCountTo(x, WORD_SIZE);
  }
}

/** The bitmap operations of bitmap.h, over sequences of words. */
module Bitmaps {
  import opened Words

  lemma BitSet(x: bv32, v: nat, k: nat)
    requires v < WORD_SIZE && k < WORD_SIZE
    ensures Bit(Joined(x, Mask(v)), k) <==> k == v || Bit(x, k)
  {
    MasksDistinct(v, k);
    SetOther(x, Mask(v), Mask(k));
  }

  lemma BitUnset(x: bv32, v: nat, k: nat)
    requires v < WORD_SIZE && k < WORD_SIZE
    ensures Bit(Removed(x, Mask(v)), k) <==> k != v && Bit(x, k)
  {
    MasksDistinct(v, k);
    UnsetOther(x, Mask(v), Mask(k));
  }

  /** Bit `v` of the bitmap is set. */
  predicate Has(x: seq<bv32>, v: nat)
    requires v < WORD_SIZE * |x|
  {
    Bit(x[v / WORD_SIZE], v % WORD_SIZE)
  }

  function WithBit(x: seq<bv32>, v: nat): seq<bv32>
    requires v < WORD_SIZE * |x|
  {
    x[v / WORD_SIZE := Joined(x[v / WORD_SIZE], Mask(v % WORD_SIZE))]
  }

  function WithoutBit(x: seq<bv32>, v: nat): seq<bv32>
    requires v < WORD_SIZE * |x|
  {
    x[v / WORD_SIZE := Removed(x[v / WORD_SIZE], Mask(v % WORD_SIZE))]
  }

  lemma HasWithBit(x: seq<bv32>, v: nat, k: nat)
    requires v < WORD_SIZE * |x| && k < WORD_SIZE * |x|
    ensures Has(WithBit(x, v), k) <==> k == v || Has(x, k)
  {
    BitSet(x[v / WORD_SIZE], v % WORD_SIZE, k % WORD_SIZE);
  }

  lemma HasWithoutBit(x: seq<bv32>, v: nat, k: nat)
    requires v < WORD_SIZE * |x| && k < WORD_SIZE * |x|
    ensures Has(WithoutBit(x, v), k) <==> k != v && Has(x, k)
  {
    BitUnset(x[v / WORD_SIZE], v % WORD_SIZE, k % WORD_SIZE);
  }

  /** Bit `v` is on and the others are as they were. */
  ghost predicate JustOn(x: seq<bv32>, v: nat, y: seq<bv32>) {
    |y| == |x| && forall k: nat :: k < WORD_SIZE * |x| ==> (Has(y, k) <==> k == v || Has(x, k))
  }

  /** Bit `v` is off and the others are as they were. */
  ghost predicate JustOff(x: seq<bv32>, v: nat, y: seq<bv32>) {
    |y| == |x| && forall k: nat :: k < WORD_SIZE * |x| ==> (Has(y, k) <==> k != v && Has(x, k))
  }

  lemma WithBitJustOn(x: seq<bv32>, v: nat, y: seq<bv32>)
    requires v < WORD_SIZE * |x| && y == WithBit(x, v)
    ensures JustOn(x, v, y)
  {
    forall k: nat | k < WORD_SIZE * |x| ensures Has(y, k) <==> k == v || Has(x, k) {
      HasWithBit(x, v, k);
    }
  }

  lemma WithoutBitJustOff(x: seq<bv32>, v: nat, y: seq<bv32>)
    requires v < WORD_SIZE * |x| && y == WithoutBit(x, v)
    ensures JustOff(x, v, y)
  {
    forall k: nat | k < WORD_SIZE * |x| ensures Has(y, k) <==> k != v && Has(x, k) {
      HasWithoutBit(x, v, k);
    }
  }

  method Set(x: array<bv32>, v: nat)
    requires v < WORD_SIZE * x.Length
    modifies x
    ensures x[..] == WithBit(old(x[..]), v) && JustOn(old(x[..]), v, x[..])
  {
    var idx, off := v / WORD_SIZE, v % WORD_SIZE;
    x[idx] := x[idx] | Mask(off);
    WithBitJustOn(old(x[..]), v, x[..]);
  }

  method Unset(x: array<bv32>, v: nat)
    requires v < WORD_SIZE * x.Length
    modifies x
    ensures x[..] == WithoutBit(old(x[..]), v) && JustOff(old(x[..]), v, x[..])
  {
    var idx, off := v / WORD_SIZE, v % WORD_SIZE;
    x[idx] := x[idx] & !Mask(off);
    WithoutBitJustOff(old(x[..]), v, x[..]);
  }

  /** The least bit set in the first `max` words, or -1. */
  method One(x: seq<bv32>, max: nat) returns (r: int)
    requires max <= |x|
    ensures -1 <= r < WORD_SIZE * max
    ensures r >= 0 ==> Has(x, r) && forall k: nat :: k < r ==> !Has(x, k)
    ensures r == -1 ==> forall k: nat :: k < WORD_SIZE * max ==> !Has(x, k)
  {
    var i := 0;
    while i < max
      invariant i <= max
      invariant forall k: nat :: k < WORD_SIZE * i ==> !Has(x, k)
    {
      if x[i] != 0 {
        r := FirstIn(x, i);
        return;
      }
      ZeroWord(x, i);
      i := i + 1;
    }
    r := -1;
  }

  lemma ZeroWord(x: seq<bv32>, i: nat)
    requires i < |x| && x[i] == 0 && forall k: nat :: k < WORD_SIZE * i ==> !Has(x, k)
    ensures forall k: nat :: k < WORD_SIZE * (i + 1) ==> !Has(x, k)
  {
  }

  method FirstIn(x: seq<bv32>, i: nat) returns (r: nat)
    requires i < |x| && x[i] != 0 && forall k: nat :: k < WORD_SIZE * i ==> !Has(x, k)
    ensures WORD_SIZE * i <= r < WORD_SIZE * (i + 1) && Has(x, r) && forall k: nat :: k < r ==> !Has(x, k)
  {
    var p := LsOne(x[i]);
    LogIsLeast(x[i], p, 0);
    var order := Log32(p) as nat;
    r := i * WORD_SIZE + order;
    forall k: nat | k < r ensures !Has(x, k) {
      LogIsLeast(x[i], p, k % WORD_SIZE);
    }
  }

  lemma AllMeet(p: bv32)
    requires p != 0
    ensures 0xFFFF_FFFF & p != 0
  {
  }

  lemma HasAll(x: seq<bv32>, v: nat)
    requires v < WORD_SIZE * |x| && x[v / WORD_SIZE] == 0xFFFF_FFFF
    ensures Has(x, v)
  {
    LogMask(v % WORD_SIZE);
    AllMeet(Mask(v % WORD_SIZE));
  }
}
