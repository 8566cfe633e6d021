/** Double-word multiplication and division from half-word digits: the generic C macros
    umul_ppmm and __udiv_qrnnd_c of longlong.h.

    `h` is the half-word base __ll_B (a power of two on a real machine; any even base here) and a
    word is a number below w = h * h.  Word arithmetic wraps around at w.  The macros' `a * B | b`
    joins a multiple of h to a number below h, so it is their sum. */
module LongLong {
  import opened Arith

  /** Word arithmetic: the value a word keeps of `x`. */
  method Wrap(x: int, w: nat) returns (r: nat)
    requires 0 <= x + w && x < 2 * w
    ensures r == if x < 0 then x + w else if x < w then x else x - w
  {
    r := x % w;
    if x < 0 {
      DivModIs(x, w, -1, x + w);
    } else if x >= w {
      DivModIs(x, w, 1, x - w);
    }
  }

  /** Word division: __ll_highpart and __ll_lowpart when `d` is the base. */
  method DivMod(x: nat, d: nat) returns (q: nat, r: nat)
    requires d > 0
    ensures x == q * d + r && r < d
  {
    q, r := x / d, x % d;
  }

  lemma HighHalf(x: nat, q: nat, r: nat, h: nat)
    requires x == q * h + r && x < h * h
    ensures q < h
  {
    MulCancel(q, h, h);
  }

  /** The high half of a normalized divisor is at least half the base ... */
  lemma Normalized(d: nat, d1: nat, d0: nat, h: nat)
    requires h >= 2 && h % 2 == 0 && d == d1 * h + d0 && d0 < h && h * h <= 2 * d
    ensures h <= 2 * d1
  {
    Distribute(2 * d1, 2, h);
    Regroup(2, d1, h);
    MulCancel(h, 2 * d1 + 2, h);
  }

  /** ... so the estimated digit is at most two too large. */
  lemma DigitEstimate(x: nat, d: nat, d1: nat, d0: nat, h: nat, q: nat, r: nat)
    requires d == d1 * h + d0 && d0 < h <= 2 * d1 && x < d && x == q * d1 + r
    ensures q <= h + 1
  {
    Distribute(h, 2, d1);
    assert h * d1 == d1 * h;
    MulCancel(q, h + 2, d1);
  }

  lemma ProductFits(q: nat, d0: nat, h: nat)
    requires h >= 2 && q <= h + 1 && d0 < h
    ensures 0 <= q * d0 < h * h
  {
    MulLe(0, q, d0);
    MulLe(q, h + 1, d0);
    Distribute(h, 1, d0);
    MulLe(d0 + 1, h, h);
    Distribute(d0, 1, h);
    assert h * d0 == d0 * h;
  }

  /** What is left after the estimated digit, before it is corrected. */
  lemma Estimate(x: nat, lo: nat, d: nat, d1: nat, d0: nat, h: nat, q: nat, r: nat)
    requires d == d1 * h + d0 && x == q * d1 + r && r < d1 && lo < h
    ensures 0 <= r * h && r * h + lo < d1 * h
    ensures x * h + lo - q * d == r * h + lo - q * d0
  {
    Distribute(q * d1, r, h);
    Regroup(q, d1, h);
    Distribute(d1 * h, d0, q);
    MulLe(r + 1, d1, h);
    MulLe(0, r, h);
    Distribute(r, 1, h);
  }

  /** The correction steps, in word arithmetic: `r - m` may be negative by up to two divisors.
      A sum that wrapped is below `d`, and then no second correction is due. */
  method Correct(q0: nat, r0: nat, m: nat, d: nat, w: nat) returns (q: int, r: nat)
    requires d < w <= 2 * d && r0 < d && m < w
    ensures 0 <= q0 - q <= 2 && r < d
    ensures r == r0 - m + (if q == q0 then 0 else if q == q0 - 1 then d else 2 * d)
  {
    q, r := q0, r0;
    if r < m {
      q := q - 1;
      r := Wrap(r + d, w);
      if r >= d {
        if r < m {
          q := q - 1;
          r := Wrap(r + d, w);
        }
      }
    }
    r := Wrap(r - m, w);
  }

  lemma DigitExact(n: int, q1: int, q: int, d: nat, r: nat)
    requires 0 <= q1 - q <= 2
    requires r == n - q1 * d + (if q == q1 then 0 else if q == q1 - 1 then d else 2 * d)
    ensures q * d + r == n
  {
    Distribute(q, q1 - q, d);
  }

  lemma QuotientSmall(x: nat, lo: nat, q: int, d: nat, r: nat, h: nat)
    requires q * d + r == x * h + lo && x < d && lo < h && r < d
    ensures 0 <= q < h
  {
    MulLe(x + 1, d, h);
    Distribute(x, 1, h);
    Distribute(q, 1, d);
    MulCancel(0, q + 1, d);
    MulCancel(q, h, d);
  }

  /** One digit of __udiv_qrnnd_c: divide x * h + lo by d, given the halves of d. */
  method DivDigit(x: nat, lo: nat, d: nat, d1: nat, d0: nat, h: nat, w: nat) returns (q: nat, r: nat)
    requires h >= 2 && h % 2 == 0 && w == h * h && d < w <= 2 * d && d == d1 * h + d0 && d0 < h && x < d && lo < h
    ensures q * d + r == x * h + lo && r < d && q < h
  {
    Normalized(d, d1, d0, h);
    var q1, r1 := DivMod(x, d1);
    DigitEstimate(x, d, d1, d0, h, q1, r1);
    ProductFits(q1, d0, h);
    Estimate(x, lo, d, d1, d0, h, q1, r1);
    var m := Wrap(q1 * d0, w);
    var s1 := Wrap(r1 * h, w);
    var q2, r2 := Correct(q1, s1 + lo, m, d, w);
    DigitExact(x * h + lo, q1, q2, d, r2);
    QuotientSmall(x, lo, q2, d, r2, h);
    q, r := q2, r2;
  }

  lemma TwoDigits(n1: nat, n0: nat, hi: nat, lo: nat, d: nat, h: nat, q1: nat, r1: nat, q0: nat, r0: nat)
    requires n0 == hi * h + lo && q1 * d + r1 == n1 * h + hi && q0 * d + r0 == r1 * h + lo
    ensures (q1 * h + q0) * d + r0 == n1 * (h * h) + n0
  {
    Distribute(q1 * d, r1, h);
    Distribute(n1 * h, hi, h);
    Regroup(n1, h, h);
    Regroup(q1, d, h);
    Distribute(q1 * h, q0, d);
  }

  lemma PairFits(a: nat, b: nat, h: nat)
    requires a < h && b < h
    ensures 0 <= a * h && a * h + b < h * h
  {
    MulLe(0, a, h);
    MulLe(a + 1, h, h);
    Distribute(a, 1, h);
  }

  /** __udiv_qrnnd_c is exact: for a normalized divisor and n1 < d it yields the quotient and
      remainder of the double word n1 * w + n0. */
  method UdivQrnnd(n1: nat, n0: nat, d: nat, h: nat, w: nat) returns (q: nat, r: nat)
    requires h >= 2 && h % 2 == 0 && w == h * h && d < w <= 2 * d && n1 < d && n0 < w
    ensures q * d + r == n1 * w + n0 && r < d && q < w
  {
    var d1, d0 := DivMod(d, h);
    var hi, lo := DivMod(n0, h);
    HighHalf(n0, hi, lo, h);
    var q1, r1 := DivDigit(n1, hi, d, d1, d0, h, w);
    var q0, r0 := DivDigit(r1, lo, d, d1, d0, h, w);
    PairFits(q1, q0, h);
    TwoDigits(n1, n0, hi, lo, d, h, q1, r1, q0, r0);
    q := Wrap(q1 * h, w);
    q, r := q + q0, r0;
  }

  lemma ProductOfHalves(u: nat, v: nat, uh: nat, ul: nat, vh: nat, vl: nat, h: nat)
    requires u == uh * h + ul && v == vh * h + vl
    ensures u * v == (uh * vh) * (h * h) + (uh * vl + ul * vh) * h + ul * vl
  {
    Distribute(uh * h, ul, v);
    Distribute(vh * h, vl, uh * h);
    Distribute(vh * h, vl, ul);
    CrossTerm(uh, vh, h);
    Regroup(uh, h, vl);
    Regroup(ul, vh, h);
    Distribute(uh * vl, ul * vh, h);
  }

  lemma CrossTerm(a: nat, b: nat, h: nat)
    ensures (a * h) * (b * h) == (a * b) * (h * h)
  {
    Regroup(a, h, b * h);
    Regroup(b, h, h);
    Regroup(a, b, h * h);
    assert h * (b * h) == (b * h) * h;
  }

  lemma HalfProduct(a: nat, b: nat, h: nat)
    requires h >= 2 && a < h && b < h
    ensures 0 <= a * b && a * b + h < h * h
  {
    MulLe(0, a, b);
    MulLe(a + 1, h, b);
    Distribute(a, 1, b);
    MulLe(b + 1, h, h);
    Distribute(b, 1, h);
  }

  /** A carry out of the middle sum is worth one unit of the high half. */
  lemma AssembleExact(p: nat, x0: nat, x0h: nat, x0l: nat, y: nat, x2: nat, x3: nat, x1: nat, x1h: nat, x1l: nat,
      h: nat, w: nat)
    requires w == h * h && w > 0 && x0 == x0h * h + x0l && x1 == x1h * h + x1l
    requires p == x3 * w + (x2 + y - x0h) * h + x0
    requires x1 == if y + x2 >= w then y + x2 - w else y + x2
    ensures ((if y + x2 >= w then x3 + h else x3) + x1h) * w + (x1l * h + x0l) == p
  {
    var carry := if y + x2 >= w then 1 else 0;
    Distribute(x2 + y - x0h, x0h, h);
    Distribute(x1, carry * w, h);
    Distribute(x1h * h, x1l, h);
    Regroup(x1h, h, h);
    var hi := if y + x2 >= w then x3 + h else x3;
    Distribute(hi, x1h, w);
    Distribute(x3, h, w);
  }

  lemma HighWordFits(hi: nat, lo: nat, p: nat, w: nat)
    requires hi * w + lo == p && p < w * w
    ensures hi < w
  {
    MulCancel(hi, w, w);
  }

  /** umul_ppmm is exact: the two words it yields are the double-word product. */
  method UmulPpmm(u: nat, v: nat, h: nat, w: nat) returns (w1: nat, w0: nat)
    requires h >= 2 && w == h * h && u < w && v < w
    ensures w1 * w + w0 == u * v && w1 < w && w0 < w
  {
    var uh, ul := DivMod(u, h);
    var vh, vl := DivMod(v, h);
    HighHalf(u, uh, ul, h);
    HighHalf(v, vh, vl, h);
    ProductOfHalves(u, v, uh, ul, vh, vl, h);
    HalfProduct(ul, vl, h);
    HalfProduct(ul, vh, h);
    HalfProduct(uh, vl, h);
    HalfProduct(uh, vh, h);
    var x0 := Wrap(ul * vl, w);
    var x1 := Wrap(ul * vh, w);
    var x2 := Wrap(uh * vl, w);
    var x3 := Wrap(uh * vh, w);
    ProductBound(u, v, w);
    w1, w0 := Assemble(u * v, x0, x1, x2, x3, h, w);
  }

  lemma ProductBound(u: nat, v: nat, w: nat)
    requires w >= 2 && u < w && v < w
    ensures 0 <= u * v < w * w
  {
    HalfProduct(u, v, w);
  }

  /** The sums of umul_ppmm, given the four half-word products. */
  method Assemble(p: nat, x0: nat, x1: nat, x2: nat, x3: nat, h: nat, w: nat) returns (w1: nat, w0: nat)
    requires h >= 2 && w == h * h && x0 < w && x1 + h < w && x2 + h < w && x3 + h < w && p < w * w
    requires p == x3 * w + (x2 + x1) * h + x0
    ensures w1 * w + w0 == p && w1 < w && w0 < w
  {
    var x0h, x0l := DivMod(x0, h);
    HighHalf(x0, x0h, x0l, h);
    var y := Wrap(x1 + x0h, w);
    var sum := Wrap(y + x2, w);
    var hi := x3;
    if sum < x2 {
      hi := Wrap(x3 + h, w);
    }
    var sh, sl := DivMod(sum, h);
    AssembleExact(p, x0, x0h, x0l, y, x2, x3, sum, sh, sl, h, w);
    PairFits(sl, x0l, h);
    HighWordFits(hi + sh, sl * h + x0l, p, w);
    w1 := Wrap(hi + sh, w);
    w0 := Wrap(sl * h, w);
    w0 := w0 + x0l;
  }
}
