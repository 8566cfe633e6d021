/** Facts about products and remainders that the solver does not find on its own. */
module Arith {

  lemma MulLe(a: int, b: int, c: nat)
    requires a <= b
    ensures a * c <= b * c
  {
  }

  lemma MulCancel(a: int, b: int, c: nat)
    requires a * c < b * c
    ensures a < b
  {
    if b <= a {
      MulLe(b, a, c);
    }
  }

  lemma Distribute(a: int, b: int, c: int)
    ensures (a + b) * c == a * c + b * c && c * (a + b) == c * a + c * b
  {
  }

  lemma Regroup(a: int, b: int, c: int)
    ensures (a * b) * c == a * (b * c) && (a * b) * c == (a * c) * b
  {
  }

  /** Quotient and remainder are unique. */
  lemma DivModIs(x: int, w: nat, k: int, r: nat)
    requires r < w && x == k * w + r
    ensures x / w == k && x % w == r
  {
    var q := x / w;
    assert x == q * w + x % w;
    Distribute(k, 1, w);
    Distribute(q, 1, w);
    MulCancel(q, k + 1, w);
    MulCancel(k, q + 1, w);
  }

  /** Numbers less than `n` apart have the same remainder only if they are equal. */
  lemma SameMod(n: nat, a: nat, b: nat)
    requires n > 0 && a <= b && b - a < n
    ensures a % n == b % n <==> a == b
  {
    var qa, qb, r := a / n, b / n, b % n;
    assert a == qa * n + a % n && b == qb * n + r;
    if a % n == r {
      Distribute(qb, -qa, n);
      MulCancel(qb - qa, 1, n);
      MulCancel(-1, qb - qa, n);
    }
  }

  lemma ModPlus(n: nat, a: nat)
    requires n > 0
    ensures (a + n) % n == a % n
  {
    Distribute(a / n, 1, n);
    DivModIs(a + n, n, a / n + 1, a % n);
  }

  /** The remainder by a product, from the digit above and the remainder by one factor; dividing by a
      product is dividing twice. */
  lemma ModMul(x: nat, w: nat, s: nat)
    requires w > 0 && s > 0
    ensures w * s > 0 && x % (w * s) == ((x / s) % w) * s + x % s && x / (w * s) == (x / s) / w
  {
    MulLe(1, w, s);
    var q, k, r := (x / s) / w, (x / s) % w, x % s;
    assert x / s == q * w + k;
    Distribute(q * w, k, s);
    Regroup(q, w, s);
    Distribute(k, 1, s);
    MulLe(k + 1, w, s);
    MulLe(0, k, s);
    DivModIs(x, w * s, q, k * s + r);
  }
}
