/** Facts of integer division and remainder that the solver does not find on its own. */
module Arith {

  lemma MulAtLeast(p: nat, a: int)
    requires p > 0 && a >= 1
    ensures p * a >= p
  {
    var b := a - 1;
    assert p * a == p * b + p;
  }

  /** Quotient and remainder are unique. */
  lemma DivModUnique(x: int, p: int, q: int, r: int)
    requires p > 0 && 0 <= r < p && x == p * q + r
    ensures x / p == q && x % p == r
  {
    var q' := x / p;
    var r' := x % p;
    assert x == p * q' + r';
    assert p * (q - q') == r' - r;
    if q > q' {
      MulAtLeast(p, q - q');
    } else if q < q' {
      MulAtLeast(p, q' - q);
    }
  }

  lemma ModSmall(x: int, p: int)
    requires 0 <= x < p
    ensures x % p == x && x / p == 0
  {
    DivModUnique(x, p, 0, x);
  }

  /** Adding a multiple of p does not change the remainder. */
  lemma ModShift(r: int, p: nat, m: int)
    requires p >= 1
    ensures (p * m + r) % p == r % p
  {
    var a := r / p;
    var b := r % p;
    assert r == p * a + b;
    assert p * m + r == p * (m + a) + b;
    DivModUnique(p * m + r, p, m + a, b);
  }

  /** The remainder modulo 2p from the remainder modulo p of the half and the parity. */
  lemma ModHalf(y: nat, p: nat)
    requires p >= 1
    ensures y % (2 * p) == 2 * ((y / 2) % p) + y % 2
  {
    var q := (y / 2) / p;
    var r := (y / 2) % p;
    assert y / 2 == p * q + r;
    assert y == 2 * (y / 2) + y % 2;
    assert y == (2 * p) * q + (2 * r + y % 2);
    DivModUnique(y, 2 * p, q, 2 * r + y % 2);
  }

  /** Divisibility survives scaling both sides. */
  lemma MulDivides(b: nat, a: nat, c: nat)
    requires a >= 1 && c >= 1 && b % a == 0
    ensures (c * b) % (c * a) == 0
  {
    var q := b / a;
    assert b == a * q;
    assert c * b == (c * a) * q;
    MulAtLeast(c, a);
    DivModUnique(c * b, c * a, q, 0);
  }

  /** A divisor of a divisor divides. */
  lemma DividesTrans(x: int, a: nat, b: nat)
    requires a >= 1 && b >= 1 && b % a == 0 && x % b == 0
    ensures x % a == 0
  {
    var q := b / a;
    var r := x / b;
    assert b == a * q;
    assert x == b * r;
    assert x == a * (q * r);
    DivModUnique(x, a, q * r, 0);
  }

  /** Reducing b + x modulo w, where n divides both w and b, does not change the remainder of its
      negation modulo n. */
  lemma NegModWrap(x: int, b: int, w: int, n: nat)
    requires n >= 1 && w >= 1 && w % n == 0 && b % n == 0
    ensures (-((b + x) % w)) % n == (-x) % n
  {
    var t := (b + x) / w;
    var c := w / n;
    var d := b / n;
    assert w == n * c && b == n * d;
    assert b + x == w * t + (b + x) % w;
    assert w * t == n * (c * t);
    assert -((b + x) % w) == n * (c * t - d) + -x;
    ModShift(-x, n, c * t - d);
  }

  /** x with its remainder modulo p taken off is the largest multiple of p not above x. */
  lemma DownMultiple(x: int, p: nat)
    requires p >= 1
    ensures (x - x % p) % p == 0 && x - p < x - x % p <= x
  {
    DivModUnique(x - x % p, p, x / p, 0);
  }

  /** The difference of two multiples of p is a multiple of p. */
  lemma DiffMultiple(a: int, b: int, p: nat)
    requires p >= 1 && a % p == 0 && b % p == 0
    ensures (a - b) % p == 0
  {
    DivModUnique(a - b, p, a / p - b / p, 0);
  }

  /** p rounded up to a multiple of a. */
  function AlignUp(p: int, a: int): int
    requires a >= 1
  {
    p + (-p) % a
  }

  lemma AlignUpBounds(p: int, a: int)
    requires a >= 1
    ensures p <= AlignUp(p, a) < p + a
    ensures AlignUp(p, a) % a == 0
    ensures p % a == 0 ==> AlignUp(p, a) == p
  {
    var r := (-p) % a;
    var q := (-p) / a;
    assert -p == a * q + r;
    assert AlignUp(p, a) == a * (-q);
    DivModUnique(AlignUp(p, a), a, -q, 0);
    if p % a == 0 {
      assert -p == a * (-(p / a));
      DivModUnique(-p, a, -(p / a), 0);
    }
  }

  /** AlignUp(p, a) is the least multiple of a at or above p. */
  lemma AlignUpLeast(p: int, a: int, x: int)
    requires a >= 1 && x % a == 0 && x >= p
    ensures x >= AlignUp(p, a)
  {
    AlignUpBounds(p, a);
    var u := AlignUp(p, a);
    if x < u {
      var qx := x / a;
      var qu := u / a;
      assert x == a * qx && u == a * qu;
      assert u - x == a * (qu - qx);
      MulAtLeast(a, qu - qx);
    }
  }

  /** Below p * q the quotient by p is below q. */
  lemma DivBelow(x: int, p: int, q: int)
    requires p >= 1 && 0 <= x < p * q
    ensures x / p < q
  {
    var t := q - x / p;
    assert x == p * (x / p) + x % p;
    assert p * t == p * q - p * (x / p);
    assert p * t > 0;
  }
}
