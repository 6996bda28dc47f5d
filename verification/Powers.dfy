/** Powers of two. */
module Powers {
  function Pow2(n: nat): nat
    ensures Pow2(n) >= 1
  {
    if n == 0 then 1 else 2 * Pow2(n - 1)
  }

  lemma {:induction false} Pow2Add(m: nat, n: nat)
    ensures Pow2(m + n) == Pow2(m) * Pow2(n)
  {
    if m > 0 {
      Pow2Add(m - 1, n);
      var p, q := Pow2(m - 1), Pow2(n);
      assert Pow2(m + n) == 2 * (p * q);
      MulAssoc(2, p, q);
    }
  }

  lemma MulAssoc(a: nat, b: nat, c: nat)
    ensures a * (b * c) == (a * b) * c
  {
  }

  lemma {:induction false} Pow2Mono(m: nat, n: nat)
    requires m <= n
    ensures Pow2(m) <= Pow2(n)
  {
    if m < n { Pow2Mono(m, n - 1); }
  }

  lemma Pow8()
    ensures Pow2(8) == 256
  {
    assert Pow2(4) == 16;
  }

  lemma Pow32()
    ensures Pow2(32) == 0x1_0000_0000
  {
    Pow8();
    Pow2Add(8, 8);
    Pow2Add(16, 16);
  }

  /** Quotient and remainder are unique. */
  lemma Divides(a: nat, d: nat, q: nat, r: nat)
    requires a == q * d + r && r < d
    ensures a / d == q && a % d == r
  {
    var k := a / d;
    if k < q { Below(k, q, d); }
    if q < k { Below(q, k, d); }
  }

  /** Between one multiple and a larger one there is room for the divisor. */
  lemma NextMultiple(a: nat, d: nat, n: nat)
    requires d > 0 && a % d == 0 && n % d == 0 && a < n
    ensures a + d <= n
  {
    var q, m := a / d, n / d;
    assert a == q * d && n == m * d;
    if m < q { Below(m, q, d); }
    if q < m { Below(q, m, d); }
  }

  /** Half of a divisor added to a multiple of it changes no quotient by a multiple of the divisor. */
  lemma AddHalf(b: nat, w: nat, d: nat)
    requires w > 0 && d > 0 && b % (2 * w) == 0 && d % (2 * w) == 0
    ensures (b + w) / d == b / d
  {
    var v := 2 * w;
    var q, r, c, e := b / d, b % d, b / v, d / v;
    assert b == q * d + r && b == c * v && d == e * v;
    RestIsMultiple(b, d, v, q, r, c, e);
    NextMultiple(r, v, d);
    Divides(b + w, d, q, r + w);
  }

  lemma RestIsMultiple(b: nat, d: nat, v: nat, q: nat, r: nat, c: nat, e: nat)
    requires v > 0 && b == q * d + r && b == c * v && d == e * v
    ensures r % v == 0
  {
    var m := c - q * e;
    assert q * d == q * e * v;
    assert r == m * v;
    if m < 0 {
      Below(0, -m, v);
    } else {
      Divides(r, v, m, 0);
    }
  }

  lemma Below(a: nat, b: nat, p: nat)
    requires a < b
    ensures a * p + p <= b * p
  {
    var d: nat := b - a - 1;
    assert b * p == (a + 1 + d) * p == a * p + p + d * p;
  }
}
