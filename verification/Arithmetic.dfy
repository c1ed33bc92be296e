/** Powers and division facts shared by the codecs. */
module Arithmetic {

  function Pow(b: nat, n: nat): (p: nat)
    ensures b > 0 ==> p > 0
  {
    if n == 0 then 1 else b * Pow(b, n - 1)
  }

  lemma MulMono(d: nat, a: nat, b: nat)
    requires a <= b
    ensures d * a <= d * b
  {
  }

  lemma DivUnique(x: nat, d: nat, q: nat, r: nat)
    requires d > 0 && r < d && x == d * q + r
    ensures x / d == q && x % d == r
  {
    var g := x / d;
    assert x == d * g + x % d;
    if g < q {
      MulMono(d, g + 1, q);
    } else if q < g {
      MulMono(d, q + 1, g);
    }
  }

  lemma {:induction false} PowAdd(b: nat, m: nat, n: nat)
    ensures Pow(b, m + n) == Pow(b, m) * Pow(b, n)
  {
    if m > 0 {
      PowAdd(b, m - 1, n);
      MulAssoc(b, Pow(b, m - 1), Pow(b, n));
    }
  }

  lemma {:induction false} PowMul(b: nat, m: nat, n: nat)
    ensures Pow(b, m * n) == Pow(Pow(b, m), n)
  {
    if n > 0 {
      PowMul(b, m, n - 1);
      assert m * n == m + m * (n - 1);
      PowAdd(b, m, m * (n - 1));
    } else {
      assert m * n == 0;
    }
  }

  lemma MulAssoc(a: nat, b: nat, c: nat)
    ensures a * (b * c) == (a * b) * c
  {
  }

  lemma {:induction false} PowMono(b: nat, m: nat, n: nat)
    requires b > 0 && m <= n
    ensures Pow(b, m) <= Pow(b, n)
    decreases n
  {
    if m < n {
      PowMono(b, m, n - 1);
      MulMono(Pow(b, n - 1), 1, b);
    }
  }

  predicate IsInt32(v: int) {
    -0x8000_0000 <= v < 0x8000_0000
  }

  /** The 32-bit pattern of a signed coordinate with its sign bit flipped. */
  function FlipSign(v: int): (u: int)
    requires IsInt32(v)
    ensures u == v + 0x8000_0000
  {
    var pattern := if v < 0 then v + 0x1_0000_0000 else v;
    if pattern < 0x8000_0000 then pattern + 0x8000_0000 else pattern - 0x8000_0000
  }

  function Min(a: int, b: int): (m: int) {
    if a < b then a else b
  }

  lemma DivDiv(v: nat, a: nat, p: nat)
    requires a > 0 && p > 0
    ensures v / a / p == v / (a * p)
  {
    DivDivParts(v, a, p, v / a / p, (v / a) % p, v % a);
  }

  lemma DivDivParts(v: nat, a: nat, p: nat, q: nat, r: nat, t: nat)
    requires a > 0 && p > 0 && t < a && r < p && v == a * (p * q + r) + t
    ensures v / (a * p) == q
  {
    MulMono(a, r + 1, p);
    assert a * (p * q + r) == (a * p) * q + a * r by { MulAssoc(a, p, q); }
    DivUnique(v, a * p, q, a * r + t);
  }

  /** Bit i of a number. */
  function BitOf(v: nat, i: nat): (b: nat)
    ensures b <= 1
  {
    (v / Pow(2, i)) % 2
  }

  lemma HalfBit(v: nat, i: nat)
    requires i > 0
    ensures BitOf(v, i) == BitOf(v / 2, i - 1)
  {
    DivDiv(v, 2, Pow(2, i - 1));
  }
}
