/**
 Finite binary32 values, in units of the smallest subnormal (2^-149): a sign and a magnitude of at
 most 24 significant bits. Sums round to nearest, ties to even (sections 4.3.1 and 6.3 of IEEE 754-2019).
 Infinities and NaN do not occur below 2^128 and are not modelled.
 */
module Binary32 {
  import opened Arithmetic

  const SIGNIFICAND := 0x100_0000
  const HALF_SIGNIFICAND := 0x80_0000

  function P(e: nat): (p: nat)
    ensures p > 0
  {
    Pow(2, e)
  }

  /** Least e such that n needs no more than 24 bits above bit e. */
  function Exponent(n: nat): nat {
    if n < SIGNIFICAND then 0 else 1 + Exponent(n / 2)
  }

  /** Rounds to a multiple of u, to the even one from half way. */
  function RoundTo(n: nat, u: nat): (r: nat)
    requires u > 0
  {
    var q, rest := n / u, n % u;
    if 2 * rest > u || (2 * rest == u && q % 2 == 1) then (q + 1) * u else q * u
  }

  function RoundMag(n: nat): (r: nat) {
    RoundTo(n, P(Exponent(n)))
  }

  /** At most 24 significant bits. */
  ghost predicate Representable(n: nat) {
    exists m: nat, e: nat :: m < SIGNIFICAND && n == Times(m, P(e))
  }

  datatype Float = Float(neg: bool, mag: nat)
  {
    ghost predicate Valid() { Representable(mag) }
    function Val(): int {
      var v: int := mag;
      if neg then -v else v
    }
  }

  function Abs(v: int): nat { if v < 0 then -v else v }

  function Rounded(v: int): Float
    requires v != 0
  {
    Float(v < 0, RoundMag(Abs(v)))
  }

  /** Rounded sum; an exact zero is negative only if both operands are. */
  function Add(a: Float, b: Float): Float {
    var s := a.Val() + b.Val();
    if s == 0 then Float(a.neg && b.neg, 0) else Rounded(s)
  }

  function Sub(a: Float, b: Float): Float {
    Add(a, Float(!b.neg, b.mag))
  }

  function Cell(): (u: nat)
    ensures u > 0
  {
    P(149)
  }

  /** Conversion of a whole number of cells. */
  function FromInt(d: int): Float {
    if d == 0 then Float(false, 0) else Rounded(d * Cell())
  }

  /* ----- divisibility by powers of two ----- */

  function Times(k: int, u: nat): int { k * u }

  ghost predicate Divides(u: nat, v: int) {
    exists k :: v == Times(k, u)
  }

  lemma DividesSum(u: nat, a: int, b: int)
    requires Divides(u, a) && Divides(u, b)
    ensures Divides(u, a + b) && Divides(u, a - b)
  {
    var j, k :| a == Times(j, u) && b == Times(k, u);
    assert a + b == Times(j + k, u);
    assert a - b == Times(j - k, u);
  }

  lemma DividesAbs(u: nat, a: int)
    ensures Divides(u, a) <==> Divides(u, Abs(a))
  {
    if k :| a == Times(k, u) {
      assert -a == Times(-k, u);
    }
    if k :| Abs(a) == Times(k, u) {
      assert a == Times(k, u) || a == Times(-k, u);
    }
  }

  lemma DividesPower(e: nat, f: nat, k: int)
    requires e <= f
    ensures Divides(P(e), Times(k, P(f)))
  {
    PowAdd(2, e, f - e);
    assert Times(k, P(f)) == Times(k * P(f - e), P(e)) by { Regroup(k, P(e), P(f - e)); }
  }

  lemma Regroup(k: int, a: nat, b: nat)
    ensures k * (a * b) == (k * b) * a
  {
  }

  lemma DividesTrans(e: nat, f: nat, v: int)
    requires e <= f && Divides(P(f), v)
    ensures Divides(P(e), v)
  {
    var k :| v == Times(k, P(f));
    DividesPower(e, f, k);
  }

  lemma DoublePower(e: nat)
    ensures P(e + 1) == 2 * P(e)
  {
  }

  /* ----- exponents ----- */

  lemma {:induction false} ExponentBounds(n: nat)
    ensures n < SIGNIFICAND * P(Exponent(n))
    ensures Exponent(n) > 0 ==> n >= HALF_SIGNIFICAND * P(Exponent(n))
  {
    if n >= SIGNIFICAND {
      ExponentBounds(n / 2);
      DoublePower(Exponent(n / 2));
    } else {
      assert P(0) == 1;
    }
  }

  lemma AboveExponent(n: nat, e: nat)
    requires e < Exponent(n)
    ensures n >= SIGNIFICAND * P(e)
  {
    ExponentBounds(n);
    PowMono(2, e + 1, Exponent(n));
    DoublePower(e);
    MulMono(HALF_SIGNIFICAND, 2 * P(e), P(Exponent(n)));
  }

  lemma BelowExponent(n: nat, e: nat)
    requires Exponent(n) <= e
    ensures n < SIGNIFICAND * P(e)
  {
    ExponentBounds(n);
    PowMono(2, Exponent(n), e);
    MulMono(SIGNIFICAND, P(Exponent(n)), P(e));
  }

  /** No smaller exponent has room for n. */
  lemma ExponentIsLeast(n: nat, e: nat)
    requires n < SIGNIFICAND * P(e)
    ensures Exponent(n) <= e
  {
    if e < Exponent(n) {
      AboveExponent(n, e);
    }
  }

  lemma RepresentableDivides(n: nat)
    requires Representable(n)
    ensures Divides(P(Exponent(n)), n)
  {
    var m: nat, e: nat :| m < SIGNIFICAND && n == Times(m, P(e));
    MulMono(P(e), m + 1, SIGNIFICAND);
    assert (m + 1) * P(e) == n + P(e);
    ExponentIsLeast(n, e);
    assert n == Times(m, P(e));
    DividesPower(Exponent(n), e, m);
  }

  /** A multiple of 2^e below 2^24 such units is representable. */
  lemma SmallMultiple(n: nat, e: nat)
    requires Divides(P(e), n) && n < SIGNIFICAND * P(e)
    ensures Representable(n)
  {
    var k :| n == Times(k, P(e));
    Quotient(k, P(e), n);
    assert n == k * P(e) && 0 <= k < SIGNIFICAND;
  }

  lemma Quotient(k: int, u: nat, n: nat)
    requires u > 0 && n == k * u && n < SIGNIFICAND * u
    ensures 0 <= k < SIGNIFICAND
  {
    ProductOrder(SIGNIFICAND, k, u);
    ProductOrder(k, -1, u);
  }

  lemma ProductOrder(a: int, b: int, u: nat)
    requires u > 0
    ensures a <= b <==> a * u <= b * u
  {
    assert b * u - a * u == (b - a) * u;
    if a <= b {
      MulMono(u, 0, b - a);
    } else {
      MulMono(u, 1, a - b);
      assert (a - b) * u == -((b - a) * u);
    }
  }

  /* ----- rounding ----- */

  lemma RoundToDivides(n: nat, u: nat)
    requires u > 0
    ensures Divides(u, RoundTo(n, u))
  {
    var q, rest := n / u, n % u;
    assert RoundTo(n, u) == if 2 * rest > u || (2 * rest == u && q % 2 == 1) then Times(q + 1, u) else Times(q, u);
  }

  lemma RoundToNear(n: nat, u: nat)
    requires u > 0
    ensures n - u < RoundTo(n, u) < n + u
    ensures Divides(u, n) ==> RoundTo(n, u) == n
    ensures 2 * Abs(RoundTo(n, u) - n) <= u
  {
    var q, rest := n / u, n % u;
    assert n == u * q + rest;
    assert (q + 1) * u == u * q + u && q * u == u * q;
    if k :| n == Times(k, u) {
      ExactQuotient(n, u, k);
    }
  }

  /** From half way the result is an even multiple. */
  lemma TiesToEven(n: nat, u: nat)
    requires u > 0 && 2 * (n % u) == u
    ensures RoundTo(n, u) % u == 0 && (RoundTo(n, u) / u) % 2 == 0
  {
    var q := n / u;
    var even := if q % 2 == 1 then q + 1 else q;
    assert RoundTo(n, u) == even * u;
    DivUnique(even * u, u, even, 0);
  }

  lemma ExactQuotient(n: nat, u: nat, k: int)
    requires u > 0 && n == k * u
    ensures n % u == 0
  {
    ProductOrder(0, k, u);
    DivUnique(n, u, k, 0);
  }

  /** A multiple of u that is not beyond n stays not beyond its rounding. */
  lemma RoundToAbove(n: nat, u: nat, k: nat)
    requires u > 0 && k * u <= n
    ensures k * u <= RoundTo(n, u)
  {
    var q := n / u;
    assert n == u * q + n % u;
    if k > q {
      MulMono(u, q + 1, k);
    }
    MulMono(u, k, q);
  }

  /** Values of at most 24 bits round to themselves; results round to such values. */
  lemma RoundExact(n: nat)
    ensures RoundMag(n) == n <==> Representable(n)
    ensures Representable(RoundMag(n))
  {
    var e := Exponent(n);
    RoundToNear(n, P(e));
    RoundToDivides(n, P(e));
    ExponentBounds(n);
    if Representable(n) {
      RepresentableDivides(n);
    }
    RoundFits(n);
  }

  lemma RoundFits(n: nat)
    ensures Representable(RoundMag(n))
  {
    var e := Exponent(n);
    var r := RoundMag(n);
    RoundToNear(n, P(e));
    RoundToDivides(n, P(e));
    ExponentBounds(n);
    if r < SIGNIFICAND * P(e) {
      SmallMultiple(r, e);
    } else {
      var k :| r == Times(k, P(e));
      NextPower(n, r, e, k);
    }
  }

  /** Rounding up past 24 bits lands on the next power of two. */
  lemma NextPower(n: nat, r: nat, e: nat, k: int)
    requires n < SIGNIFICAND * P(e) <= r < n + P(e) && r == k * P(e)
    ensures Representable(r)
  {
    ProductOrder(SIGNIFICAND, k, P(e));
    ProductOrder(SIGNIFICAND + 1, k, P(e));
    assert k == SIGNIFICAND;
    DoublePower(e);
    assert r == Times(HALF_SIGNIFICAND, P(e + 1));
  }

  /** Rounding never passes a representable value: the result is a nearest one. */
  lemma RoundIsNearest(n: nat, k: nat)
    requires Representable(k)
    ensures Abs(RoundMag(n) - n) <= Abs(k - n)
  {
    var u := P(Exponent(n));
    RoundToNear(n, u);
    if Exponent(k) >= Exponent(n) || k == n {
      RepresentableDivides(k);
      if Exponent(k) >= Exponent(n) {
        DividesTrans(Exponent(n), Exponent(k), k);
        NearestMultiple(n, u, k);
      } else {
        RoundExact(n);
      }
    } else {
      BelowBinade(n, k);
    }
  }

  lemma NearestMultiple(n: nat, u: nat, k: nat)
    requires u > 0 && Divides(u, k)
    ensures Abs(RoundTo(n, u) - n) <= Abs(k - n)
  {
    var j :| k == Times(j, u);
    var q, rest := n / u, n % u;
    assert n == u * q + rest;
    assert (q + 1) * u == u * q + u && q * u == u * q;
    ProductOrder(j, q, u);
    ProductOrder(q + 1, j, u);
  }

  /** Values below n's binade are further away than the binade's own multiples. */
  lemma BelowBinade(n: nat, k: nat)
    requires Exponent(k) < Exponent(n)
    ensures Abs(RoundMag(n) - n) <= Abs(k - n)
  {
    var e := Exponent(n);
    ExponentBounds(n);
    ExponentBounds(k);
    DoublePower(e - 1);
    PowMono(2, Exponent(k), e - 1);
    MulMono(SIGNIFICAND, P(Exponent(k)), P(e - 1));
    assert k < HALF_SIGNIFICAND * P(e) <= n;
    assert HALF_SIGNIFICAND * P(e) == Times(HALF_SIGNIFICAND, P(e));
    NearestMultiple(n, P(e), HALF_SIGNIFICAND * P(e));
  }

  /* ----- the delta after its conversion ----- */

  /** The number of cells the converted delta stands for: the delta rounded to 24 bits. */
  function UsedDelta(d: int): int {
    var v: int := RoundMag(Abs(d));
    if d < 0 then -v else v
  }

  /** Converting the delta loses nothing; a caller can test this beforehand. */
  predicate ExactDelta(d: int) {
    Abs(d) % P(Exponent(Abs(d))) == 0
  }

  /** Only deltas of at most 24 significant bits survive their conversion. */
  lemma ExactDeltaIff(d: int)
    ensures ExactDelta(d) <==> UsedDelta(d) == d
    ensures ExactDelta(d) <==> Representable(Abs(d))
  {
    var n := Abs(d);
    var u := P(Exponent(n));
    RoundExact(n);
    RoundToDivides(n, u);
    if k :| RoundTo(n, u) == Times(k, u) && RoundTo(n, u) == n {
      ExactQuotient(n, u, k);
    }
    if n % u == 0 {
      assert n == Times(n / u, u);
      RoundToNear(n, u);
    }
  }

  /** The exponent of a whole number of cells that needs rounding. */
  lemma CellsExponent(n: nat, c: nat)
    requires c == Cell() && n >= SIGNIFICAND
    ensures Exponent(n * c) == Exponent(n) + 149
  {
    var e := Exponent(n);
    ExponentBounds(n);
    PowAdd(2, e, 149);
    PowAdd(2, e - 1, 149);
    DoublePower(e - 1);
    CellsWithin(n, P(e), c);
    ExponentIsLeast(n * c, e + 149);
    if Exponent(n * c) <= e + 148 {
      BelowExponent(n * c, e + 148);
    }
  }

  lemma CellsWithin(n: nat, u: nat, c: nat)
    requires c > 0 && HALF_SIGNIFICAND * u <= n < SIGNIFICAND * u
    ensures HALF_SIGNIFICAND * (u * c) <= n * c < SIGNIFICAND * (u * c)
  {
    MulMono(c, HALF_SIGNIFICAND * u, n);
    MulMono(c, n + 1, SIGNIFICAND * u);
  }

  /** Rounding does not depend on the unit. */
  lemma RoundToScales(n: nat, u: nat, c: nat)
    requires u > 0 && c > 0 && u * c > 0
    ensures RoundTo(n * c, u * c) == RoundTo(n, u) * c
  {
    var q, rest := n / u, n % u;
    assert n == u * q + rest;
    MulMono(c, rest + 1, u);
    assert n * c == (u * c) * q + rest * c;
    DivUnique(n * c, u * c, q, rest * c);
    ProductOrder(2 * rest, u, c);
    ProductOrder(u, 2 * rest, c);
    assert (2 * rest) * c == 2 * (rest * c);
    assert (q + 1) * u * c == (q + 1) * (u * c) && q * u * c == q * (u * c);
  }

  lemma RoundCells(n: nat, c: nat)
    requires c == Cell()
    ensures RoundMag(n * c) == RoundMag(n) * c
  {
    if n < SIGNIFICAND {
      assert n == Times(n, P(0)) && n * c == Times(n, P(149));
      RoundExact(n);
      RoundExact(n * c);
    } else {
      CellsExponent(n, c);
      PowAdd(2, Exponent(n), 149);
      RoundToScales(n, P(Exponent(n)), c);
    }
  }

  /** What the subtraction really takes off a position. */
  lemma FromIntIs(d: int)
    ensures FromInt(d).Val() == UsedDelta(d) * Cell()
    ensures (FromInt(d).neg <==> d < 0) && (d != 0 ==> FromInt(d).mag > 0)
  {
    if d == 0 {
      assert RoundMag(0) == 0;
    } else {
      var c := Cell();
      var v := d * c;
      SignedProduct(d, c, v);
      RoundCells(Abs(d), c);
      RoundIsPositive(Abs(v));
      SignedProduct(UsedDelta(d), c, UsedDelta(d) * c);
    }
  }

  lemma SignedProduct(d: int, u: nat, v: int)
    requires u > 0 && v == d * u
    ensures (v < 0 <==> d < 0) && (v == 0 <==> d == 0) && Abs(v) == Abs(d) * u
  {
    ProductOrder(0, d, u);
    ProductOrder(d, 0, u);
  }

  lemma RoundIsPositive(n: nat)
    requires n > 0
    ensures RoundMag(n) > 0
  {
    var e := Exponent(n);
    ExponentBounds(n);
    if e == 0 {
      assert P(0) == 1;
      RoundToNear(n, 1);
      assert n == Times(n, 1);
    } else {
      RoundToAbove(n, P(e), HALF_SIGNIFICAND);
    }
  }

  /* ----- add-back after a whole-cell subtraction ----- */

  /** Below 2^24 cells, where a binary32 position still resolves single cells. */
  ghost predicate Local(p: Float) {
    p.Valid() && p.mag < SIGNIFICAND * Cell()
  }

  /** A number of cells other than zero. */
  ghost predicate WholeDelta(b: Float) {
    b.mag > 0 && Divides(P(149), b.Val())
  }

  lemma FromIntIsWhole(d: int)
    requires d != 0
    ensures WholeDelta(FromInt(d)) && (FromInt(d).neg <==> d < 0)
  {
    FromIntIs(d);
    assert FromInt(d).Val() == Times(UsedDelta(d), P(149));
  }

  /** What the code checks on one axis: does adding the delta back give the very bits it started from? */
  predicate AddsBack(p: Float, d: int) {
    ComesBack(p, FromInt(d))
  }

  predicate ComesBack(p: Float, b: Float) {
    Add(Sub(p, b), b) == p
  }

  /** The subtraction of the converted delta from p was not rounded. */
  predicate Exact(p: Float, d: int) {
    ExactSub(p, FromInt(d))
  }

  predicate ExactSub(p: Float, b: Float) {
    Sub(p, b).Val() == p.Val() - b.Val()
  }

  /** Local positions, whole cells, and everything between lie on the position's own grid. */
  lemma SameGrid(p: Float, b: Float)
    requires Local(p) && WholeDelta(b)
    ensures Divides(P(Exponent(p.mag)), p.Val()) && Divides(P(Exponent(p.mag)), b.Val())
  {
    ExponentIsLeast(p.mag, 149);
    RepresentableDivides(p.mag);
    DividesAbs(P(Exponent(p.mag)), p.Val());
    DividesTrans(Exponent(p.mag), 149, b.Val());
  }

  lemma OffGridIsLarge(s: nat, e: nat)
    requires Divides(P(e), s) && !Representable(s)
    ensures s >= SIGNIFICAND * P(e) && Exponent(s) > e
  {
    if s < SIGNIFICAND * P(e) {
      SmallMultiple(s, e);
    }
    ExponentBounds(s);
    if Exponent(s) <= e {
      BelowExponent(s, e);
    }
  }

  /** Rounding a large value keeps it on any finer grid. */
  lemma RoundKeepsGrid(s: nat, e: nat)
    requires Exponent(s) >= e
    ensures Divides(P(e), RoundMag(s))
  {
    RoundToDivides(s, P(Exponent(s)));
    DividesTrans(e, Exponent(s), RoundMag(s));
  }

  lemma LargeStaysLarge(t: nat, e: nat)
    requires t >= SIGNIFICAND * P(e)
    ensures RoundMag(t) >= SIGNIFICAND * P(e)
  {
    var f := Exponent(t);
    ExponentBounds(t);
    if f <= e {
      BelowExponent(t, e);
    }
    PowMono(2, e + 1, f);
    DoublePower(e);
    MulMono(HALF_SIGNIFICAND, 2 * P(e), P(f));
    RoundToAbove(t, P(f), HALF_SIGNIFICAND);
  }

  /** A sum on the grid of x, other than x, does not round to x. */
  lemma NotRoundedTo(x: nat, t: nat)
    requires Representable(x) && Divides(P(Exponent(x)), t) && t != x
    ensures RoundMag(t) != x
  {
    var e := Exponent(x);
    ExponentBounds(x);
    if t < SIGNIFICAND * P(e) {
      SmallMultiple(t, e);
      RoundExact(t);
    } else {
      LargeStaysLarge(t, e);
    }
  }

  lemma AbsRounded(v: int)
    requires v != 0
    ensures Abs(Rounded(v).Val()) == RoundMag(Abs(v))
    ensures Rounded(v).Val() == v <==> Representable(Abs(v))
  {
    RoundExact(Abs(v));
  }

  /** Exactness is that the difference still fits 24 bits. */
  lemma ExactIffFits(p: Float, b: Float)
    ensures ExactSub(p, b) <==> Representable(Abs(p.Val() - b.Val()))
  {
    var s := p.Val() - b.Val();
    if s == 0 {
      ZeroFits();
    } else {
      AbsRounded(s);
    }
  }

  lemma ZeroFits()
    ensures Representable(0)
  {
    assert 0 == Times(0, P(0));
  }

  /** The rounded difference stays on the grid of p, and adding back gives p's value only if nothing was lost. */
  lemma LossIsNoticed(p: Float, b: Float)
    requires Local(p) && WholeDelta(b) && !ExactSub(p, b)
    ensures Add(Sub(p, b), b).Val() != p.Val()
  {
    var e := Exponent(p.mag);
    var s := p.Val() - b.Val();
    var y := Sub(p, b);
    var t := y.Val() + b.Val();
    ExactIffFits(p, b);
    ZeroFits();
    SameGrid(p, b);
    DividesSum(P(e), p.Val(), b.Val());
    DividesAbs(P(e), s);
    OffGridIsLarge(Abs(s), e);
    RoundKeepsGrid(Abs(s), e);
    AbsRounded(s);
    DividesAbs(P(e), y.Val());
    DividesSum(P(e), y.Val(), b.Val());
    DividesAbs(P(e), t);
    if t != 0 {
      AbsRounded(t);
      SignedNotRoundedTo(p, t);
    }
  }

  lemma SignedNotRoundedTo(p: Float, t: int)
    requires p.Valid() && t != 0 && t != p.Val() && Divides(P(Exponent(p.mag)), Abs(t))
    ensures Rounded(t).Val() != p.Val()
  {
    if Abs(t) != p.mag {
      NotRoundedTo(p.mag, Abs(t));
    } else {
      RoundExact(Abs(t));
    }
  }

  lemma ExactComesBack(p: Float, b: Float)
    requires p.Valid() && ExactSub(p, b)
    ensures Add(Sub(p, b), b).Val() == p.Val()
  {
    if p.Val() != 0 {
      AbsRounded(p.Val());
    }
  }

  /** A sum that is zero comes out positive once the delta is not zero. */
  lemma SignComesBack(q: Float, b: Float)
    requires b.mag > 0
    ensures var r := Add(q, b); r.Val() == 0 ==> q.Val() + b.Val() == 0 && !r.neg
  {
    var t := q.Val() + b.Val();
    if t != 0 {
      RoundIsPositive(Abs(t));
    }
  }

  lemma ComesBackIffExact(p: Float, b: Float)
    requires Local(p) && WholeDelta(b)
    ensures ComesBack(p, b) <==> ExactSub(p, b) && p != Float(true, 0)
  {
    var q := Sub(p, b);
    SignComesBack(q, b);
    if ExactSub(p, b) {
      ExactComesBack(p, b);
      SameFloat(Add(q, b), p);
    } else {
      LossIsNoticed(p, b);
    }
  }

  lemma SameFloat(a: Float, b: Float)
    requires a.Val() == b.Val() && (a.Val() == 0 ==> !a.neg)
    ensures a == b <==> b != Float(true, 0)
  {
  }

  /**
   Add-back reconstruction of a position below 2^24 cells succeeds, for any delta, exactly when the
   subtraction was exact and the position was not a negative zero.
   */
  lemma AddsBackIffExact(p: Float, d: int)
    requires Local(p) && d != 0
    ensures AddsBack(p, d) <==> Exact(p, d) && p != Float(true, 0)
  {
    FromIntIsWhole(d);
    ComesBackIffExact(p, FromInt(d));
  }

  /** From half the converted delta on outwards, so in the whole Sterbenz window, the subtraction is exact. */
  lemma NearDeltaIsExact(p: Float, d: int)
    requires Local(p) && d != 0
    requires var b := FromInt(d).Val(); if d > 0 then b <= 2 * p.Val() else 2 * p.Val() <= b
    ensures Exact(p, d) && AddsBack(p, d)
  {
    var b := FromInt(d);
    var e := Exponent(p.mag);
    var s := p.Val() - b.Val();
    FromIntIsWhole(d);
    SameGrid(p, b);
    DividesSum(P(e), p.Val(), b.Val());
    DividesAbs(P(e), s);
    assert Abs(s) <= p.mag;
    ExponentBounds(p.mag);
    SmallMultiple(Abs(s), e);
    ExactIffFits(p, b);
    ComesBackIffExact(p, b);
  }

  /* ----- the frame ----- */

  datatype Point = Point(x: Float, y: Float, z: Float)

  class Frame {
    var ox: int
    var oy: int
    var oz: int

    constructor ()
      ensures ox == 0 && oy == 0 && oz == 0
    {
      ox, oy, oz := 0, 0, 0;
    }
  }

  function Moved(p: Point, dx: int, dy: int, dz: int): Point {
    Point(Sub(p.x, FromInt(dx)), Sub(p.y, FromInt(dy)), Sub(p.z, FromInt(dz)))
  }

  /** Axes without a delta are not looked at. */
  predicate MovedAxesAddBack(p: Point, dx: int, dy: int, dz: int) {
    (dx != 0 ==> AddsBack(p.x, dx)) && (dy != 0 ==> AddsBack(p.y, dy)) && (dz != 0 ==> AddsBack(p.z, dz))
  }

  /** Shifts the origin and every local position; reports whether every moved coordinate adds back. */
  method RebaseFrame(frame: Frame, positions: array<Point>, dx: int, dy: int, dz: int) returns (allExact: bool)
    modifies frame, positions
    ensures frame.ox == old(frame.ox) + dx && frame.oy == old(frame.oy) + dy && frame.oz == old(frame.oz) + dz
    ensures forall i :: 0 <= i < positions.Length ==> positions[i] == Moved(old(positions[i]), dx, dy, dz)
    ensures allExact <==> forall i :: 0 <= i < positions.Length ==> MovedAxesAddBack(old(positions[i]), dx, dy, dz)
  {
    var fdx, fdy, fdz := FromInt(dx), FromInt(dy), FromInt(dz);
    ghost var was := positions[..];
    allExact := true;
    for i := 0 to positions.Length
      invariant frame.ox == old(frame.ox) && frame.oy == old(frame.oy) && frame.oz == old(frame.oz)
      invariant forall j :: 0 <= j < i ==> positions[j] == Moved(was[j], dx, dy, dz)
      invariant forall j :: i <= j < positions.Length ==> positions[j] == was[j]
      invariant allExact <==> forall j :: 0 <= j < i ==> MovedAxesAddBack(was[j], dx, dy, dz)
    {
      var p := positions[i];
      var q := Point(Sub(p.x, fdx), Sub(p.y, fdy), Sub(p.z, fdz));
      positions[i] := q;
      if dx != 0 {
        allExact := allExact && Add(q.x, fdx) == p.x;
      }
      if dy != 0 {
        allExact := allExact && Add(q.y, fdy) == p.y;
      }
      if dz != 0 {
        allExact := allExact && Add(q.z, fdz) == p.z;
      }
    }
    frame.ox := frame.ox + dx;
    frame.oy := frame.oy + dy;
    frame.oz := frame.oz + dz;
  }

  ghost predicate LocalPoint(p: Point) {
    Local(p.x) && Local(p.y) && Local(p.z)
  }

  /** Origin plus local position on one axis, in units of 2^-149. */
  function VirtualCoord(origin: int, p: Float): int {
    origin * Cell() + p.Val()
  }

  /** The move of one axis leaves origin plus local position as it was. */
  predicate AxisConserved(origin: int, p: Float, d: int) {
    VirtualCoord(origin + d, Sub(p, FromInt(d))) == VirtualCoord(origin, p)
  }

  /** The rebased point keeps its world position on every axis. */
  predicate Conserved(ox: int, oy: int, oz: int, p: Point, dx: int, dy: int, dz: int) {
    var q := Moved(p, dx, dy, dz);
    && VirtualCoord(ox + dx, q.x) == VirtualCoord(ox, p.x)
    && VirtualCoord(oy + dy, q.y) == VirtualCoord(oy, p.y)
    && VirtualCoord(oz + dz, q.z) == VirtualCoord(oz, p.z)
  }

  lemma NoDeltaIsIdentity(p: Float)
    requires p.Valid()
    ensures Sub(p, FromInt(0)) == p
  {
    if p.Val() != 0 {
      RoundExact(p.mag);
    }
  }

  /** After an exact subtraction the world position has moved by what the conversion of the delta lost. */
  lemma ExactMovesByLoss(origin: int, p: Float, d: int)
    requires Exact(p, d)
    ensures VirtualCoord(origin + d, Sub(p, FromInt(d))) == VirtualCoord(origin, p) + (d - UsedDelta(d)) * Cell()
    ensures AxisConserved(origin, p, d) <==> ExactDelta(d)
  {
    FromIntIs(d);
    ExactDeltaIff(d);
    Distribute(origin, d, UsedDelta(d), Cell());
    ProductOrder(d - UsedDelta(d), 0, Cell());
    ProductOrder(0, d - UsedDelta(d), Cell());
  }

  lemma Distribute(origin: int, d: int, used: int, c: nat)
    ensures (origin + d) * c - used * c == origin * c + (d - used) * c
  {
  }

  /** A moved axis that adds back keeps its world position exactly when its delta survives conversion. */
  lemma AxisConservedIff(origin: int, p: Float, d: int)
    requires Local(p) && (d != 0 ==> AddsBack(p, d))
    ensures AxisConserved(origin, p, d) <==> ExactDelta(d)
  {
    if d == 0 {
      NoDeltaIsIdentity(p);
    } else {
      AddsBackIffExact(p, d);
      ExactMovesByLoss(origin, p, d);
    }
  }

  /** Under a true flag an entity stays where it is in the world exactly when all deltas survive conversion. */
  lemma FlagConservesWorldPositions(ox: int, oy: int, oz: int, p: Point, dx: int, dy: int, dz: int)
    requires LocalPoint(p) && MovedAxesAddBack(p, dx, dy, dz)
    ensures Conserved(ox, oy, oz, p, dx, dy, dz) <==> ExactDelta(dx) && ExactDelta(dy) && ExactDelta(dz)
  {
    AxisConservedIff(ox, p.x, dx);
    AxisConservedIff(oy, p.y, dy);
    AxisConservedIff(oz, p.z, dz);
  }

  /** Zero adds back under every delta. */
  lemma ZeroAddsBack(d: int)
    requires d != 0
    ensures AddsBack(Float(false, 0), d) && Local(Float(false, 0))
  {
    ZeroFits();
    FromIntIs(d);
    RoundExact(Abs(d * Cell()));
    RoundExact(FromInt(d).mag);
  }

  /** The flag can be trusted for all entities exactly when all three deltas survive conversion. */
  lemma FlagIsSoundIff(ox: int, oy: int, oz: int, dx: int, dy: int, dz: int)
    ensures (forall p: Point :: LocalPoint(p) && MovedAxesAddBack(p, dx, dy, dz) ==>
               Conserved(ox, oy, oz, p, dx, dy, dz))
       <==> ExactDelta(dx) && ExactDelta(dy) && ExactDelta(dz)
  {
    forall p: Point | LocalPoint(p) && MovedAxesAddBack(p, dx, dy, dz)
      ensures Conserved(ox, oy, oz, p, dx, dy, dz) <==> ExactDelta(dx) && ExactDelta(dy) && ExactDelta(dz)
    {
      FlagConservesWorldPositions(ox, oy, oz, p, dx, dy, dz);
    }
    var zero := Float(false, 0);
    ZeroAddsBack(1);
    if dx != 0 { ZeroAddsBack(dx); }
    if dy != 0 { ZeroAddsBack(dy); }
    if dz != 0 { ZeroAddsBack(dz); }
    assert LocalPoint(Point(zero, zero, zero)) && MovedAxesAddBack(Point(zero, zero, zero), dx, dy, dz);
  }

  lemma RoundsToEven(n: nat)
    requires n == SIGNIFICAND + 1
    ensures RoundMag(n) == SIGNIFICAND
  {
    assert Exponent(n / 2) == 0;
    assert P(0) == 1;
    DoublePower(0);
  }

  lemma OneCell(k: int, c: nat)
    requires k == 1
    ensures k * c == c
  {
  }

  /** 2^24 + 1 cells convert to 2^24: the flag is true, and an entity at zero moves by one whole cell. */
  lemma InexactDeltaIsMissed(origin: int, d: int)
    requires d == SIGNIFICAND + 1
    ensures var zero := Float(false, 0);
            && Local(zero) && AddsBack(zero, d) && !ExactDelta(d)
            && VirtualCoord(origin + d, Sub(zero, FromInt(d))) == VirtualCoord(origin, zero) + Cell()
  {
    var zero := Float(false, 0);
    RoundsToEven(d);
    ZeroAddsBack(d);
    ExactDeltaIff(d);
    AddsBackIffExact(zero, d);
    ExactMovesByLoss(origin, zero, d);
    OneCell(d - UsedDelta(d), Cell());
  }

  /* ----- how far out the flag can be trusted ----- */

  lemma BinadeExponent(n: nat, q: nat, rest: nat, u: nat)
    requires u == P(150) && n == u * q + rest && rest < u && HALF_SIGNIFICAND <= q < SIGNIFICAND
    ensures Exponent(n) == 150 && n / u == q && n % u == rest
  {
    DoublePower(149);
    MulMono(u, q + 1, SIGNIFICAND);
    MulMono(u, HALF_SIGNIFICAND, q);
    ExponentIsLeast(n, 150);
    if Exponent(n) <= 149 {
      BelowExponent(n, 149);
    }
    DivUnique(n, u, q, rest);
  }

  lemma RoundsInBinade(n: nat, q: nat, c: nat)
    requires c == Cell() && n == 2 * c * q + c && HALF_SIGNIFICAND <= q < SIGNIFICAND
    ensures RoundMag(n) == if q % 2 == 1 then (q + 1) * (2 * c) else q * (2 * c)
  {
    DoublePower(149);
    BinadeExponent(n, q, c, 2 * c);
  }

  lemma RoundsUp(c: nat)
    requires c == Cell()
    ensures RoundMag((SIGNIFICAND + 3) * c) == (SIGNIFICAND + 4) * c
  {
    RoundsInBinade((SIGNIFICAND + 3) * c, HALF_SIGNIFICAND + 1, c);
  }

  lemma RoundsDown(c: nat)
    requires c == Cell()
    ensures RoundMag((SIGNIFICAND + 1) * c) == SIGNIFICAND * c
  {
    RoundsInBinade((SIGNIFICAND + 1) * c, HALF_SIGNIFICAND, c);
  }

  lemma FarIsValid(c: nat)
    requires c == Cell()
    ensures Representable(SIGNIFICAND * c)
  {
    DoublePower(149);
    assert SIGNIFICAND * c == Times(HALF_SIGNIFICAND, P(150));
  }

  lemma FarSumsRound(c: nat, p: Float, b: Float)
    requires c == Cell() && p == Float(false, SIGNIFICAND * c) && b == Float(true, 3 * c)
    ensures Sub(p, b) == Float(false, (SIGNIFICAND + 4) * c) && ComesBack(p, b)
  {
    RoundsUp(c);
    RoundsDown(c);
  }

  /** 2^24 cells minus -3 cells rounds up to 2^24 + 4, and adding -3 back rounds down to 2^24. */
  lemma AtTheBoundLossIsMissed(p: Float)
    requires p == Float(false, SIGNIFICAND * Cell())
    ensures p.Valid() && AddsBack(p, -3) && !Exact(p, -3) && ExactDelta(-3)
  {
    assert 3 == Times(3, P(0));
    RoundExact(3);
    ExactDeltaIff(-3);
    FromIntIs(-3);
    FarIsValid(Cell());
    FarSumsRound(Cell(), p, FromInt(-3));
  }

  /** Positions of at most b cells. */
  ghost predicate Within(p: Float, b: nat) {
    p.Valid() && p.mag <= b * Cell()
  }

  lemma WithinIsLocal(p: Float, b: nat)
    requires Within(p, b) && b < SIGNIFICAND
    ensures Local(p)
  {
    MulMono(Cell(), b + 1, SIGNIFICAND);
  }

  /** Add-back implies exactness for all positions of at most b cells and all deltas exactly when b is below 2^24. */
  lemma BoundIsSharp(b: nat)
    ensures (forall p: Float, d: int :: Within(p, b) && d != 0 && AddsBack(p, d) ==> Exact(p, d))
       <==> b < 0x100_0000
  {
    if b < SIGNIFICAND {
      forall p: Float, d: int | Within(p, b) && d != 0 && AddsBack(p, d)
        ensures Exact(p, d)
      {
        WithinIsLocal(p, b);
        AddsBackIffExact(p, d);
      }
    } else {
      var p := Float(false, SIGNIFICAND * Cell());
      AtTheBoundLossIsMissed(p);
      MulMono(Cell(), SIGNIFICAND, b);
      assert Within(p, b);
    }
  }

  /** The same bound for conservation, over the deltas that survive conversion. */
  lemma ConservationBoundIsSharp(origin: int, b: nat)
    ensures (forall p: Float, d: int :: Within(p, b) && d != 0 && ExactDelta(d) && AddsBack(p, d) ==>
               AxisConserved(origin, p, d))
       <==> b < 0x100_0000
  {
    if b < SIGNIFICAND {
      forall p: Float, d: int | Within(p, b) && d != 0 && ExactDelta(d) && AddsBack(p, d)
        ensures AxisConserved(origin, p, d)
      {
        WithinIsLocal(p, b);
        AxisConservedIff(origin, p, d);
      }
    } else {
      var p := Float(false, SIGNIFICAND * Cell());
      AtTheBoundLossIsMissed(p);
      MulMono(Cell(), SIGNIFICAND, b);
      ConservedIsExact(origin, p, -3);
      assert Within(p, b);
    }
  }

  /** With a delta that survives conversion, keeping the world position is exactness. */
  lemma ConservedIsExact(origin: int, p: Float, d: int)
    requires ExactDelta(d)
    ensures AxisConserved(origin, p, d) <==> Exact(p, d)
  {
    FromIntIs(d);
    ExactDeltaIff(d);
    Distribute(origin, d, d, Cell());
  }
}
