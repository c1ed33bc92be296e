/** Numbers as little-endian digit strings in a fixed base: the content of one stream word. */
module Digits {
  import opened Arithmetic

  /** Digits of the given base, lowest first, as one number. */
  function Pack(ds: seq<nat>, base: nat): (w: nat)
  {
    if ds == [] then 0 else ds[0] + base * Pack(ds[1..], base)
  }

  /** The j-th digit of w. */
  function Digit(w: nat, base: nat, j: nat): (d: nat)
    requires base > 0
  {
    (w / Pow(base, j)) % base
  }

  /** The n lowest digits of w. */
  ghost function Digits(w: nat, base: nat, n: nat): (ds: seq<nat>)
    requires base > 0
  {
    seq(n, (j: nat) => Digit(w, base, j))
  }

  ghost predicate AllBelow(ds: seq<nat>, base: nat) {
    forall j :: 0 <= j < |ds| ==> ds[j] < base
  }

  lemma {:induction false} PackRange(ds: seq<nat>, base: nat)
    requires base > 0 && AllBelow(ds, base)
    ensures Pack(ds, base) < Pow(base, |ds|)
  {
    if ds != [] {
      PackRange(ds[1..], base);
      MulMono(base, Pack(ds[1..], base) + 1, Pow(base, |ds| - 1));
    }
  }

  lemma {:induction false} PackAppend(ds: seq<nat>, d: nat, base: nat)
    ensures Pack(ds + [d], base) == Pack(ds, base) + d * Pow(base, |ds|)
  {
    if ds == [] {
      assert ([d])[1..] == [];
    } else {
      PackAppend(ds[1..], d, base);
      assert (ds + [d])[1..] == ds[1..] + [d];
      Distribute(base, Pack(ds[1..], base), d, Pow(base, |ds| - 1));
    }
  }

  lemma Distribute(b: nat, x: nat, d: nat, p: nat)
    ensures b * (x + d * p) == b * x + d * (b * p)
  {
  }

  /** Reading a digit back from a packed word. */
  lemma {:induction false} DigitOfPack(ds: seq<nat>, base: nat, j: nat)
    requires base > 0 && AllBelow(ds, base) && j < |ds|
    ensures Digit(Pack(ds, base), base, j) == ds[j]
  {
    var w, t := Pack(ds, base), Pack(ds[1..], base);
    DivUnique(w, base, t, ds[0]);
    if j > 0 {
      DigitOfPack(ds[1..], base, j - 1);
      DigitShift(w, base, j);
    }
  }

  lemma DigitShift(w: nat, base: nat, j: nat)
    requires base > 0 && j > 0
    ensures Digit(w, base, j) == Digit(w / base, base, j - 1)
  {
    DivDiv(w, base, Pow(base, j - 1));
  }

  lemma DigitsTail(w: nat, base: nat, n: nat)
    requires base > 0 && n > 0
    ensures Digits(w, base, n)[0] == w % base
    ensures Digits(w, base, n)[1..] == Digits(w / base, base, n - 1)
  {
    forall j | 0 <= j < n - 1
      ensures Digits(w, base, n)[1..][j] == Digits(w / base, base, n - 1)[j]
    {
      DigitShift(w, base, j + 1);
    }
  }

  /** A word below base^n is recovered from its n lowest digits. */
  lemma {:induction false} PackOfDigits(w: nat, base: nat, n: nat)
    requires base > 0 && w < Pow(base, n)
    ensures Pack(Digits(w, base, n), base) == w
    decreases n
  {
    if n > 0 {
      QuotientRange(w, base, Pow(base, n - 1));
      PackOfDigits(w / base, base, n - 1);
      DigitsTail(w, base, n);
    }
  }

  lemma QuotientRange(w: nat, base: nat, p: nat)
    requires base > 0 && w < base * p
    ensures w / base < p
  {
    if w / base >= p {
      MulMono(base, p, w / base);
    }
  }
}
