/**
 Rounding to a number of decimal places as `_ftoa` does it, over exact reals
 (sw/device/lib/runtime/printf.c:338-363).
 */
module Rounding {
  import opened Digits

  /** The whole and the fractional part, in units of `10^-prec`, of a value that is not negative. */
  datatype Fixed = Fixed(whole: nat, frac: nat)

  function Scale(prec: nat): (p: nat)
    ensures 0 < p
  {
    PowPositive(10, prec);
    Pow(10, prec)
  }

  /** The table of `_ftoa`. */
  const POW10: seq<nat> := [1, 10, 100, 1000, 10000, 100000, 1000000, 10000000, 100000000, 1000000000]

  lemma TableOfTens(i: nat)
    requires i < |POW10|
    ensures POW10[i] == Scale(i)
  {
    assert Pow(10, 1) == 10 && Pow(10, 2) == 100 && Pow(10, 3) == 1000;
    assert Pow(10, 4) == 10000 && Pow(10, 5) == 100000 && Pow(10, 6) == 1000000;
    assert Pow(10, 7) == 10000000 && Pow(10, 8) == 100000000 && Pow(10, 9) == 1000000000;
  }

  lemma TableFraction(v: real, i: nat)
    requires i < |POW10|
    ensures (v - v.Floor as real) * POW10[i] as real == ScaledFraction(v, i)
  {
    TableOfTens(i);
    hide Scale;
  }

  function ScaledFraction(v: real, prec: nat): real {
    Product(v - v.Floor as real, Scale(prec) as real)
  }

  function Product(a: real, b: real): real { a * b }

  /** The value after rounding, with the code's own choice on ties. */
  function Round(v: real, prec: nat): Fixed
    requires 0.0 <= v
  {
    var tmp := ScaledFraction(v, prec);
    ScaledFractionBounds(v, prec);
    var whole: nat := v.Floor;
    var frac: nat := tmp.Floor;
    var diff := tmp - frac as real;
    var r :=
      if diff > 0.5 then
        if frac + 1 >= Scale(prec) then Fixed(whole + 1, 0) else Fixed(whole, frac + 1)
      else if diff < 0.5 then Fixed(whole, frac)
      else if frac == 0 || frac % 2 == 1 then Fixed(whole, frac + 1)
      else Fixed(whole, frac);
    if prec == 0 && v - r.whole as real >= 0.5 && r.whole % 2 == 1 then Fixed(r.whole + 1, r.frac) else r
  }

  lemma ScaledFractionBounds(v: real, prec: nat)
    requires 0.0 <= v
    ensures 0.0 <= ScaledFraction(v, prec) < Scale(prec) as real
  {
    hide Product, Scale;
    FractionScales(v - v.Floor as real, Scale(prec) as real);
  }

  lemma FractionScales(f: real, p: real)
    requires 0.0 <= f < 1.0 && 0.0 < p
    ensures 0.0 <= Product(f, p) < p
  {
    assert (1.0 - f) * p > 0.0;
  }

  // ---------- what is found

  /** The scaled fraction lies exactly between the largest `prec`-digit number and `10^prec`. */
  predicate IsTopTie(v: real, prec: nat) {
    (v - v.Floor as real) * Pow(10, prec) as real == Pow(10, prec) as real - 0.5
  }

  /** `r` is a nearest multiple of `10^-prec`, with a fraction of at most `prec` digits. */
  predicate IsNearest(r: Fixed, v: real, prec: nat) {
    var error := (r.whole as real - v) * Pow(10, prec) as real + r.frac as real;
    r.frac < Pow(10, prec) && -0.5 <= error <= 0.5
  }

  /** `n` is a nearest whole number, and of two the even one. */
  predicate IsNearestEven(n: nat, v: real) {
    -0.5 <= n as real - v <= 0.5 && (n as real - v == 0.5 || n as real - v == -0.5 ==> n % 2 == 0)
  }

  /** What rounding to `prec` places finds. On the topmost tie, the carry is forgotten. */
  predicate IsRounded(r: Fixed, v: real, prec: nat)
    requires 0.0 <= v
  {
    if prec == 0 then IsNearestEven(r.whole, v)
    else if IsTopTie(v, prec) then r == Fixed(v.Floor, Scale(prec))
    else IsNearest(r, v, prec)
  }

  lemma ErrorShape(whole: int, frac: int, v: real, prec: nat)
    ensures (whole as real - v) * Scale(prec) as real + frac as real
         == (whole - v.Floor) as real * Scale(prec) as real + frac as real - ScaledFraction(v, prec)
  {}

  /** Rounding to at least one place finds a nearest multiple except on the topmost tie. */
  lemma RoundNearest(v: real, prec: nat)
    requires 0.0 <= v && 1 <= prec
    ensures if IsTopTie(v, prec) then Round(v, prec) == Fixed(v.Floor, Scale(prec)) else IsNearest(Round(v, prec), v, prec)
  {
    var r := Round(v, prec);
    var t := ScaledFraction(v, prec);
    ScaledFractionBounds(v, prec);
    ErrorShape(r.whole, r.frac, v, prec);
    ScaleIsEven(prec);
    hide Scale, ScaledFraction;
    if r.whole == v.Floor + 1 {
      assert 1 as real * Scale(prec) as real == Scale(prec) as real;
    }
  }

  lemma ScaleIsEven(prec: nat)
    requires 1 <= prec
    ensures Scale(prec) % 2 == 0 && 10 <= Scale(prec)
  {
    PowPositive(10, prec - 1);
    var p := Pow(10, prec - 1);
    assert Pow(10, prec) == 2 * (5 * p);
  }

  /** Without places, rounding is to the nearest whole number, and to the even one of two. */
  lemma RoundHalfEven(v: real)
    requires 0.0 <= v
    ensures IsNearestEven(Round(v, 0).whole, v)
  {
    assert Scale(0) == 1;
  }

  lemma RoundIsRounded(v: real, prec: nat)
    requires 0.0 <= v
    ensures IsRounded(Round(v, prec), v, prec)
  {
    hide Round, IsNearest, IsTopTie, IsNearestEven, Scale;
    if prec == 0 {
      RoundHalfEven(v);
    } else {
      RoundNearest(v, prec);
    }
  }

  // ---------- the topmost tie

  /** At one place, 0.95 is a topmost tie: it becomes 0 and ten tenths. */
  lemma TopTieExample()
    ensures IsTopTie(0.95, 1) && Round(0.95, 1) == Fixed(0, 10)
  {
    assert Scale(1) == 10;
  }

  lemma {:induction false} NoFiveInTwo(k: nat)
    ensures Pow(2, k) % 5 != 0
  {
    if k != 0 {
      NoFiveInTwo(k - 1);
    }
  }

  /** A binary fraction, such as a finite `double` that is not negative, is never exactly on a topmost tie. */
  lemma NoBinaryTopTie(v: real, n: nat, k: nat, prec: nat)
    requires v * Pow(2, k) as real == n as real && 1 <= prec
    ensures !IsTopTie(v, prec)
  {
    if IsTopTie(v, prec) {
      var p, w := Pow(10, prec), Pow(2, k);
      TieEquation(v, n, w, p);
      NoFiveInTwo(k);
      assert p == 10 * Pow(10, prec - 1);
      FiveDivides(w, Pow(10, prec - 1), w - (n - v.Floor * w));
    }
  }

  /** A tie, with its denominators cleared. */
  lemma TieEquation(v: real, n: nat, w: nat, p: nat)
    requires v * w as real == n as real
    requires Product(v - v.Floor as real, p as real) == p as real - 0.5
    ensures w == 2 * p * (w - (n - v.Floor * w))
  {
    var f := v.Floor;
    assert (v - f as real) * p as real * w as real == (v * w as real - f as real * w as real) * p as real;
    assert (v * w as real - f as real * w as real) == (n - f * w) as real;
    assert (n - f * w) as real * p as real == (p as real - 0.5) * w as real;
    assert 2.0 * ((n - f * w) as real * p as real) == 2.0 * (p as real * w as real) - w as real;
    assert (2 * ((n - f * w) * p)) as real == (2 * (p * w) - w) as real;
    assert 2 * ((n - f * w) * p) == 2 * (p * w) - w;
    assert 2 * p * (w - (n - f * w)) == 2 * (p * w) - 2 * ((n - f * w) * p);
  }

  lemma FiveDivides(w: nat, q: nat, a: int)
    requires w == 2 * (10 * q) * a
    ensures w % 5 == 0
  {
    assert 2 * (10 * q) * a == 5 * (4 * (q * a));
    RemainderUnique(w, 5, 4 * (q * a), 0);
  }
}
