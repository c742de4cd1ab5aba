/**
 What the fixed-point conversion `_ftoa` prints, over exact reals
 (sw/device/lib/runtime/printf.c:295-402).
 */
module FtoaLaws {
  import opened Text
  import opened Digits
  import opened Directives
  import opened Rounding
  import opened Rendering
  import opened IntegerLaws

  /** The fraction with exactly `prec` places. */
  function FractionText(frac: nat, prec: nat): string {
    var digits := Numeral(frac, 10, SCRATCH, false);
    Repeat('0', Excess(prec, |digits|)) + digits
  }

  /** Places behind the point: at most nine are computed, the others are zeros. */
  function PlacesText(frac: nat, prec: nat): string {
    FractionText(frac, Min(prec, 9)) + Repeat('0', Excess(prec, 9))
  }

  /** `r` in decimal, with `prec` places. */
  function DecimalText(r: Fixed, prec: nat): string {
    Numeral(r.whole, 10, SCRATCH, false) + ("." + PlacesText(r.frac, prec))
  }

  // ---------- the printed digits

  /** The digits of a fraction below `10^prec`. */
  lemma FractionDigits(frac: nat, prec: nat, limit: nat)
    requires 1 <= prec <= 9 && frac < Scale(prec) && prec <= limit
    ensures |Numeral(frac, 10, SCRATCH, false)| <= prec
    ensures Numeral(frac, 10, limit, false) == Numeral(frac, 10, SCRATCH, false)
    ensures Value(Numeral(frac, 10, SCRATCH, false), 10) == frac
  {
    NumeralFits(frac, 10, prec, SCRATCH, false);
    NumeralFits(frac, 10, prec, limit, false);
    NumeralDenotes(frac, 10, SCRATCH, false);
    PowMonotone(prec, SCRATCH);
    hide Numeral, Pow;
    RemainderUnique(frac, Pow(10, SCRATCH), 0, frac);
  }

  lemma PlacesLeft(prec: nat, digits: nat)
    requires digits <= prec <= 9
    ensures (prec - digits) % TWO_32 == prec - digits
  {}

  lemma FractionValue(frac: nat, prec: nat)
    requires 1 <= prec <= 9 && frac < Scale(prec)
    ensures |FractionText(frac, prec)| == prec && Value(FractionText(frac, prec), 10) == frac
  {
    hide Numeral, Scale, Value;
    FractionDigits(frac, prec, SCRATCH);
    var digits := Numeral(frac, 10, SCRATCH, false);
    LeadingZeros(prec - |digits|, digits, 10);
  }

  lemma FillInFront(digits: string, tail: string, n: nat)
    requires n + |digits| + |tail| <= SCRATCH
    ensures PrependZeros(n, digits + tail) == Repeat('0', n) + digits + tail
  {
    assert Repeat('0', n) + (digits + tail) == Repeat('0', n) + digits + tail;
  }

  /** The fraction and the point, when there is room for both in front of `tail`. */
  lemma FractionShape(frac: nat, prec: nat, tail: string)
    requires 1 <= prec <= 9 && frac < Scale(prec) && prec + |tail| < SCRATCH
    ensures PrependFraction(frac, prec, tail) == "." + (FractionText(frac, prec) + tail)
  {
    hide Numeral, Scale, Repeat, PrependZeros;
    FractionDigits(frac, prec, Room(tail));
    var digits := Numeral(frac, 10, SCRATCH, false);
    assert PrependNumeral(frac, tail) == digits + tail;
    hide PrependNumeral;
    PlacesLeft(prec, |digits|);
    FillInFront(digits, tail, prec - |digits|);
  }

  lemma {:induction false} PowMonotone(m: nat, n: nat)
    requires m <= n
    ensures Pow(10, m) <= Pow(10, n)
    decreases n
  {
    if m != n {
      PowMonotone(m, n - 1);
    }
  }

  lemma WholeBound(v: real, prec: nat)
    requires 0.0 <= v <= MAX_FLOAT
    ensures Round(v, prec).whole < Pow(10, 10)
  {
    PowFour(10);
    PowDouble(10, 4, 10000);
    assert Pow(10, 10) == 10 * (10 * Pow(10, 8));
    ScaledFractionBounds(v, prec);
    hide Pow, ScaledFraction, Scale;
  }

  lemma FixedFields(v: real, prec: nat)
    requires 0.0 <= v && 1 <= prec
    ensures var r := Round(v, Min(prec, 9));
      FixedText(v, prec) == PrependNumeral(r.whole, PrependFraction(r.frac, Min(prec, 9), Repeat('0', Excess(prec, 9))))
  {
    hide Round, PrependNumeral, PrependFraction;
  }

  /** The whole part is printed in full when its digits fit. */
  lemma WholeShape(n: nat, s: string)
    requires |Numeral(n, 10, SCRATCH, false)| + |s| <= SCRATCH
    ensures PrependNumeral(n, s) == Numeral(n, 10, SCRATCH, false) + s
  {
    var room := Room(s);
    hide Numeral;
    if n < Pow(10, room) {
      NumeralFits(n, 10, room, SCRATCH, false);
    } else if room < SCRATCH {
      NumeralIsLong(n, 10, room, SCRATCH, false);
    } else {
      assert SCRATCH == room;
    }
  }

  lemma FixedLength(v: real, prec: nat)
    requires 0.0 <= v && prec <= 41
    ensures |FixedText(v, prec)| <= SCRATCH
  {
    hide Round, Numeral;
  }

  lemma ScaleIs(prec: nat)
    ensures Scale(prec) == Pow(10, prec)
  {}

  lemma DecimalLength(r: Fixed, prec: nat)
    requires 1 <= prec && r.frac < Scale(Min(prec, 9))
    ensures |DecimalText(r, prec)| == |Numeral(r.whole, 10, SCRATCH, false)| + 1 + prec
  {
    hide Numeral, Scale, FractionText;
    FractionValue(r.frac, Min(prec, 9));
  }

  /**
   Away from the topmost tie of the places that are computed, the whole part, the point, these
   places and zeros for all others are printed if and only if they fit into the scratch buffer.
   */
  lemma FixedShape(v: real, prec: nat)
    requires 0.0 <= v && 1 <= prec <= 41 && !IsTopTie(v, Min(prec, 9))
    ensures var r := Round(v, Min(prec, 9));
      && IsNearest(r, v, Min(prec, 9))
      && |FractionText(r.frac, Min(prec, 9))| == Min(prec, 9) && Value(FractionText(r.frac, Min(prec, 9)), 10) == r.frac
      && (FixedText(v, prec) == DecimalText(r, prec)
          <==> |Numeral(r.whole, 10, SCRATCH, false)| + 1 + prec <= SCRATCH)
  {
    hide Round, IsTopTie, Numeral, Scale, FractionText, FixedText, PrependNumeral, PrependFraction, Value, Repeat;
    var p := Min(prec, 9);
    var r := Round(v, p);
    RoundNearest(v, p);
    ScaleIs(p);
    FractionValue(r.frac, p);
    DecimalLength(r, prec);
    FixedLength(v, prec);
    if |Numeral(r.whole, 10, SCRATCH, false)| + 1 + prec <= SCRATCH {
      FixedFields(v, prec);
      FractionShape(r.frac, p, Repeat('0', Excess(prec, 9)));
      WholeShape(r.whole, "." + PlacesText(r.frac, prec));
    }
  }

  /** With at most nine places they always fit. */
  lemma ShortPrecision(v: real, prec: nat)
    requires 0.0 <= v <= MAX_FLOAT && 1 <= prec <= 9
    ensures |Numeral(Round(v, prec).whole, 10, SCRATCH, false)| <= 10
  {
    hide Round, Numeral, Pow;
    WholeBound(v, prec);
    NumeralFits(Round(v, prec).whole, 10, 10, SCRATCH, false);
  }

  /** Too many places leave no room: `%.31f` does not print 1.5. */
  lemma WholePartLost()
    ensures FixedText(1.5, 31) != DecimalText(Round(1.5, 9), 31)
  {
    hide Round, FixedText, DecimalText, Numeral;
    NotTopTie();
    FixedShape(1.5, 31);
  }

  lemma NotTopTie()
    ensures !IsTopTie(1.5, 9)
  {
    assert 1.5 * Pow(2, 1) as real == 3 as real;
    NoBinaryTopTie(1.5, 3, 1, 9);
  }

  // ---------- the topmost tie

  lemma TopTieFraction(prec: nat, tail: string)
    requires 1 <= prec <= 9 && |tail| <= SCRATCH && '.' !in tail
    ensures var t := PrependFraction(Scale(prec), prec, tail); |t| == SCRATCH && '.' !in t
  {
    hide Scale, Numeral, Pow, PrependZeros;
    var t := PrependNumeral(Scale(prec), tail);
    TopNumeral(prec, tail);
    hide PrependNumeral;
    if |t| == SCRATCH {
      NothingMore((prec - (|t| - |tail|)) % TWO_32, t);
    } else {
      assert (prec - (|t| - |tail|)) % TWO_32 == TWO_32 - 1;
      FilledUp(TWO_32 - 1, t);
    }
  }

  lemma NothingMore(n: nat, t: string)
    requires |t| == SCRATCH
    ensures PrependZeros(n, t) == t
  {}

  lemma FilledUp(n: nat, t: string)
    requires |t| <= SCRATCH <= n && '.' !in t
    ensures |PrependZeros(n, t)| == SCRATCH && '.' !in PrependZeros(n, t)
  {}

  /** `10^prec` has one digit too many, unless the buffer is full. */
  lemma TopNumeral(prec: nat, tail: string)
    requires 1 <= prec <= 9 && |tail| <= SCRATCH && '.' !in tail
    ensures var t := PrependNumeral(Scale(prec), tail);
      && '.' !in t && |tail| <= |t| <= SCRATCH && (|t| < SCRATCH ==> |t| - |tail| == prec + 1)
  {
    if |tail| < SCRATCH {
      NumeralIsNumeral(Scale(prec), 10, Room(tail), false);
      if prec < Room(tail) {
        TopDigits(prec, Room(tail));
      } else {
        hide Numeral;
        assert Scale(prec) == Pow(10, prec);
        TopDigitsCut(prec, Room(tail));
      }
    }
  }

  lemma {:induction false} TopDigits(prec: nat, limit: nat)
    requires prec < limit
    ensures |Numeral(Pow(10, prec), 10, limit, false)| == prec + 1
  {
    if prec != 0 {
      PowPositive(10, prec - 1);
      assert Pow(10, prec) / 10 == Pow(10, prec - 1);
      TopDigits(prec - 1, limit - 1);
    }
  }

  lemma {:induction false} TopDigitsCut(prec: nat, limit: nat)
    requires 1 <= limit <= prec
    ensures |Numeral(Pow(10, prec), 10, limit, false)| == limit
  {
    if limit != 1 {
      PowPositive(10, prec - 1);
      assert Pow(10, prec) / 10 == Pow(10, prec - 1);
      TopDigitsCut(prec - 1, limit - 1);
    }
  }

  lemma FullBuffer(n: nat, s: string)
    requires |s| == SCRATCH
    ensures PrependNumeral(n, s) == s
  {}

  /** On the topmost tie the carry is lost: digits and zeros fill the buffer, and there is no decimal point. */
  lemma TopTieText(v: real, prec: nat)
    requires 0.0 <= v && 1 <= prec <= 41 && IsTopTie(v, Min(prec, 9))
    ensures |FixedText(v, prec)| == SCRATCH && '.' !in FixedText(v, prec)
  {
    hide Round, IsTopTie, PrependFraction, PrependNumeral, Scale, FixedText, Numeral;
    var p := Min(prec, 9);
    var tail := Repeat('0', Excess(prec, 9));
    RoundNearest(v, p);
    TopTieFraction(p, tail);
    FixedFields(v, prec);
    FullBuffer(Round(v, p).whole, PrependFraction(Scale(p), p, tail));
  }

  /**
   `_ftoa` prints a nearest multiple of `10^-prec`, with the carry into the whole part, if and
   only if the value is not on the topmost tie of its places.
   */
  lemma FtoaFaithful(v: real, prec: nat)
    requires 0.0 <= v <= MAX_FLOAT && 1 <= prec <= 9
    ensures (exists r: Fixed :: IsNearest(r, v, prec) && FixedText(v, prec) == DecimalText(r, prec)) <==> !IsTopTie(v, prec)
  {
    hide Round, IsNearest, FixedText, IsTopTie, PlacesText;
    if IsTopTie(v, prec) {
      TopTieText(v, prec);
      forall r: Fixed ensures FixedText(v, prec) != DecimalText(r, prec) {
        assert '.' in DecimalText(r, prec);
      }
    } else {
      FixedShape(v, prec);
      ShortPrecision(v, prec);
      assert FixedText(v, prec) == DecimalText(Round(v, prec), prec);
    }
  }

  /** For example, 0.95 at one place comes out without a decimal point. */
  lemma CarryForgotten()
    ensures IsTopTie(0.95, 1) && '.' !in FixedText(0.95, 1)
  {
    hide FixedText, Round, IsTopTie;
    TopTieExample();
    TopTieText(0.95, 1);
  }

  /** Without places, the text is the rounded whole number. */
  lemma FtoaWhole(v: real)
    requires 0.0 <= v <= MAX_FLOAT
    ensures FixedText(v, 0) == Numeral(Round(v, 0).whole, 10, SCRATCH, false)
  {
    assert Repeat('0', 0) == "";
    WholeBound(v, 0);
    hide Numeral, Pow, Round;
    assert Numeral(Round(v, 0).whole, 10, SCRATCH, false) + "" == Numeral(Round(v, 0).whole, 10, SCRATCH, false);
  }

  /** Sign and padding go around the number as for integers. */
  lemma FtoaColumns(value: real, prec: nat, width: nat, flags: Flags)
    requires Precision(prec, flags) <= 41
    ensures var text := FixedText(Abs(value), Precision(prec, flags));
      var flags' := flags.(hash := false);
      && |text| <= SCRATCH
      && RenderFloat(value, prec, width, flags) ==
           Columns(text, if SignFits(|text|, value < 0.0, 0, width, flags') then SignText(value < 0.0, flags') else "",
                   0, DigitWidth(value < 0.0, width, flags'), flags')
  {
    FixedLength(Abs(value), Precision(prec, flags));
    hide FixedText, FormatDigits, Columns;
    FieldShape(FixedText(Abs(value), Precision(prec, flags)), value < 0.0, 10, 0, width, flags.(hash := false));
  }
}
