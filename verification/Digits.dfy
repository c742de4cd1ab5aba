/**
 Positional numerals as the integer conversions produce and read them
 (sw/device/lib/runtime/printf.c).
 */
module Digits {
  import opened Text

  predicate IsDigit(c: char) { '0' <= c <= '9' }

  function DigitChar(d: nat, upper: bool): char
    requires d < 16
  {
    if d < 10 then '0' + d as char else (if upper then 'A' else 'a') + (d - 10) as char
  }

  function DigitValue(c: char): nat {
    if '0' <= c <= '9' then (c - '0') as nat
    else if 'a' <= c <= 'f' then (c - 'a') as nat + 10
    else if 'A' <= c <= 'F' then (c - 'A') as nat + 10
    else 0
  }

  predicate IsNumeralChar(c: char) {
    '0' <= c <= '9' || 'a' <= c <= 'f' || 'A' <= c <= 'F'
  }

  /** The last `limit` digits of `v`, most significant first and without leading zeros beyond the limit. */
  function Numeral(v: nat, base: nat, limit: nat, upper: bool): (s: string)
    requires 2 <= base <= 16 && 1 <= limit
    ensures 1 <= |s| <= limit
    decreases limit
  {
    var last := [DigitChar(v % base, upper)];
    if v / base == 0 || limit == 1 then last else Numeral(v / base, base, limit - 1, upper) + last
  }

  /** The number a digit string denotes. */
  function Value(s: string, base: nat): nat {
    if s == "" then 0 else Value(s[..|s| - 1], base) * base + DigitValue(s[|s| - 1])
  }

  function Pow(base: nat, n: nat): nat {
    if n == 0 then 1 else base * Pow(base, n - 1)
  }

  lemma DigitCharValue(d: nat, upper: bool)
    requires d < 16
    ensures DigitValue(DigitChar(d, upper)) == d
    ensures IsNumeralChar(DigitChar(d, upper))
    ensures d < 10 ==> IsDigit(DigitChar(d, upper))
    ensures DigitChar(d, upper) == '0' <==> d == 0
  {}

  /** The digits, written out. */
  lemma DigitTable()
    ensures forall d: nat :: d < 16 ==> DigitChar(d, false) == "0123456789abcdef"[d] && DigitChar(d, true) == "0123456789ABCDEF"[d]
    ensures forall d: nat :: d < 16 ==> DigitValue("0123456789abcdef"[d]) == d && DigitValue("0123456789ABCDEF"[d]) == d
  {}

  lemma PowPositive(base: nat, n: nat)
    requires 0 < base
    ensures 0 < Pow(base, n)
  {
    if n != 0 {
      PowPositive(base, n - 1);
    }
  }

  lemma PowSum(base: nat, m: nat, n: nat)
    ensures Pow(base, m + n) == Pow(base, m) * Pow(base, n)
  {
    if m != 0 {
      PowSum(base, m - 1, n);
      MulAssociates(base, Pow(base, m - 1), Pow(base, n));
    }
  }

  lemma MulAssociates(a: int, b: int, c: int)
    ensures a * (b * c) == a * b * c
  {}

  lemma MulMonotone(a: int, b: int, n: int)
    requires a <= b && 0 <= n
    ensures a * n <= b * n
  {}

  lemma RemainderUnique(v: int, n: int, q: int, r: int)
    requires 0 < n && v == q * n + r && 0 <= r < n
    ensures v / n == q && v % n == r
  {
    var q' := v / n;
    if q < q' {
      MulMonotone(q + 1, q', n);
    } else if q' < q {
      MulMonotone(q' + 1, q, n);
    }
  }

  lemma MulStrictlyBounded(b: int, m: int, base: int, r: int)
    requires 0 <= b < m && 0 <= r < base
    ensures 0 <= b * base + r < base * m
  {
    MulMonotone(b + 1, m, base);
    MulMonotone(0, b, base);
  }

  lemma Regroup(a: int, m: int, b: int, base: int)
    ensures (a * m + b) * base == a * (base * m) + b * base
  {}

  /** Splitting one low digit off a remainder. */
  lemma ModSplit(v: nat, base: nat, m: nat)
    requires 0 < base && 0 < m
    ensures 0 < base * m
    ensures v % (base * m) == (v / base) % m * base + v % base
  {
    var q, r := v / base, v % base;
    var a, b := q / m, q % m;
    Regroup(a, m, b, base);
    MulStrictlyBounded(b, m, base, r);
    RemainderUnique(v, base * m, a, b * base + r);
  }

  lemma PowModSplit(v: nat, base: nat, n: nat)
    requires 0 < base && 1 <= n
    ensures 0 < Pow(base, n) && 0 < Pow(base, n - 1)
    ensures v % Pow(base, n) == (v / base) % Pow(base, n - 1) * base + v % base
  {
    PowPositive(base, n - 1);
    ModSplit(v, base, Pow(base, n - 1));
  }

  lemma LastDigit(v: nat, base: nat, n: nat)
    requires 0 < base && 1 <= n && (v / base == 0 || n == 1)
    ensures 0 < Pow(base, n) && v % Pow(base, n) == v % base
  {
    PowPositive(base, n - 1);
    if n == 1 {
      assert Pow(base, 1) == base;
    } else {
      MulMonotone(1, Pow(base, n - 1), base);
      RemainderUnique(v, base, 0, v);
      RemainderUnique(v, Pow(base, n), 0, v);
    }
  }

  lemma ValueSnoc(s: string, c: char, base: nat)
    ensures Value(s + [c], base) == Value(s, base) * base + DigitValue(c)
  {
    assert (s + [c])[..|s|] == s;
  }

  lemma NumeralStep(v: nat, base: nat, limit: nat, upper: bool)
    requires 2 <= base <= 16 && 1 < limit && 0 < v / base
    ensures Value(Numeral(v, base, limit, upper), base)
         == Value(Numeral(v / base, base, limit - 1, upper), base) * base + v % base
  {
    DigitCharValue(v % base, upper);
    ValueSnoc(Numeral(v / base, base, limit - 1, upper), DigitChar(v % base, upper), base);
  }

  lemma NumeralEnd(v: nat, base: nat, limit: nat, upper: bool)
    requires 2 <= base <= 16 && 1 <= limit && (v / base == 0 || limit == 1)
    ensures 0 < Pow(base, limit)
    ensures Value(Numeral(v, base, limit, upper), base) == v % Pow(base, limit)
  {
    DigitCharValue(v % base, upper);
    ValueSnoc("", DigitChar(v % base, upper), base);
    LastDigit(v, base, limit);
  }

  /** What the digit loop will have written, given the digits found so far. */
  function Remaining(v: nat, base: nat, limit: nat, upper: bool, tail: string): string
    requires 2 <= base <= 16
  {
    if v == 0 || limit == 0 then tail else Numeral(v, base, limit, upper) + tail
  }

  lemma FirstRound(v: nat, base: nat, limit: nat, upper: bool, tail: string)
    requires 2 <= base <= 16 && 1 <= limit
    ensures Numeral(v, base, limit, upper) + tail
         == Remaining(v / base, base, limit - 1, upper, [DigitChar(v % base, upper)] + tail)
  {}

  lemma NextRound(v: nat, base: nat, limit: nat, upper: bool, tail: string)
    requires 2 <= base <= 16 && v != 0 && limit != 0
    ensures Remaining(v, base, limit, upper, tail)
         == Remaining(v / base, base, limit - 1, upper, [DigitChar(v % base, upper)] + tail)
  {
    FirstRound(v, base, limit, upper, tail);
  }

  lemma NoRound(v: nat, base: nat, limit: nat, upper: bool, tail: string)
    requires 2 <= base <= 16 && (v == 0 || limit == 0)
    ensures Remaining(v, base, limit, upper, tail) == tail
  {}

  /** The digits stored by `_ntoa_long` denote the value modulo `base^limit`. */
  lemma {:induction false} NumeralDenotes(v: nat, base: nat, limit: nat, upper: bool)
    requires 2 <= base <= 16 && 1 <= limit
    ensures 0 < Pow(base, limit)
    ensures Value(Numeral(v, base, limit, upper), base) == v % Pow(base, limit)
    decreases limit
  {
    if v / base == 0 || limit == 1 {
      NumeralEnd(v, base, limit, upper);
    } else {
      NumeralDenotes(v / base, base, limit - 1, upper);
      NumeralStep(v, base, limit, upper);
      PowModSplit(v, base, limit);
    }
  }

  lemma PowDouble(base: nat, n: nat, p: nat)
    requires Pow(base, n) == p
    ensures Pow(base, 2 * n) == p * p
  {
    PowSum(base, n, n);
  }

  lemma PowFour(base: nat)
    ensures Pow(base, 4) == base * base * (base * base)
  {
    assert Pow(base, 1) == base;
    PowDouble(base, 1, base);
    PowDouble(base, 2, base * base);
  }

  lemma PowThirtyTwo(base: nat, p: nat)
    requires base * base * (base * base) == p
    ensures Pow(base, 32) == p * p * (p * p) * (p * p * (p * p))
  {
    PowFour(base);
    PowDouble(base, 4, p);
    PowDouble(base, 8, p * p);
    PowDouble(base, 16, p * p * (p * p));
  }

  lemma PowStep(base: nat, n: nat, p: nat)
    requires 0 < base && Pow(base, n + 1) == base * p
    ensures Pow(base, n) == p
  {
    var q := Pow(base, n);
    assert base * q == base * p;
    if q < p {
      MulMonotone(q + 1, p, base);
    } else if p < q {
      MulMonotone(p + 1, q, base);
    }
  }

  lemma OctalCapacity()
    ensures Pow(8, 31) >= TWO_64 && Pow(8, 32) >= TWO_64
  {
    PowThirtyTwo(8, 4096);
    PowStep(8, 31, 0x2000_0000_0000_0000_0000_0000);
  }

  lemma DecimalCapacity()
    ensures Pow(10, 31) >= TWO_64 && Pow(10, 32) >= TWO_64
  {
    PowThirtyTwo(10, 10000);
    PowStep(10, 31, 1_0000_0000_0000_0000_0000_0000_0000_000);
  }

  lemma HexCapacity()
    ensures Pow(16, 31) >= TWO_64 && Pow(16, 32) >= TWO_64
  {
    PowThirtyTwo(16, 65536);
    PowStep(16, 31, 0x1000_0000_0000_0000_0000_0000_0000_0000);
  }

  /** 31 digits are enough for every 64-bit value, except in base 2. */
  lemma ScratchCapacity31(base: nat)
    requires base in {8, 10, 16}
    ensures Pow(base, 31) >= TWO_64 && Pow(base, 32) >= TWO_64
  {
    hide Pow;
    OctalCapacity();
    DecimalCapacity();
    HexCapacity();
  }

  lemma ScratchExact(v: nat, base: nat)
    requires base in {8, 10, 16} && v < TWO_64
    ensures 0 < Pow(base, 32) && v % Pow(base, 32) == v
  {
    ScratchCapacity31(base);
    RemainderUnique(v, Pow(base, 32), 0, v);
  }

  lemma ScratchCapacityBinary()
    ensures Pow(2, 32) == TWO_32
  {
    PowThirtyTwo(2, 16);
  }
}
