/**
 What holds of whole formats: directives are read back from their printed form, and formats
 can be split anywhere between directives (sw/device/lib/runtime/printf.c:174-178, 510-789).
 */
module FormatLaws {
  import opened Text
  import opened Digits
  import opened Directives
  import opened Rendering
  import opened IntegerLaws

  // ---------- flags

  /** Each flag bit is set exactly when its character occurs. */
  lemma {:induction false} FlagsOfMeaning(s: string)
    ensures var f := FlagsOf(s);
      && (f.zeropad <==> '0' in s) && (f.left <==> '-' in s) && (f.plus <==> '+' in s)
      && (f.space <==> ' ' in s) && (f.hash <==> '#' in s)
      && !f.upper && !f.precision && f.length == NoLength
  {
    hide AddFlag;
    if s != "" {
      var t := s[..|s| - 1];
      FlagsOfMeaning(t);
      AddFlagMeaning(FlagsOf(t), s[|s| - 1]);
      assert s == t + [s[|s| - 1]];
    }
  }

  lemma AddFlagMeaning(flags: Flags, c: char)
    ensures AddFlag(flags, c) == flags.(
      zeropad := flags.zeropad || c == '0', left := flags.left || c == '-', plus := flags.plus || c == '+',
      space := flags.space || c == ' ', hash := flags.hash || c == '#')
  {}

  // ---------- decimal fields

  predicate AllDecimal(s: string) { forall i :: 0 <= i < |s| ==> IsDigit(s[i]) }

  lemma AddMultiple(x: int, k: int, m: nat)
    requires 0 < m
    ensures (x + k * m) % m == x % m
  {
    var q, r := x / m, x % m;
    assert x + k * m == (q + k) * m + r;
    RemainderUnique(x + k * m, m, q + k, r);
  }

  lemma AtoiStep(v: nat, d: nat)
    ensures (v % TWO_32 * 10 + d) % TWO_32 == (v * 10 + d) % TWO_32
  {
    var q, r := v / TWO_32, v % TWO_32;
    assert v * 10 + d == (r * 10 + d) + (10 * q) * TWO_32;
    AddMultiple(r * 10 + d, 10 * q, TWO_32);
  }

  /** `_atoi` computes the denoted number modulo 2^32. */
  lemma {:induction false} AtoiDenotes(s: string)
    ensures Atoi(s) == Value(s, 10) % TWO_32
  {
    if s != "" {
      AtoiDenotes(s[..|s| - 1]);
      AtoiStep(Value(s[..|s| - 1], 10), DigitValue(s[|s| - 1]));
    }
  }

  lemma {:induction false} NumeralIsDecimal(v: nat, limit: nat)
    requires 1 <= limit
    ensures AllDecimal(Numeral(v, 10, limit, false))
    decreases limit
  {
    DigitCharValue(v % 10, false);
    if v / 10 != 0 && limit != 1 {
      NumeralIsDecimal(v / 10, limit - 1);
    }
  }

  /** `_atoi` inverts the decimal rendering of every `unsigned int`. */
  lemma AtoiInvertsNumeral(n: uint32)
    ensures Atoi(Numeral(n, 10, SCRATCH, false)) == n
  {
    hide Numeral, Pow, Value, Atoi;
    NumeralDenotes(n, 10, SCRATCH, false);
    ScratchExact(n, 10);
    AtoiDenotes(Numeral(n, 10, SCRATCH, false));
  }

  // ---------- runs

  lemma {:induction false} FlagRunOf(s: string, t: string)
    requires (forall i :: 0 <= i < |s| ==> IsFlag(s[i])) && !IsFlag(At(t, 0))
    ensures FlagRun(s + t) == |s|
  {
    if s == "" {
      assert s + t == t;
    } else {
      assert (s + t)[1..] == s[1..] + t;
      FlagRunOf(s[1..], t);
    }
  }

  lemma {:induction false} DigitRunOf(s: string, t: string)
    requires AllDecimal(s) && !IsDigit(At(t, 0))
    ensures DigitRun(s + t) == |s|
  {
    if s == "" {
      assert s + t == t;
    } else {
      assert (s + t)[1..] == s[1..] + t;
      DigitRunOf(s[1..], t);
    }
  }

  lemma {:induction false} FlagRunStable(s: string, t: string)
    requires FlagRun(s) < |s|
    ensures FlagRun(s + t) == FlagRun(s)
  {
    assert (s + t)[0] == s[0] && (s + t)[1..] == s[1..] + t;
    if IsFlag(s[0]) {
      FlagRunStable(s[1..], t);
    }
  }

  lemma {:induction false} DigitRunStable(s: string, t: string)
    requires DigitRun(s) < |s|
    ensures DigitRun(s + t) == DigitRun(s)
  {
    assert (s + t)[0] == s[0] && (s + t)[1..] == s[1..] + t;
    if IsDigit(s[0]) {
      DigitRunStable(s[1..], t);
    }
  }

  // ---------- what follows a complete directive does not change it

  lemma CountStable(s: string, t: string)
    requires ParseCount(s).1 < |s|
    ensures ParseCount(s + t) == ParseCount(s)
  {
    if IsDigit(At(s, 0)) {
      DigitRunStable(s, t);
      assert (s + t)[..DigitRun(s)] == s[..DigitRun(s)];
    }
  }

  lemma PrecisionStable(s: string, t: string)
    requires ParsePrecision(s).2 < |s|
    ensures ParsePrecision(s + t) == ParsePrecision(s)
  {
    if At(s, 0) == '.' {
      assert (s + t)[1..] == s[1..] + t;
      CountStable(s[1..], t);
    }
  }

  lemma LengthStable(s: string, t: string)
    requires ParseLength(s).1 < |s|
    ensures ParseLength(s + t) == ParseLength(s)
  {}

  lemma DirectiveStable(s: string, t: string)
    requires ParseDirective(s).1 < |s|
    ensures ParseDirective(s + t) == ParseDirective(s)
  {
    hide FlagRun, FlagsOf, ParseCount, ParsePrecision, ParseLength;
    var a := FlagRun(s);
    FlagRunStable(s, t);
    assert (s + t)[a..] == s[a..] + t && (s + t)[..a] == s[..a];
    var b := ParseCount(s[a..]).1;
    CountStable(s[a..], t);
    assert (s + t)[a + b..] == s[a + b..] + t;
    var c := ParsePrecision(s[a + b..]).2;
    PrecisionStable(s[a + b..], t);
    assert (s + t)[a + b + c..] == s[a + b + c..] + t;
    LengthStable(s[a + b + c..], t);
  }

  lemma PlainFirst(s: string, t: string)
    requires s != "" && s[0] != '%'
    ensures Pieces(s) == [Plain(s[0])] + Pieces(s[1..])
    ensures Pieces(s + t) == [Plain(s[0])] + Pieces(s[1..] + t)
  {
    assert (s + t)[1..] == s[1..] + t;
  }

  lemma WholeFirst(s: string)
    requires s != "" && s[0] == '%' && AllComplete(Pieces(s))
    ensures var (d, n) := ParseDirective(s[1..]);
      n + 2 <= |s| && Pieces(s) == [Convert(d)] + Pieces(s[n + 2..])
  {
    hide ParseDirective;
    assert IsComplete(Pieces(s)[0]);
  }

  lemma DirectiveFirst(s: string, t: string)
    requires s != "" && s[0] == '%' && AllComplete(Pieces(s))
    ensures var (d, n) := ParseDirective(s[1..]);
      && n + 2 <= |s| && Pieces(s) == [Convert(d)] + Pieces(s[n + 2..])
      && Pieces(s + t) == [Convert(d)] + Pieces(s[n + 2..] + t)
  {
    hide ParseDirective, AllComplete;
    WholeFirst(s);
    var n := ParseDirective(s[1..]).1;
    DirectiveStable(s[1..], t);
    assert (s + t)[1..] == s[1..] + t;
    assert (s + t)[n + 2..] == s[n + 2..] + t;
  }

  /** The first piece of a format, alone and with more text behind it. */
  lemma FirstPiece(s: string, t: string) returns (k: nat)
    requires s != "" && AllComplete(Pieces(s))
    ensures 0 < k <= |s| && AllComplete(Pieces(s[k..]))
    ensures Pieces(s) == [Pieces(s)[0]] + Pieces(s[k..])
    ensures Pieces(s + t) == [Pieces(s)[0]] + Pieces(s[k..] + t)
  {
    hide ParseDirective, AllComplete, Pieces;
    if s[0] != '%' {
      k := 1;
      PlainFirst(s, t);
    } else {
      DirectiveFirst(s, t);
      k := ParseDirective(s[1..]).1 + 2;
    }
    AllCompleteTail(Pieces(s)[0], Pieces(s[k..]));
  }

  lemma {:induction false} PiecesConcat(s: string, t: string)
    requires AllComplete(Pieces(s))
    ensures Pieces(s + t) == Pieces(s) + Pieces(t)
    decreases |s|
  {
    if s == "" {
      assert s + t == t;
    } else {
      hide ParseDirective, AllComplete, Pieces;
      var k := FirstPiece(s, t);
      PiecesConcat(s[k..], t);
      Associates(Pieces(s)[0], Pieces(s[k..]), Pieces(t));
    }
  }

  lemma Associates(piece: Piece, s: seq<Piece>, t: seq<Piece>)
    ensures [piece] + (s + t) == [piece] + s + t
  {}

  lemma AllCompleteTail(piece: Piece, rest: seq<Piece>)
    requires AllComplete([piece] + rest)
    ensures AllComplete(rest)
  {
    forall i | 0 <= i < |rest| ensures IsComplete(rest[i]) {
      assert ([piece] + rest)[i + 1] == rest[i];
    }
  }

  lemma {:induction false} KindsConcat(ps: seq<Piece>, qs: seq<Piece>)
    ensures Kinds(ps + qs) == Kinds(ps) + Kinds(qs)
  {
    if ps == [] {
      assert ps + qs == qs;
    } else {
      assert (ps + qs)[1..] == ps[1..] + qs;
      KindsConcat(ps[1..], qs);
    }
  }

  lemma SuppliesJoin(a: seq<Argument>, b: seq<Argument>, first: seq<Kind>, rest: seq<Kind>)
    requires |a| == |first| && Supplies(a, first) && Supplies(b, rest)
    ensures Supplies(a + b, first + rest)
  {}

  /** A conversion looks only at its own arguments. */
  lemma PieceLocal(piece: Piece, a: seq<Argument>, b: seq<Argument>)
    requires IsComplete(piece) && Supplies(a, PieceKinds(piece))
    ensures Supplies(a + b, PieceKinds(piece))
    ensures RenderPiece(piece, a + b) == RenderPiece(piece, a)
  {
    hide RenderConversion, EvalWidth, EvalPrecision, CountKinds, ConversionKinds;
    if piece.Convert? {
      var d := piece.d;
      var i := |CountKinds(d.width)|;
      var j := i + |CountKinds(d.precision)|;
      DirectiveSupplies(d, a);
      DirectiveSupplies(d, a + b);
      assert (a + b)[i..] == a[i..] + b && (a + b)[j..] == a[j..] + b;
      ConversionLocal(d, a[j..], b);
      CountLocal(d, a, a[i..], b);
    }
  }

  lemma CountLocal(d: Directive, a: seq<Argument>, a': seq<Argument>, b: seq<Argument>)
    requires Supplies(a, CountKinds(d.width)) && Supplies(a', CountKinds(d.precision))
    ensures Supplies(a + b, CountKinds(d.width)) && Supplies(a' + b, CountKinds(d.precision))
    ensures EvalWidth(d.width, d.flags, a + b) == EvalWidth(d.width, d.flags, a)
    ensures EvalPrecision(d.precision, a' + b) == EvalPrecision(d.precision, a')
  {
    assert a != [] ==> (a + b)[0] == a[0];
    assert a' != [] ==> (a' + b)[0] == a'[0];
  }

  lemma ConversionLocal(d: Directive, a: seq<Argument>, b: seq<Argument>)
    requires IsWhole(d) && Supplies(a, ConversionKinds(d))
    ensures Supplies(a + b, ConversionKinds(d))
    ensures forall prec: nat, width: nat, flags: Flags :: IsWide(flags) == IsWide(d.flags) ==>
      RenderConversion(d, prec, width, flags, a + b) == RenderConversion(d, prec, width, flags, a)
  {
    hide RenderInteger, RenderChar, RenderText, RenderAddress, RenderFloat;
    assert a != [] ==> (a + b)[0] == a[0];
  }

  lemma {:induction false} RenderConcat(ps: seq<Piece>, qs: seq<Piece>, a: seq<Argument>, b: seq<Argument>)
    requires AllComplete(ps) && AllComplete(qs)
    requires |a| == |Kinds(ps)| && Supplies(a, Kinds(ps)) && Supplies(b, Kinds(qs))
    ensures AllComplete(ps + qs) && Supplies(a + b, Kinds(ps + qs))
    ensures Render(ps + qs, a + b) == Render(ps, a) + Render(qs, b)
  {
    hide RenderPiece, PieceKinds;
    KindsConcat(ps, qs);
    SuppliesJoin(a, b, Kinds(ps), Kinds(qs));
    if ps == [] {
      assert ps + qs == qs && a + b == b;
    } else {
      assert (ps + qs)[1..] == ps[1..] + qs && (ps + qs)[0] == ps[0];
      var k := |PieceKinds(ps[0])|;
      SuppliesSplit(a, PieceKinds(ps[0]), Kinds(ps[1..]));
      assert (a + b)[k..] == a[k..] + b;
      PieceLocal(ps[0], a, b);
      RenderConcat(ps[1..], qs, a[k..], b);
    }
  }

  /**
   Formatting is a homomorphism: two complete formats with their argument lists joined print
   the first text followed by the second.
   */
  lemma FormatConcat(s: string, t: string, a: seq<Argument>, b: seq<Argument>)
    requires AllComplete(Pieces(s)) && AllComplete(Pieces(t))
    requires |a| == |Kinds(Pieces(s))| && Supplies(a, Kinds(Pieces(s))) && Supplies(b, Kinds(Pieces(t)))
    ensures AllComplete(Pieces(s + t)) && Supplies(a + b, Kinds(Pieces(s + t)))
    ensures Render(Pieces(s + t), a + b) == Render(Pieces(s), a) + Render(Pieces(t), b)
  {
    hide Render, Kinds, Supplies, IsComplete;
    PiecesConcat(s, t);
    RenderConcat(Pieces(s), Pieces(t), a, b);
  }

  /** The range of a conversion depends only on its own arguments. */
  lemma RangeLocal(piece: Piece, a: seq<Argument>, b: seq<Argument>)
    requires Supplies(a, PieceKinds(piece))
    ensures Supplies(a + b, PieceKinds(piece)) && PieceInRange(piece, a + b) == PieceInRange(piece, a)
  {
    hide EvalWidth, EvalPrecision, CountKinds, FloatInRange;
    if piece.Convert? {
      var d := piece.d;
      var i := |CountKinds(d.width)|;
      var j := i + |CountKinds(d.precision)|;
      DirectiveSupplies(d, a);
      DirectiveSupplies(d, a + b);
      assert (a + b)[i..] == a[i..] + b;
      CountLocal(d, a, a[i..], b);
      assert j < |a| ==> (a + b)[j] == a[j];
    }
  }

  lemma {:induction false} RangeConcat(ps: seq<Piece>, qs: seq<Piece>, a: seq<Argument>, b: seq<Argument>)
    requires |a| == |Kinds(ps)| && Supplies(a, Kinds(ps)) && Supplies(b, Kinds(qs))
    requires AllInRange(ps, a) && AllInRange(qs, b)
    ensures Supplies(a + b, Kinds(ps + qs)) && AllInRange(ps + qs, a + b)
  {
    hide PieceInRange, PieceKinds;
    KindsConcat(ps, qs);
    SuppliesJoin(a, b, Kinds(ps), Kinds(qs));
    if ps == [] {
      assert ps + qs == qs && a + b == b;
    } else {
      assert (ps + qs)[1..] == ps[1..] + qs && (ps + qs)[0] == ps[0];
      var k := |PieceKinds(ps[0])|;
      SuppliesSplit(a, PieceKinds(ps[0]), Kinds(ps[1..]));
      assert (a + b)[k..] == a[k..] + b;
      RangeLocal(ps[0], a, b);
      RangeConcat(ps[1..], qs, a[k..], b);
    }
  }

  /** What can be printed separately can be printed together. */
  lemma PrintableConcat(s: string, t: string, a: seq<Argument>, b: seq<Argument>)
    requires Printable(s, a) && Printable(t, b) && |a| == |Kinds(Pieces(s))|
    ensures Printable(s + t, a + b)
  {
    hide AllInRange, Kinds, Supplies, IsComplete;
    PiecesConcat(s, t);
    RangeConcat(Pieces(s), Pieces(t), a, b);
  }

  // ---------- widths and precisions from the arguments

  lemma SameConversion(d: Directive, d': Directive, prec: nat, width: nat, flags: Flags, args: seq<Argument>)
    requires IsWhole(d) && d'.conversion == d.conversion && IsWide(d'.flags) == IsWide(d.flags) == IsWide(flags)
    requires Supplies(args, ConversionKinds(d))
    ensures ConversionKinds(d') == ConversionKinds(d)
    ensures RenderConversion(d', prec, width, flags, args) == RenderConversion(d, prec, width, flags, args)
  {}

  lemma RenderParts(d: Directive, args: seq<Argument>, flags: Flags, width: uint32, rest: seq<Argument>, tail: seq<Argument>)
    requires IsWhole(d) && Supplies(args, DirectiveKinds(d)) && Supplies(args, CountKinds(d.width))
    requires EvalWidth(d.width, d.flags, args) == (flags, width) && IsWide(flags) == IsWide(d.flags)
    requires |CountKinds(d.width)| + |CountKinds(d.precision)| <= |args|
    requires rest == args[|CountKinds(d.width)|..]
    requires tail == args[|CountKinds(d.width)| + |CountKinds(d.precision)|..]
    ensures Supplies(rest, CountKinds(d.precision)) && Supplies(tail, ConversionKinds(d))
    ensures RenderDirective(d, args) == RenderConversion(d, EvalPrecision(d.precision, rest), width, flags, tail)
  {
    hide RenderConversion, EvalPrecision, EvalWidth, Supplies, CountKinds, ConversionKinds;
    DirectiveSupplies(d, args);
  }

  lemma StarValue(w: uint32, rest: seq<Argument>, flags: Flags)
    ensures var value := Signed(w, TWO_32);
      && Magnitude(value) < TWO_32 && Supplies([Word32(w)], [Kind32]) && Supplies([Word32(w)] + rest, CountKinds(Star))
      && EvalWidth(Star, flags, [Word32(w)] + rest) == (flags.(left := flags.left || value < 0), Magnitude(value))
      && IsWide(flags.(left := flags.left || value < 0)) == IsWide(flags)
  {}

  /** A `*` width prints like a written one, and a negative one like a written one under `-`. */
  lemma StarWidth(d: Directive, w: uint32, rest: seq<Argument>)
    requires IsWhole(d) && d.width == Star && Supplies(rest, CountKinds(d.precision) + ConversionKinds(d))
    ensures var value := Signed(w, TWO_32);
      var written := d.(width := Literal(Magnitude(value)), flags := d.flags.(left := d.flags.left || value < 0));
      && Supplies([Word32(w)] + rest, DirectiveKinds(d)) && Supplies(rest, DirectiveKinds(written))
      && RenderDirective(d, [Word32(w)] + rest) == RenderDirective(written, rest)
  {
    hide RenderDirective, RenderConversion, EvalPrecision, Signed, ConversionKinds, IsWide, EvalWidth, Supplies,
      CountKinds, DirectiveKinds;
    StarValue(w, rest, d.flags);
    var value := Signed(w, TWO_32);
    var flags := d.flags.(left := d.flags.left || value < 0);
    var written := d.(width := Literal(Magnitude(value)), flags := flags);
    var args := [Word32(w)] + rest;
    var k := |CountKinds(d.precision)|;
    SuppliesSplit(rest, CountKinds(d.precision), ConversionKinds(d));
    CountSupplied(d, rest);
    SuppliesJoin([Word32(w)], rest, [Kind32], CountKinds(d.precision) + ConversionKinds(d));
    SameConversion(d, written, EvalPrecision(d.precision, rest), Magnitude(value), flags, rest[k..]);
    WidthKinds(d);
    WidthKinds(written);
    BehindFirst(Word32(w), rest, k);
    WrittenWidth(written, rest);
    RenderParts(d, args, flags, Magnitude(value), rest, rest[k..]);
    RenderParts(written, rest, flags, Magnitude(value), rest, rest[k..]);
  }

  lemma WidthKinds(d: Directive)
    ensures d.width.Star? ==>
      |CountKinds(d.width)| == 1 && DirectiveKinds(d) == [Kind32] + (CountKinds(d.precision) + ConversionKinds(d))
    ensures d.width.Literal? ==> CountKinds(d.width) == [] && DirectiveKinds(d) == CountKinds(d.precision) + ConversionKinds(d)
  {
    hide ConversionKinds;
  }

  lemma CountSupplied(d: Directive, rest: seq<Argument>)
    requires Supplies(rest, CountKinds(d.precision) + ConversionKinds(d))
    ensures |CountKinds(d.precision)| <= |rest|
  {}

  lemma BehindFirst(a: Argument, rest: seq<Argument>, k: nat)
    requires k <= |rest|
    ensures var args := [a] + rest; |args| == 1 + |rest| && args[1..] == rest && args[1 + k..] == rest[k..] && rest[0..] == rest
  {}

  lemma WrittenWidth(d: Directive, args: seq<Argument>)
    requires d.width.Literal?
    ensures Supplies(args, CountKinds(d.width)) && EvalWidth(d.width, d.flags, args) == (d.flags, d.width.n)
  {}

  lemma WidthOfFront(width: Count, flags: Flags, front: seq<Argument>, rest: seq<Argument>)
    requires |front| == |CountKinds(width)| && Supplies(front, CountKinds(width))
    ensures Supplies(front + rest, CountKinds(width))
    ensures EvalWidth(width, flags, front + rest) == EvalWidth(width, flags, front)
    ensures IsWide(EvalWidth(width, flags, front).0) == IsWide(flags)
  {
    assert front != [] ==> (front + rest)[0] == front[0];
  }

  lemma PrecisionValue(p: uint32, rest: seq<Argument>)
    ensures var value := Max(Signed(p, TWO_32), 0);
      && 0 <= value < TWO_32 && Supplies([Word32(p)] + rest, CountKinds(Star)) && Supplies([Word32(p)], CountKinds(Star))
      && Supplies(rest, CountKinds(Literal(value)))
      && EvalPrecision(Star, [Word32(p)] + rest) == EvalPrecision(Literal(value), rest)
    ensures |CountKinds(Star)| == 1
    ensures forall n: uint32 :: CountKinds(Literal(n)) == []
  {}

  /**
   A `*` precision prints like a written one, and a negative one like a written 0; `front` is the
   argument of a `*` width, if there is one.
   */
  lemma StarPrecision(d: Directive, p: uint32, front: seq<Argument>, rest: seq<Argument>)
    requires IsWhole(d) && d.precision == Star && Supplies(rest, ConversionKinds(d))
    requires |front| == |CountKinds(d.width)| && Supplies(front, CountKinds(d.width))
    ensures var written := d.(precision := Literal(Max(Signed(p, TWO_32), 0)));
      && Supplies(front + ([Word32(p)] + rest), DirectiveKinds(d)) && Supplies(front + rest, DirectiveKinds(written))
      && RenderDirective(d, front + ([Word32(p)] + rest)) == RenderDirective(written, front + rest)
  {
    hide RenderDirective, RenderConversion, EvalPrecision, Signed, ConversionKinds, IsWide, EvalWidth, Supplies, CountKinds;
    PrecisionValue(p, rest);
    var written := d.(precision := Literal(Max(Signed(p, TWO_32), 0)));
    var behind := [Word32(p)] + rest;
    var (flags, width) := EvalWidth(d.width, d.flags, front);
    WidthOfFront(d.width, d.flags, front, behind);
    WidthOfFront(d.width, d.flags, front, rest);
    SuppliesJoin([Word32(p)], rest, CountKinds(Star), ConversionKinds(d));
    SuppliesJoin(front, behind, CountKinds(d.width), CountKinds(Star) + ConversionKinds(d));
    SuppliesJoin(front, rest, CountKinds(d.width), ConversionKinds(d));
    PrecisionKinds(d);
    PrecisionKinds(written);
    SameConversion(d, written, EvalPrecision(Star, behind), width, flags, rest);
    BehindFront(front, Word32(p), rest);
    RenderParts(d, front + behind, flags, width, behind, rest);
    RenderParts(written, front + rest, flags, width, rest, rest);
  }

  lemma PrecisionKinds(d: Directive)
    ensures DirectiveKinds(d) == CountKinds(d.width) + (CountKinds(d.precision) + ConversionKinds(d))
    ensures d.precision.Literal? ==> DirectiveKinds(d) == CountKinds(d.width) + ConversionKinds(d)
  {
    hide ConversionKinds;
  }

  lemma BehindFront(front: seq<Argument>, a: Argument, rest: seq<Argument>)
    ensures (front + ([a] + rest))[|front|..] == [a] + rest && (front + ([a] + rest))[|front| + 1..] == rest
    ensures (front + rest)[|front|..] == rest
  {}

  // ---------- the grammar of directives, on characters

  /** A directive without its `%`, as it is spelled. */
  datatype Spelling = Spelling(flags: string, width: string, precision: string, length: string, conversion: char)

  predicate IsNumber(s: string) { s != "" && forall i :: 0 <= i < |s| ==> '0' <= s[i] <= '9' }

  /**
   Flag characters in any order and number; a width that is a number without a leading 0, or `*`;
   behind a dot a number, `*` or nothing; a length modifier; and a character that is none of these.
   */
  predicate WellFormed(t: Spelling) {
    && (forall i :: 0 <= i < |t.flags| ==> t.flags[i] in {'0', '-', '+', ' ', '#'})
    && (t.width == "" || t.width == "*" || (IsNumber(t.width) && t.width[0] != '0'))
    && (t.precision == "" ||
        (t.precision[0] == '.' && (t.precision[1..] == "" || t.precision[1..] == "*" || IsNumber(t.precision[1..]))))
    && t.length in {"", "l", "ll", "h", "hh", "t", "j", "z"}
    && t.conversion !in {'\0', '0', '1', '2', '3', '4', '5', '6', '7', '8', '9', '-', '+', ' ', '#', '*', '.', 'l', 'h', 't', 'j', 'z'}
  }

  function Written(t: Spelling): string { t.flags + t.width + t.precision + t.length + [t.conversion] }

  /** What a field stands for; numbers wrap around at 2^32. */
  function CountOf(s: string): Count {
    if s == "" then Absent else if s == "*" then Star else Literal(Value(s, 10) % 0x1_0000_0000)
  }

  function LengthOf(s: string): Length {
    if s == "ll" then LL else if s == "hh" then HH else if s == "h" then H else if s == "" then NoLength else L
  }

  function DirectiveOf(t: Spelling): Directive {
    Directive(
      Flags('0' in t.flags, '-' in t.flags, '+' in t.flags, ' ' in t.flags, '#' in t.flags, false, t.precision != "",
            LengthOf(t.length)),
      CountOf(t.width), if t.precision == "" then Absent else CountOf(t.precision[1..]), t.conversion)
  }

  lemma CountInverts(s: string, t: string)
    requires s == "" || s == "*" || IsNumber(s)
    requires !IsDigit(At(t, 0)) && (s == "" ==> At(t, 0) != '*')
    ensures ParseCount(s + t) == (CountOf(s), |s|)
  {
    if s == "" {
      assert s + t == t;
    } else if s == "*" {
      assert At(s + t, 0) == '*';
    } else {
      DigitRunOf(s, t);
      assert (s + t)[..|s|] == s && (s + t)[0] == s[0];
      AtoiDenotes(s);
    }
  }

  lemma LengthInverts(t: Spelling, rest: string)
    requires WellFormed(t)
    ensures var l := t.length + [t.conversion] + rest;
      && ParseLength(l) == (LengthOf(t.length), |t.length|)
      && !IsDigit(At(l, 0)) && At(l, 0) != '*' && At(l, 0) != '.' && !IsFlag(At(l, 0))
  {
    assert "" + [t.conversion] + rest == [t.conversion] + rest;
  }

  lemma PrecisionInverts(p: string, t: string)
    requires p == "" || (p[0] == '.' && (p[1..] == "" || p[1..] == "*" || IsNumber(p[1..])))
    requires !IsDigit(At(t, 0)) && At(t, 0) != '*' && At(t, 0) != '.'
    ensures ParsePrecision(p + t) == (p != "", if p == "" then Absent else CountOf(p[1..]), |p|)
  {
    hide ParseCount, IsDigit, IsNumber, CountOf;
    if p == "" {
      assert p + t == t;
    } else {
      assert p + t == "." + (p[1..] + t) && (p + t)[1..] == p[1..] + t;
      CountInverts(p[1..], t);
    }
  }

  /** The fields of a directive, from the last to the first. */
  lemma Slices(f: string, w: string, p: string, l: string)
    ensures var s := f + (w + (p + l));
      && s[..|f|] == f && s[|f|..] == w + (p + l) && s[|f| + |w|..] == p + l && s[|f| + |w| + |p|..] == l
  {
    Behind(f, w + (p + l), 0);
    Behind(f, w + (p + l), |w|);
    Behind(f, w + (p + l), |w| + |p|);
    Behind(w, p + l, 0);
    Behind(w, p + l, |p|);
    Behind(p, l, 0);
  }

  lemma Behind(s: string, t: string, k: nat)
    requires k <= |t|
    ensures (s + t)[|s| + k..] == t[k..] && (s + t)[..|s|] == s && t[0..] == t
  {}

  /** No field starts with a character that would extend the one before it. */
  lemma FieldStarts(w: string, p: string, l: string)
    requires w == "" || w == "*" || (IsNumber(w) && w[0] != '0')
    requires !IsFlag(At(l, 0)) && !IsDigit(At(l, 0)) && At(l, 0) != '*'
    requires p == "" || p[0] == '.'
    ensures !IsDigit(At(p + l, 0)) && At(p + l, 0) != '*'
    ensures !IsFlag(At(w + (p + l), 0))
  {
    assert p == "" ==> p + l == l;
    assert w == "" ==> w + (p + l) == p + l;
    assert w != "" ==> (w + (p + l))[0] == w[0];
  }

  /** A directive is parsed field by field. */
  lemma ParseFields(s: string, a: nat, b: nat, c: nat, d: nat, width: Count, dot: bool, precision: Count, length: Length)
    requires a + b + c <= |s|
    requires FlagRun(s) == a && ParseCount(s[a..]) == (width, b)
    requires ParsePrecision(s[a + b..]) == (dot, precision, c) && ParseLength(s[a + b + c..]) == (length, d)
    ensures ParseDirective(s)
         == (Directive(FlagsOf(s[..a]).(precision := dot, length := length), width, precision, At(s, a + b + c + d)),
             a + b + c + d)
  {
    hide FlagRun, FlagsOf, ParseCount, ParsePrecision, ParseLength, At;
  }

  /** Every field parser stops where the next field starts. */
  lemma FieldsInvert(t: Spelling, rest: string)
    requires WellFormed(t)
    ensures var l := t.length + [t.conversion] + rest;
      && FlagRun(t.flags + (t.width + (t.precision + l))) == |t.flags|
      && ParseCount(t.width + (t.precision + l)) == (CountOf(t.width), |t.width|)
      && ParsePrecision(t.precision + l)
         == (t.precision != "", if t.precision == "" then Absent else CountOf(t.precision[1..]), |t.precision|)
      && ParseLength(l) == (LengthOf(t.length), |t.length|)
  {
    FlagCharacters(t.flags);
    hide ParseLength, ParseCount, ParsePrecision, FlagRun, IsFlag, IsDigit, IsNumber, CountOf, LengthOf;
    var l := t.length + [t.conversion] + rest;
    LengthInverts(t, rest);
    PrecisionInverts(t.precision, l);
    FieldStarts(t.width, t.precision, l);
    CountInverts(t.width, t.precision + l);
    FlagRunOf(t.flags, t.width + (t.precision + l));
  }

  lemma FlagCharacters(flags: string)
    requires forall i :: 0 <= i < |flags| ==> flags[i] in {'0', '-', '+', ' ', '#'}
    ensures forall i :: 0 <= i < |flags| ==> IsFlag(flags[i])
  {}

  /**
   Every well-formed directive is read as it is spelled: flag bits by their characters, numbers by
   their decimal value, all length modifiers, and nothing of the format behind it.
   */
  lemma DirectiveGrammar(t: Spelling, rest: string)
    requires WellFormed(t)
    ensures ParseDirective(Written(t) + rest) == (DirectiveOf(t), |Written(t)| - 1)
  {
    hide FlagsOf, ParseLength, ParseCount, ParsePrecision, ParseDirective, FlagRun, WellFormed, CountOf, LengthOf;
    var l := t.length + [t.conversion] + rest;
    FieldsInvert(t, rest);
    Slices(t.flags, t.width, t.precision, l);
    ParseFields(t.flags + (t.width + (t.precision + l)), |t.flags|, |t.width|, |t.precision|, |t.length|, CountOf(t.width),
                t.precision != "", if t.precision == "" then Absent else CountOf(t.precision[1..]), LengthOf(t.length));
    FlagsOfMeaning(t.flags);
    WrittenFields(t, rest);
  }

  lemma WrittenFields(t: Spelling, rest: string)
    ensures Written(t) + rest == t.flags + (t.width + (t.precision + (t.length + [t.conversion] + rest)))
    ensures |Written(t)| - 1 == |t.flags| + |t.width| + |t.precision| + |t.length|
    ensures At(Written(t) + rest, |Written(t)| - 1) == t.conversion
  {}

  // ---------- printing a directive

  function CountText(c: Count): string {
    match c
    case Absent => ""
    case Literal(n) => Numeral(n, 10, SCRATCH, false)
    case Star => "*"
  }

  function LengthText(length: Length): string {
    match length
    case NoLength => ""
    case L => "l"
    case LL => "ll"
    case H => "h"
    case HH => "hh"
  }

  /** A directive as the file's own decimal rendering would spell it. */
  function Spell(flags: string, width: Count, dot: bool, precision: Count, length: Length, conversion: char): Spelling {
    Spelling(flags, CountText(width), if dot then "." + CountText(precision) else "", LengthText(length), conversion)
  }

  lemma CountSpelled(c: Count)
    ensures CountText(c) == "" || CountText(c) == "*" || IsNumber(CountText(c))
    ensures c.Literal? && c.n != 0 ==> IsNumber(CountText(c)) && CountText(c)[0] != '0'
    ensures CountOf(CountText(c)) == c
  {
    if c.Literal? {
      NumeralIsDecimal(c.n, SCRATCH);
      ScratchExact(c.n, 10);
      NumeralDenotes(c.n, 10, SCRATCH, false);
      if c.n != 0 { NumeralStart(c.n); }
    }
  }

  lemma NumeralStart(n: uint32)
    requires n != 0
    ensures Numeral(n, 10, SCRATCH, false)[0] != '0'
  {
    ScratchCapacity31(10);
    NumeralLeads(n, 10, SCRATCH, false);
  }

  /**
   The parser inverts the printer: whatever the flag characters, a width that is not a written
   zero, any precision and any length modifier come back, and the rest of the format is untouched.
   */
  lemma DirectiveInverts(flags: string, width: Count, dot: bool, precision: Count, length: Length, conversion: char,
                         rest: string)
    requires forall i :: 0 <= i < |flags| ==> flags[i] in {'0', '-', '+', ' ', '#'}
    requires width != Literal(0) && conversion != '\0' && conversion !in "0-+ #123456789*.lhtjz"
    ensures var text := Written(Spell(flags, width, dot, precision, length, conversion));
      ParseDirective(text + rest)
        == (Directive(FlagsOf(flags).(precision := dot, length := length), width, if dot then precision else Absent, conversion),
            |text| - 1)
  {
    hide FlagsOf, ParseDirective, CountText, CountOf, IsNumber, Numeral;
    var t := Spell(flags, width, dot, precision, length, conversion);
    CountSpelled(width);
    CountSpelled(precision);
    AbsentText(width);
    assert dot ==> t.precision[1..] == CountText(precision);
    assert WellFormed(t);
    hide WellFormed;
    DirectiveGrammar(t, rest);
    FlagsOfMeaning(flags);
  }

  lemma AbsentText(c: Count)
    ensures c.Absent? ==> CountText(c) == ""
    ensures c.Star? ==> CountText(c) == "*"
  {}

  // ---------- whole formats of one directive

  /** A format that is one well-formed directive. */
  function Format(t: Spelling): string { "%" + Written(t) }

  lemma OnePiece(t: Spelling)
    requires WellFormed(t)
    ensures Pieces(Format(t)) == [Convert(DirectiveOf(t))]
  {
    hide ParseDirective, WellFormed, DirectiveOf;
    DirectiveGrammar(t, "");
    assert Written(t) + "" == Written(t);
    var fmt := Format(t);
    assert fmt[1..] == Written(t) && fmt[|fmt|..] == "";
  }

  /** Such a format takes the arguments of its directive and prints its text. */
  lemma OneDirective(d: Directive, args: seq<Argument>)
    requires IsWhole(d)
    ensures AllComplete([Convert(d)]) && Kinds([Convert(d)]) == DirectiveKinds(d)
    ensures Supplies(args, DirectiveKinds(d)) ==>
      Render([Convert(d)], args) == RenderDirective(d, args) && AllInRange([Convert(d)], args) == DirectiveInRange(d, args)
  {
    hide RenderDirective, DirectiveKinds, DirectiveInRange, IsWhole;
    assert DirectiveKinds(d) + [] == DirectiveKinds(d) && Kinds([]) == [];
    if Supplies(args, DirectiveKinds(d)) {
      assert RenderDirective(d, args) + "" == RenderDirective(d, args);
    }
  }
}
