/**
 What formats print, said on their characters: plain text, and one directive of every kind
 (sw/device/lib/runtime/printf.c:519-781). With `FormatLaws.FormatConcat` this covers whole formats.
 */
module PrintfLaws {
  import opened Text
  import opened Digits
  import opened Directives
  import opened Rounding
  import opened Rendering
  import opened IntegerLaws
  import opened FormatLaws
  import opened FtoaLaws

  // ---------- plain text

  /** Text without `%` takes no arguments and prints as it is. */
  lemma {:induction false} PlainText(s: string)
    requires '%' !in s
    ensures Printable(s, []) && Kinds(Pieces(s)) == []
    ensures Render(Pieces(s), []) == s
    decreases |s|
  {
    if s != "" {
      var rest := s[1..];
      PlainText(rest);
      assert Pieces(s)[1..] == Pieces(rest) && Pieces(s)[0] == Plain(s[0]);
      var none: seq<Argument> := [];
      assert none[0..] == [];
      PlainComplete(s[0], Pieces(rest));
    }
  }

  lemma PlainComplete(c: char, rest: seq<Piece>)
    requires AllComplete(rest)
    ensures AllComplete([Plain(c)] + rest)
  {}

  // ---------- the layout of a field

  function Spaces(n: int): string { seq(if n < 0 then 0 else n, _ => ' ') }

  function Zeros(n: int): string { seq(if n < 0 then 0 else n, _ => '0') }

  /**
   A number in its columns, with at most 32 characters of zeros and digits: `target` is the number of
   digits asked for, `zero` asks for zeros up to the width. The sign is there if it is the 32nd
   character at the latest.
   */
  function Field(digits: string, sign: string, target: int, width: int, left: bool, zero: bool): string {
    var wanted := if left then 0 else if zero && target < width - |sign| then width - |sign| else target;
    var padded := Zeros((if wanted < 32 then wanted else 32) - |digits|) + digits;
    var body := (if |padded| < 32 then sign else "") + padded;
    if left then body + Spaces(width - |body|) else if zero then body else Spaces(width - |body|) + body
  }

  function SignOf(negative: bool, plus: bool, space: bool): string {
    if negative then "-" else if plus then "+" else if space then " " else ""
  }

  lemma ZeroFillIs(digits: string, prec: nat, width: nat, flags: Flags)
    requires |digits| <= 32
    ensures PadZeros(digits, prec, width, flags) ==
      Zeros((if flags.left then 0
             else var wanted := if flags.zeropad && prec < width then width else prec; if wanted < 32 then wanted else 32)
            - |digits|) + digits
  {
    ZerosShape(digits, prec, width, flags);
  }

  lemma JustifyIs(body: string, width: nat, flags: Flags)
    ensures Justify(body, width, flags) ==
      if flags.left then body + Spaces(width - |body|) else if flags.zeropad then body else Spaces(width - |body|) + body
  {}

  lemma SignIs(s: string, negative: bool, flags: Flags)
    ensures AddSign(s, negative, flags) == (if |s| < 32 then SignOf(negative, flags.plus, flags.space) else "") + s
  {
    SignShape(s, negative, flags);
  }

  /** `_ntoa_format` without `#`, for every precision and width. */
  lemma FieldIs(digits: string, negative: bool, base: nat, prec: nat, width: nat, flags: Flags)
    requires !flags.hash && |digits| <= 32
    ensures FormatDigits(digits, negative, base, prec, width, flags)
         == Field(digits, SignOf(negative, flags.plus, flags.space), prec, width, flags.left, flags.zeropad)
  {
    hide PadZeros, AddSign, Justify, Zeros, Spaces;
    var w := DigitWidth(negative, width, flags);
    ZeroFillIs(digits, prec, w, flags);
    SignIs(PadZeros(digits, prec, w, flags), negative, flags);
    JustifyIs(AddSign(PadZeros(digits, prec, w, flags), negative, flags), w, flags);
  }

  // ---------- directives without `*`

  predicate Unstarred(t: Spelling) { t.width != "*" && t.precision != ".*" }

  function WidthOf(t: Spelling): nat { if t.width == "" then 0 else Value(t.width, 10) % 0x1_0000_0000 }

  function PrecisionOf(t: Spelling): nat {
    if |t.precision| <= 1 then 0 else Value(t.precision[1..], 10) % 0x1_0000_0000
  }

  lemma Evaluated(t: Spelling, args: seq<Argument>)
    requires WellFormed(t) && Unstarred(t)
    ensures var d := DirectiveOf(t);
      && CountKinds(d.width) == CountKinds(d.precision) == [] && DirectiveKinds(d) == ConversionKinds(d)
      && Supplies(args, CountKinds(d.width)) && Supplies(args, CountKinds(d.precision))
      && EvalWidth(d.width, d.flags, args) == (d.flags, WidthOf(t))
      && EvalPrecision(d.precision, args) == PrecisionOf(t)
  {
    hide Value, IsNumber;
    if t.precision != "" { assert t.precision == [t.precision[0]] + t.precision[1..]; }
  }

  /** Such a directive renders from its own fields. */
  lemma WrittenOut(t: Spelling, args: seq<Argument>)
    requires WellFormed(t) && Unstarred(t) && t.conversion !in {'e', 'E', 'g', 'G'}
    requires Supplies(args, ConversionKinds(DirectiveOf(t)))
    ensures var d := DirectiveOf(t);
      && IsWhole(d) && AllComplete(Pieces(Format(t))) && Supplies(args, Kinds(Pieces(Format(t))))
      && Kinds(Pieces(Format(t))) == ConversionKinds(d)
      && Render(Pieces(Format(t)), args) == RenderConversion(d, PrecisionOf(t), WidthOf(t), d.flags, args)
      && (AllInRange(Pieces(Format(t)), args) <==>
            (IsFloatConversion(d.conversion) ==>
               |args| > 0 && args[0].Double? && FloatInRange(args[0].value, PrecisionOf(t), d.flags)))
  {
    hide Render, AllInRange, Pieces, Format, EvalWidth, EvalPrecision, RenderConversion, FloatInRange, CountOf, LengthOf, AllComplete,
      WellFormed, DirectiveOf, WidthOf, PrecisionOf, ConversionKinds, Unstarred, Kinds, Supplies, DirectiveKinds, CountKinds,
      DirectiveInRange, RenderDirective, IsWhole;
    WholeIs(t);
    OnePiece(t);
    Evaluated(t, args);
    OneDirective(DirectiveOf(t), args);
    FieldsOnly(DirectiveOf(t), args, PrecisionOf(t), WidthOf(t));
  }

  lemma WholeIs(t: Spelling)
    requires WellFormed(t) && t.conversion !in {'e', 'E', 'g', 'G'}
    ensures IsWhole(DirectiveOf(t))
  {}

  lemma FieldsOnly(d: Directive, args: seq<Argument>, prec: nat, width: nat)
    requires IsWhole(d) && Supplies(args, ConversionKinds(d))
    requires CountKinds(d.width) == CountKinds(d.precision) == [] && DirectiveKinds(d) == ConversionKinds(d)
    requires Supplies(args, CountKinds(d.width)) && Supplies(args, CountKinds(d.precision))
    requires EvalWidth(d.width, d.flags, args) == (d.flags, width) && EvalPrecision(d.precision, args) == prec
    ensures Supplies(args, DirectiveKinds(d))
    ensures RenderDirective(d, args) == RenderConversion(d, prec, width, d.flags, args)
    ensures IsFloatConversion(d.conversion) ==> |args| > 0 && args[0].Double?
    ensures DirectiveInRange(d, args) <==> (IsFloatConversion(d.conversion) ==> FloatInRange(args[0].value, prec, d.flags))
  {
    hide RenderConversion, EvalWidth, EvalPrecision, CountKinds, FloatInRange;
    assert args[0..] == args;
  }

  // ---------- integers

  /** The number an argument stands for: its low bits, in two's complement if `signed`. */
  function Number(arg: Argument, length: string, signed: bool): int {
    var bits := if arg.Word32? then arg.u32 else if arg.Word64? then arg.u64 else 0;
    var modulus := if length == "hh" then 0x100 else if length == "h" then 0x1_0000 else if length == "" then 0x1_0000_0000
      else 0x1_0000_0000_0000_0000;
    var low := bits % modulus;
    // plain `char` has no sign
    if signed && length != "hh" && modulus <= 2 * low then low - modulus else low
  }

  function Radix(conversion: char): (base: nat)
    ensures 2 <= base <= 16
  {
    if conversion in {'x', 'X'} then 16 else if conversion == 'o' then 8 else if conversion == 'b' then 2 else 10
  }

  predicate TakesInteger(t: Spelling, arg: Argument) {
    && WellFormed(t) && Unstarred(t) && t.conversion in {'d', 'i', 'u', 'x', 'X', 'o', 'b'}
    && if t.length in {"l", "ll", "t", "j", "z"} then arg.Word64? else arg.Word32?
  }

  lemma NumberIs(t: Spelling, arg: Argument)
    requires TakesInteger(t, arg)
    ensures var f := DirectiveOf(t).flags;
      && KindOf(arg) == (if IsWide(f) then Kind64 else Kind32)
      && IntegerValue(arg, t.conversion, f) == Number(arg, t.length, t.conversion in {'d', 'i'})
  {
    hide DirectiveOf, IntegerValue, Number;
    LengthIs(t);
    NumberOf(arg, t.length, t.conversion, DirectiveOf(t).flags);
  }

  lemma LengthIs(t: Spelling)
    requires WellFormed(t)
    ensures DirectiveOf(t).flags.length == LengthOf(t.length) && t.length in {"", "l", "ll", "h", "hh", "t", "j", "z"}
  {
    hide CountOf, LengthOf, IsNumber;
  }

  lemma NumberOf(arg: Argument, length: string, conversion: char, flags: Flags)
    requires flags.length == LengthOf(length) && length in {"", "l", "ll", "h", "hh", "t", "j", "z"}
    requires if length in {"l", "ll", "t", "j", "z"} then arg.Word64? else arg.Word32?
    ensures KindOf(arg) == (if IsWide(flags) then Kind64 else Kind32)
    ensures IntegerValue(arg, conversion, flags) == Number(arg, length, conversion in {'d', 'i'})
  {}

  lemma FlagsAre(t: Spelling)
    requires WellFormed(t) && t.conversion in {'d', 'i', 'u', 'x', 'X', 'o', 'b'}
    ensures var f := IntegerFlags(DirectiveOf(t).flags, t.conversion);
      && f.left == ('-' in t.flags) && f.zeropad == ('0' in t.flags && t.precision == "") && f.precision == (t.precision != "")
      && f.plus == ('+' in t.flags && t.conversion in {'d', 'i'}) && f.space == (' ' in t.flags && t.conversion in {'d', 'i'})
      && f.upper == (t.conversion == 'X') && f.hash == ('#' in t.flags && t.conversion !in {'d', 'i', 'u'})
    ensures Base(t.conversion) == Radix(t.conversion)
  {
    hide CountOf, LengthOf;
  }

  lemma IntegerParts(t: Spelling, arg: Argument)
    requires TakesInteger(t, arg)
    ensures Printable(Format(t), [arg])
    ensures var value := Number(arg, t.length, t.conversion in {'d', 'i'});
      var f := IntegerFlags(DirectiveOf(t).flags, t.conversion);
      Render(Pieces(Format(t)), [arg])
        == FormatInteger(Magnitude(value), value < 0, Radix(t.conversion), PrecisionOf(t), WidthOf(t), f)
  {
    hide FormatInteger, IntegerFlags, IntegerValue, Number, Printable, Format, Pieces, WidthOf, PrecisionOf, IsWide, Base;
    NumberIs(t, arg);
    FlagsAre(t);
    assert IsIntegerConversion(DirectiveOf(t).conversion);
    hide DirectiveOf;
    OneKind(arg, DirectiveOf(t));
    WrittenOut(t, [arg]);
    PrintableIs(Format(t), [arg]);
  }

  lemma OneKind(arg: Argument, d: Directive)
    requires IsIntegerConversion(d.conversion) && KindOf(arg) == if IsWide(d.flags) then Kind64 else Kind32
    ensures Supplies([arg], ConversionKinds(d))
  {}

  lemma PrintableIs(fmt: string, args: seq<Argument>)
    ensures Printable(fmt, args) <==> AllComplete(Pieces(fmt)) && Supplies(args, Kinds(Pieces(fmt))) && AllInRange(Pieces(fmt), args)
  {}

  /**
   The text of an integer directive without `#`: digits in the base and case of the conversion, a
   sign for signed conversions, and its field. A precision switches `0` off and drops the digits of 0.
   */
  lemma IntegerText(t: Spelling, arg: Argument)
    requires TakesInteger(t, arg) && ('#' !in t.flags || t.conversion in {'d', 'i', 'u'})
    ensures Printable(Format(t), [arg])
    ensures var value := Number(arg, t.length, t.conversion in {'d', 'i'});
      var digits := if value == 0 && t.precision != "" then ""
                    else Numeral(if value < 0 then -value else value, Radix(t.conversion), 32, t.conversion == 'X');
      var signed := t.conversion in {'d', 'i'};
      Render(Pieces(Format(t)), [arg])
        == Field(digits, SignOf(value < 0, signed && '+' in t.flags, signed && ' ' in t.flags), PrecisionOf(t), WidthOf(t),
                 '-' in t.flags, '0' in t.flags && t.precision == "")
  {
    hide Render, Field, FormatDigits, Numeral, Printable, Format, Pieces, WidthOf, PrecisionOf, Number, IntegerFlags, DirectiveOf,
      WellFormed, Radix;
    var value := Number(arg, t.length, t.conversion in {'d', 'i'});
    var f := IntegerFlags(DirectiveOf(t).flags, t.conversion);
    IntegerParts(t, arg);
    FlagsAre(t);
    assert !f.hash && f.(hash := false) == f;
    var digits := ConversionDigits(Magnitude(value), Radix(t.conversion), f);
    FieldIs(digits, value < 0, Radix(t.conversion), PrecisionOf(t), WidthOf(t), f);
  }

  /**
   From the characters of the format to the number that a reader finds in the output: an integer
   directive with any flags except `#`, any width, precision and length modifier prints its argument
   exactly, if and only if the value is not negative or zero fill leaves a column for the sign.
   */
  lemma IntegerFormat(t: Spelling, arg: Argument)
    requires TakesInteger(t, arg) && t.conversion != 'b' && ('#' !in t.flags || t.conversion in {'d', 'i', 'u'})
    ensures Printable(Format(t), [arg])
    ensures var value := Number(arg, t.length, t.conversion in {'d', 'i'});
      var base := if t.conversion in {'x', 'X'} then 16 else if t.conversion == 'o' then 8 else 10;
      ReadInteger(Render(Pieces(Format(t)), [arg]), base) == value
      <==> (value < 0 ==>
              '-' in t.flags || (PrecisionOf(t) < 32 && ('0' in t.flags && t.precision == "" ==> WidthOf(t) <= 32)))
  {
    hide FormatInteger, Printable, Format, Pieces, WidthOf, PrecisionOf, Number, IntegerFlags, DirectiveOf, ReadInteger, WellFormed,
      Render;
    NumberBound(arg, t.length, t.conversion in {'d', 'i'});
    var value := Number(arg, t.length, t.conversion in {'d', 'i'});
    IntegerParts(t, arg);
    FlagsAre(t);
    NumberReadsBack(Magnitude(value), value < 0, Radix(t.conversion), PrecisionOf(t), WidthOf(t),
                    IntegerFlags(DirectiveOf(t).flags, t.conversion));
  }

  lemma NumberBound(arg: Argument, length: string, signed: bool)
    ensures Magnitude(Number(arg, length, signed)) < TWO_64
  {}

  // ---------- the `#` prefix

  /** The prefix and all digits, when no width and no precision interfere. */
  lemma PrefixText(t: Spelling, arg: Argument)
    requires TakesInteger(t, arg) && '#' in t.flags && t.conversion in {'x', 'X', 'o', 'b'}
    requires t.width == "" && t.precision == ""
    requires |Numeral(Number(arg, t.length, false), Radix(t.conversion), 32, t.conversion == 'X')| <= 30
    ensures Printable(Format(t), [arg])
    ensures var value := Number(arg, t.length, false);
      var digits := Numeral(value, Radix(t.conversion), 32, t.conversion == 'X');
      var prefix := if t.conversion == 'x' then "0x" else if t.conversion == 'X' then "0X" else if t.conversion == 'o' then "0" else "0b";
      Render(Pieces(Format(t)), [arg]) == if value == 0 then "0" else prefix + digits
  {
    hide Render, FormatDigits, Numeral, Printable, Format, Pieces, Number, IntegerFlags, DirectiveOf, WellFormed, Radix;
    NotNegative(arg, t.length);
    var value: nat := Number(arg, t.length, false);
    var f := IntegerFlags(DirectiveOf(t).flags, t.conversion);
    IntegerParts(t, arg);
    FlagsAre(t);
    RadixIs(t.conversion);
    var digits := Numeral(value, Radix(t.conversion), 32, t.conversion == 'X');
    if value == 0 {
      NumeralOfZero(Radix(t.conversion), 32, t.conversion == 'X');
      ZeroAlone(Radix(t.conversion), f.(hash := false));
    } else {
      Prefixed(digits, Radix(t.conversion), f);
    }
  }

  lemma NotNegative(arg: Argument, length: string)
    ensures 0 <= Number(arg, length, false)
  {}

  lemma RadixIs(conversion: char)
    requires conversion in {'x', 'X', 'o', 'b'}
    ensures Radix(conversion) == if conversion in {'x', 'X'} then 16 else if conversion == 'o' then 8 else 2
  {}

  lemma ZeroAlone(base: nat, flags: Flags)
    requires !flags.hash && !flags.plus && !flags.space
    ensures FormatDigits("0", false, base, 0, 0, flags) == "0"
  {
    hide FormatDigits;
    FieldIs("0", false, base, 0, 0, flags);
    assert Zeros(-1) == "" && Spaces(-1) == "";
    assert "" + ("" + "0") == "0";
  }

  lemma Prefixed(digits: string, base: nat, flags: Flags)
    requires base in {2, 8, 16} && 1 <= |digits| <= 30
    requires flags.hash && !flags.plus && !flags.space && !flags.precision
    ensures FormatDigits(digits, false, base, 0, 0, flags)
         == (if base == 16 then (if flags.upper then "0X" else "0x") else if base == 8 then "0" else "0b") + digits
  {
    hide PadZeros, GiveUp, BasePrefix, Justify, Spaces, AddPrefix;
    NothingToFill(digits, flags);
    NothingGivenUp(digits, base, flags);
    PrefixOf(digits, base, flags.upper);
    var body := BasePrefix(digits, base, flags.upper);
    WithPrefix(digits, base, flags);
    JustifyIs(body, 0, flags);
    NoSpaces(body);
  }

  lemma NothingToFill(digits: string, flags: Flags)
    ensures DigitWidth(false, 0, flags) == 0 && PadZeros(digits, 0, 0, flags) == digits
  {
    assert ZeroFill(digits, 0) == digits;
  }

  lemma NothingGivenUp(digits: string, base: nat, flags: Flags)
    requires digits != ""
    ensures GiveUp(digits, base, 0, 0, flags) == digits
  {}

  lemma PrefixOf(digits: string, base: nat, upper: bool)
    requires base in {2, 8, 16} && |digits| <= 30
    ensures BasePrefix(digits, base, upper)
         == (if base == 16 then (if upper then "0X" else "0x") else if base == 8 then "0" else "0b") + digits
  {}

  lemma WithPrefix(digits: string, base: nat, flags: Flags)
    requires flags.hash
    ensures AddPrefix(digits, base, 0, 0, flags) == BasePrefix(GiveUp(digits, base, 0, 0, flags), base, flags.upper)
  {}

  lemma NoSpaces(body: string)
    ensures body + Spaces(-|body|) == body && Spaces(-|body|) + body == body
  {}

  /** `HashLaw` on formats. */
  lemma HashFormat(t: Spelling, arg: Argument)
    requires TakesInteger(t, arg) && '#' in t.flags && t.conversion in {'x', 'X', 'o', 'b'}
    requires Number(arg, t.length, false) != 0
    ensures Printable(Format(t), [arg])
    ensures var base := if t.conversion in {'x', 'X'} then 16 else if t.conversion == 'o' then 8 else 2;
      var digits := Numeral(Number(arg, t.length, false), base, 64, t.conversion == 'X');
      var n := |digits|;
      ShowsDigits(Render(Pieces(Format(t)), [arg]), digits)
      <==> n <= 32 && (t.precision != "" ||
                       (WidthOf(t) != n
                        && !(base == 16 && '0' in t.flags && '-' !in t.flags && WidthOf(t) == n + 1 <= 32)))
  {
    hide Render, FormatInteger, Numeral, Printable, Format, Pieces, Number, IntegerFlags, DirectiveOf, WellFormed, Radix, ShowsDigits,
      WidthOf, PrecisionOf;
    NotNegative(arg, t.length);
    var value: nat := Number(arg, t.length, false);
    var f := IntegerFlags(DirectiveOf(t).flags, t.conversion);
    IntegerParts(t, arg);
    FlagsAre(t);
    RadixIs(t.conversion);
    NoPrecision(t);
    HashNumber(value, Radix(t.conversion), PrecisionOf(t), WidthOf(t), f);
  }

  lemma NoPrecision(t: Spelling)
    ensures t.precision == "" ==> PrecisionOf(t) == 0
  {}

  // ---------- characters, strings and addresses

  lemma FlagBits(t: Spelling)
    ensures var d := DirectiveOf(t);
      && d.conversion == t.conversion && !d.flags.upper
      && d.flags.zeropad == ('0' in t.flags) && d.flags.left == ('-' in t.flags) && d.flags.plus == ('+' in t.flags)
      && d.flags.space == (' ' in t.flags) && d.flags.hash == ('#' in t.flags) && d.flags.precision == (t.precision != "")
  {
    hide CountOf, LengthOf;
  }

  /** What the conversions other than integers do with their argument. */
  lemma OtherArguments(d: Directive, prec: nat, width: nat, u: uint32, text: cstring, address: uint64, value: real)
    requires IsWhole(d)
    ensures d.conversion == 'c' ==>
      Supplies([Word32(u)], ConversionKinds(d))
      && RenderConversion(d, prec, width, d.flags, [Word32(u)]) == RenderChar(u, width, d.flags)
    ensures d.conversion == 's' ==>
      Supplies([Argument.Text(text)], ConversionKinds(d))
      && RenderConversion(d, prec, width, d.flags, [Argument.Text(text)]) == RenderText(text, prec, width, d.flags)
    ensures d.conversion == 'p' ==>
      Supplies([Word64(address)], ConversionKinds(d))
      && RenderConversion(d, prec, width, d.flags, [Word64(address)]) == RenderAddress(address, prec, d.flags)
    ensures d.conversion == 'f' || d.conversion == 'F' ==>
      Supplies([Double(value)], ConversionKinds(d))
      && RenderConversion(d, prec, width, d.flags, [Double(value)])
         == RenderFloat(value, prec, width, if d.conversion == 'F' then d.flags.(upper := true) else d.flags)
  {
    hide RenderChar, RenderText, RenderAddress, RenderFloat, RenderInteger;
  }

  /** `%c` prints the low byte of its argument, and spaces up to the width. */
  lemma CharFormat(t: Spelling, u: uint32)
    requires WellFormed(t) && Unstarred(t) && t.conversion == 'c'
    ensures Printable(Format(t), [Word32(u)])
    ensures var c := (u % 256) as char;
      Render(Pieces(Format(t)), [Word32(u)])
        == if '-' in t.flags then [c] + Spaces(WidthOf(t) - 1) else Spaces(WidthOf(t) - 1) + [c]
  {
    hide Printable, Format, Pieces, WidthOf, PrecisionOf, Render, RenderConversion, DirectiveOf, ConversionKinds, Supplies, WellFormed;
    FlagBits(t);
    WholeIs(t);
    OtherArguments(DirectiveOf(t), PrecisionOf(t), WidthOf(t), u, "", 0, 0.0);
    WrittenOut(t, [Word32(u)]);
    PrintableIs(Format(t), [Word32(u)]);
  }

  /** `%s` prints the front of the string that the precision allows, and spaces up to the width. */
  lemma TextFormat(t: Spelling, text: cstring)
    requires WellFormed(t) && Unstarred(t) && t.conversion == 's'
    ensures Printable(Format(t), [Argument.Text(text)])
    ensures var n := if t.precision != "" && PrecisionOf(t) < |text| then PrecisionOf(t) else |text|;
      var padding := Spaces(WidthOf(t) - n % 0x1_0000_0000);
      Render(Pieces(Format(t)), [Argument.Text(text)]) == if '-' in t.flags then text[..n] + padding else padding + text[..n]
  {
    hide Printable, Format, Pieces, WidthOf, Render, RenderText, PrecisionOf, WellFormed, RenderConversion, DirectiveOf, ConversionKinds,
      Supplies, Spaces;
    NoPrecision(t);
    FlagBits(t);
    WholeIs(t);
    var d := DirectiveOf(t);
    OtherArguments(d, PrecisionOf(t), WidthOf(t), 0, text, 0, 0.0);
    WrittenOut(t, [Argument.Text(text)]);
    PrintableIs(Format(t), [Argument.Text(text)]);
    PrecisionBound(t);
    TextIs(text, PrecisionOf(t), WidthOf(t), d.flags);
  }

  lemma PrecisionBound(t: Spelling)
    ensures PrecisionOf(t) < TWO_32
  {}

  lemma TextIs(text: string, prec: uint32, width: nat, flags: Flags)
    requires !flags.precision ==> prec == 0
    ensures var n := if flags.precision && prec < |text| then prec else |text|;
      var padding := Spaces(width - n % 0x1_0000_0000);
      RenderText(text, prec, width, flags) == if flags.left then text[..n] + padding else padding + text[..n]
  {
    var n := if flags.precision && prec < |text| then prec else |text|;
    assert Truncate(text, prec, flags) == text[..n] && ShownLength(text, prec, flags) == n % TWO_32;
    hide Truncate, ShownLength;
  }

  /** `%p` prints upper-case hexadecimal digits, zeros up to 16 columns whatever the width, and the sign flags. */
  lemma AddressFormat(t: Spelling, address: uint64)
    requires WellFormed(t) && Unstarred(t) && t.conversion == 'p' && '#' !in t.flags
    ensures Printable(Format(t), [Word64(address)])
    ensures var digits := if address == 0 && t.precision != "" then "" else Numeral(address, 16, 32, true);
      Render(Pieces(Format(t)), [Word64(address)])
        == Field(digits, SignOf(false, '+' in t.flags, ' ' in t.flags), PrecisionOf(t), 16, '-' in t.flags, true)
  {
    hide Printable, Format, Pieces, WidthOf, PrecisionOf, Field, Numeral, FormatDigits, Render, RenderConversion, DirectiveOf,
      ConversionKinds, Supplies, WellFormed;
    FlagBits(t);
    WholeIs(t);
    OtherArguments(DirectiveOf(t), PrecisionOf(t), WidthOf(t), 0, "", address, 0.0);
    WrittenOut(t, [Word64(address)]);
    PrintableIs(Format(t), [Word64(address)]);
    var f := DirectiveOf(t).flags.(zeropad := true, upper := true);
    assert f.(hash := false) == f;
    FieldIs(ConversionDigits(address, 16, f), false, 16, PrecisionOf(t), 16, f);
  }

  /** Plain `%p`: 16 upper-case digits that denote the address. */
  lemma AddressColumns(address: uint64)
    ensures Printable("%p", [Word64(address)])
    ensures var text := Render(Pieces("%p"), [Word64(address)]);
      && |text| == 16 && Value(text, 16) == address
      && forall i :: 0 <= i < 16 ==> text[i] in "0123456789ABCDEF"
  {
    hide Format, Numeral, Pow, Value, Written, Printable, Render, Pieces, Field;
    var t := Spelling("", "", "", "", 'p');
    PercentP(t);
    AddressFormat(t, address);
    var digits := Numeral(address, 16, 32, true);
    SixteenDigits(address);
    ZeroColumns(digits);
    LeadingZeros(16 - |digits|, digits, 16);
  }

  lemma PercentP(t: Spelling)
    requires t == Spelling("", "", "", "", 'p')
    ensures Format(t) == "%p" && WellFormed(t) && Unstarred(t) && PrecisionOf(t) == 0
  {}

  lemma SixteenDigits(address: uint64)
    ensures var digits := Numeral(address, 16, 32, true);
      |digits| <= 16 && Value(digits, 16) == address && forall i :: 0 <= i < |digits| ==> digits[i] in "0123456789ABCDEF"
  {
    hide Numeral, Pow, Value;
    HexSixteen();
    NumeralFits(address, 16, 16, 32, true);
    NumeralExact(address, 16, 16, true);
    assert "0123456789ABCDEF"[..16] == "0123456789ABCDEF";
  }

  lemma ZeroColumns(digits: string)
    requires |digits| <= 16
    ensures Field(digits, "", 0, 16, false, true) == Repeat('0', 16 - |digits|) + digits
  {
    assert Zeros(16 - |digits|) == Repeat('0', 16 - |digits|);
    assert "" + (Zeros(16 - |digits|) + digits) == Zeros(16 - |digits|) + digits;
  }

  lemma HexSixteen()
    ensures Pow(16, 16) == TWO_64
  {
    PowFour(16);
    PowDouble(16, 4, 65536);
    PowDouble(16, 8, TWO_32);
  }

  // ---------- fixed-point numbers

  function PlacesOf(t: Spelling): nat { if t.precision == "" then 6 else PrecisionOf(t) }

  /**
   `%f` and `%F`: the sign, and the text of the magnitude with the places that the precision asks
   for, or six. A precision does not switch `0` off.
   */
  lemma FloatFormat(t: Spelling, value: real)
    requires WellFormed(t) && Unstarred(t) && t.conversion in {'f', 'F'}
    requires -1000000000.0 <= value <= 1000000000.0 && PlacesOf(t) <= 41
    ensures Printable(Format(t), [Double(value)])
    ensures var magnitude := if value < 0.0 then -value else value;
      Render(Pieces(Format(t)), [Double(value)])
        == Field(FixedText(magnitude, PlacesOf(t)), SignOf(value < 0.0, '+' in t.flags, ' ' in t.flags), 0, WidthOf(t),
                 '-' in t.flags, '0' in t.flags)
  {
    hide Printable, Format, Pieces, WidthOf, PrecisionOf, FixedText, FormatDigits, Field, Render, RenderConversion, DirectiveOf,
      ConversionKinds, Supplies, WellFormed;
    FlagBits(t);
    WholeIs(t);
    OtherArguments(DirectiveOf(t), PrecisionOf(t), WidthOf(t), 0, "", 0, value);
    WrittenOut(t, [Double(value)]);
    PrintableIs(Format(t), [Double(value)]);
    var f := DirectiveOf(t).flags;
    FixedLength(Abs(value), PlacesOf(t));
    FieldIs(FixedText(Abs(value), PlacesOf(t)), value < 0.0, 10, 0, WidthOf(t),
            (if t.conversion == 'F' then f.(upper := true) else f).(hash := false));
  }

  /** What the text of the magnitude is, for at most nine places. */
  lemma FloatDigits(v: real, prec: nat)
    requires 0.0 <= v <= 1000000000.0 && prec <= 9
    ensures prec == 0 ==> exists n: nat :: IsNearestEven(n, v) && FixedText(v, 0) == Numeral(n, 10, 32, false)
    ensures prec != 0 && !IsTopTie(v, prec) ==>
      exists r: Fixed :: IsNearest(r, v, prec) && FixedText(v, prec) == DecimalText(r, prec)
  {
    hide FixedText, DecimalText, IsNearest, IsNearestEven, IsTopTie, Round;
    if prec == 0 {
      RoundHalfEven(v);
      FtoaWhole(v);
    } else {
      FtoaFaithful(v, prec);
    }
  }

  // ---------- everything else

  /** Every other character is printed as it is, `%` and unknown ones alike, whatever stands in front of it. */
  lemma OtherFormat(t: Spelling)
    requires WellFormed(t) && Unstarred(t)
    requires t.conversion !in {'d', 'i', 'u', 'x', 'X', 'o', 'b', 'c', 's', 'p', 'f', 'F', 'e', 'E', 'g', 'G'}
    ensures Printable(Format(t), []) && Render(Pieces(Format(t)), []) == [t.conversion]
  {
    hide Printable, Format, Pieces, WidthOf, PrecisionOf, Render;
    assert Supplies([], ConversionKinds(DirectiveOf(t)));
    WrittenOut(t, []);
    PrintableIs(Format(t), []);
  }

  lemma PercentSign()
    ensures Printable("%%", []) && Render(Pieces("%%"), []) == "%"
  {
    var t := Spelling("", "", "", "", '%');
    assert Written(t) == "%" && Format(t) == "%%";
    hide Format;
    OtherFormat(t);
  }
}
