/**
 The text a format denotes, as a function of the format and its arguments
 (sw/device/lib/runtime/printf.c:181-402, 510-789, without the exponential conversions).
 */
module Rendering {
  import opened Text
  import opened Digits
  import opened Directives
  import opened Rounding

  /** PRINTF_NTOA_BUFFER_SIZE */
  const SCRATCH := 32

  // ---------- fields

  /** Space padding around a converted item. */
  function Justify(body: string, width: nat, flags: Flags): string {
    var pad := Repeat(' ', Excess(width, |body|));
    if flags.left then body + pad else if flags.zeropad then body else pad + body
  }

  /** Zeros in front of `s`, up to `target` characters and never past the scratch buffer. */
  function ZeroFill(s: string, target: nat): string {
    Repeat('0', Excess(Min(target, SCRATCH), |s|)) + s
  }

  predicate ZeroPadActive(flags: Flags) { flags.zeropad && !flags.left }

  /** The width left for digits: active zero padding keeps one column for a sign. */
  function DigitWidth(negative: bool, width: nat, flags: Flags): nat {
    if ZeroPadActive(flags) && 0 < width && (negative || flags.plus || flags.space) then width - 1 else width
  }

  function PadZeros(digits: string, prec: nat, width: nat, flags: Flags): string {
    if flags.left then digits
    else if flags.zeropad then ZeroFill(ZeroFill(digits, prec), width)
    else ZeroFill(digits, prec)
  }

  /** One more character in front, if the scratch buffer still has room. */
  function Prepend(c: char, s: string): string {
    if |s| < SCRATCH then [c] + s else s
  }

  /** Under `#`, leading characters given up so that the prefix fits an exactly filled field. */
  function GiveUp(s: string, base: nat, prec: nat, width: nat, flags: Flags): string {
    if !flags.precision && s != "" && (|s| == prec || |s| == width) then
      if |s| > 1 && base == 16 then s[2..] else s[1..]
    else s
  }

  function BasePrefix(s: string, base: nat, upper: bool): string {
    Prepend('0', if base == 16 then Prepend(if upper then 'X' else 'x', s) else if base == 2 then Prepend('b', s) else s)
  }

  function AddPrefix(s: string, base: nat, prec: nat, width: nat, flags: Flags): string {
    if flags.hash then BasePrefix(GiveUp(s, base, prec, width, flags), base, flags.upper) else s
  }

  function AddSign(s: string, negative: bool, flags: Flags): string {
    if negative then Prepend('-', s)
    else if flags.plus then Prepend('+', s)
    else if flags.space then Prepend(' ', s)
    else s
  }

  /** `_ntoa_format`: zeros, prefix and sign around the digits, then space padding. */
  function FormatDigits(digits: string, negative: bool, base: nat, prec: nat, width: nat, flags: Flags): string {
    var w := DigitWidth(negative, width, flags);
    Justify(AddSign(AddPrefix(PadZeros(digits, prec, w, flags), base, prec, w, flags), negative, flags), w, flags)
  }

  /** The digits of a conversion: none for zero under an explicit precision. */
  function ConversionDigits(value: nat, base: nat, flags: Flags): string
    requires 2 <= base <= 16
  {
    if flags.precision && value == 0 then "" else Numeral(value, base, SCRATCH, flags.upper)
  }

  /** `_ntoa_long` and `_ntoa_long_long`, which differ only in the width of `value`. */
  function FormatInteger(value: nat, negative: bool, base: nat, prec: nat, width: nat, flags: Flags): string
    requires 2 <= base <= 16
  {
    FormatDigits(ConversionDigits(value, base, flags), negative, base, prec, width,
                 if value == 0 then flags.(hash := false) else flags)
  }

  // ---------- conversions

  function Base(conversion: char): (base: nat)
    ensures base in {2, 8, 10, 16}
  {
    match conversion
    case 'x' => 16
    case 'X' => 16
    case 'o' => 8
    case 'b' => 2
    case _ => 10
  }

  predicate IsSignedConversion(c: char) { c == 'd' || c == 'i' }

  /** The adjustments an integer conversion makes to its flags (printf.c:649-659). */
  function IntegerFlags(flags: Flags, conversion: char): Flags {
    var f := if Base(conversion) == 10 then flags.(hash := false) else flags;
    var f := if conversion == 'X' then f.(upper := true) else f;
    var f := if IsSignedConversion(conversion) then f else f.(plus := false, space := false);
    if f.precision then f.(zeropad := false) else f
  }

  /** The number an integer argument stands for; plain `char` is unsigned under the RISC-V ABI. */
  function IntegerValue(arg: Argument, conversion: char, flags: Flags): int
    requires KindOf(arg) == if IsWide(flags) then Kind64 else Kind32
  {
    if IsWide(flags) then
      if IsSignedConversion(conversion) then Signed(arg.u64, TWO_64) else arg.u64
    else if flags.length.HH? then arg.u32 % TWO_8
    else if IsSignedConversion(conversion) then
      if flags.length.H? then Signed(arg.u32 % TWO_16, TWO_16) else Signed(arg.u32, TWO_32)
    else
      if flags.length.H? then arg.u32 % TWO_16 else arg.u32
  }

  function Magnitude(value: int): nat { if value < 0 then -value else value }

  function RenderInteger(arg: Argument, conversion: char, prec: nat, width: nat, flags: Flags): string
    requires KindOf(arg) == if IsWide(flags) then Kind64 else Kind32
  {
    var value := IntegerValue(arg, conversion, flags);
    FormatInteger(Magnitude(value), value < 0, Base(conversion), prec, width, IntegerFlags(flags, conversion))
  }

  /** Spaces up to `width` around an item counted as `shown` characters long. */
  function PadTo(item: string, shown: nat, width: nat, flags: Flags): string {
    var pad := Repeat(' ', Excess(width, shown));
    if flags.left then item + pad else pad + item
  }

  function RenderChar(arg: uint32, width: nat, flags: Flags): string {
    PadTo([(arg % TWO_8) as char], 1, width, flags)
  }

  function Truncate(text: string, prec: nat, flags: Flags): string {
    if flags.precision then text[..Min(|text|, prec)] else text
  }

  /** The length `%s` computes for padding, an `unsigned int`. */
  function ShownLength(text: string, prec: nat, flags: Flags): nat {
    var l := (if 0 < prec then Min(|text|, prec) else |text|) % TWO_32;
    if flags.precision then Min(l, prec) else l
  }

  function RenderText(text: string, prec: nat, width: nat, flags: Flags): string {
    PadTo(Truncate(text, prec, flags), ShownLength(text, prec, flags), width, flags)
  }

  function RenderAddress(address: uint64, prec: nat, flags: Flags): string {
    FormatInteger(address, false, 16, prec, 16, flags.(zeropad := true, upper := true))
  }

  // ---------- fixed-point numbers

  /** PRINTF_DEFAULT_FLOAT_PRECISION and PRINTF_MAX_FLOAT */
  const DEFAULT_PRECISION := 6
  const MAX_FLOAT := 1000000000.0

  /** Room left in the scratch buffer in front of `s`. */
  function Room(s: string): nat { Excess(SCRATCH, |s|) }

  function PrependNumeral(n: nat, s: string): string {
    if |s| < SCRATCH then Numeral(n, 10, Room(s), false) + s else s
  }

  function PrependZeros(n: nat, s: string): string {
    ZeroFill(s, |s| + n)
  }

  /**
   The fraction: its digits, then zeros for the places that remain, counted in 32-bit arithmetic,
   then the decimal point.
   */
  function PrependFraction(frac: nat, prec: nat, s: string): string {
    var t := PrependNumeral(frac, s);
    Prepend('.', PrependZeros((prec - (|t| - |s|)) % TWO_32, t))
  }

  /** Digits and decimal point; precisions beyond 9 are filled with zeros. */
  function FixedText(v: real, prec: nat): string
    requires 0.0 <= v
  {
    var p := Min(prec, 9);
    var tail := Repeat('0', Excess(prec, 9));
    var r := Round(v, p);
    PrependNumeral(r.whole, if p == 0 then tail else PrependFraction(r.frac, p, tail))
  }

  function Abs(value: real): real { if value < 0.0 then -value else value }

  function Precision(prec: nat, flags: Flags): nat { if flags.precision then prec else DEFAULT_PRECISION }

  /** `_ftoa`, for values and precisions in its range. */
  function RenderFloat(value: real, prec: nat, width: nat, flags: Flags): string {
    FormatDigits(FixedText(Abs(value), Precision(prec, flags)), value < 0.0, 10, 0, width, flags.(hash := false))
  }

  /**
   What `_ftoa` handles on its own: larger values go to `_etoa`, and larger precisions index past
   its table of powers of ten.
   */
  predicate FloatInRange(value: real, prec: nat, flags: Flags) {
    -MAX_FLOAT <= value <= MAX_FLOAT && Precision(prec, flags) <= 41
  }

  /** A conversion applied to the arguments left after `*` width and precision. */
  function RenderConversion(d: Directive, prec: nat, width: nat, flags: Flags, args: seq<Argument>): string
    requires IsWhole(d) && IsWide(flags) == IsWide(d.flags)
    requires Supplies(args, ConversionKinds(d))
  {
    if IsIntegerConversion(d.conversion) then RenderInteger(args[0], d.conversion, prec, width, flags)
    else if d.conversion == 'c' then RenderChar(args[0].u32, width, flags)
    else if d.conversion == 's' then RenderText(args[0].text, prec, width, flags)
    else if d.conversion == 'p' then RenderAddress(args[0].u64, prec, flags)
    else if IsFloatConversion(d.conversion) then
      RenderFloat(args[0].value, prec, width, if d.conversion == 'F' then flags.(upper := true) else flags)
    else [d.conversion]
  }

  /** A `*` width: a negative one selects left justification. */
  function EvalWidth(width: Count, flags: Flags, args: seq<Argument>): (r: (Flags, uint32))
    requires Supplies(args, CountKinds(width))
    ensures r.0 == flags || r.0 == flags.(left := true)
  {
    match width
    case Absent => (flags, 0)
    case Literal(n) => (flags, n)
    case Star =>
      var w := Signed(args[0].u32, TWO_32);
      if w < 0 then (flags.(left := true), -w) else (flags, w)
  }

  function EvalPrecision(precision: Count, args: seq<Argument>): uint32
    requires Supplies(args, CountKinds(precision))
  {
    match precision
    case Absent => 0
    case Literal(n) => n
    case Star =>
      var p := Signed(args[0].u32, TWO_32);
      if p > 0 then p else 0
  }

  lemma DirectiveSupplies(d: Directive, args: seq<Argument>)
    requires Supplies(args, DirectiveKinds(d))
    ensures Supplies(args, CountKinds(d.width))
    ensures Supplies(args[|CountKinds(d.width)|..], CountKinds(d.precision))
    ensures Supplies(args[|CountKinds(d.width)| + |CountKinds(d.precision)|..], ConversionKinds(d))
  {
    SuppliesSplit(args, CountKinds(d.width) + CountKinds(d.precision), ConversionKinds(d));
    SuppliesSplit(args, CountKinds(d.width), CountKinds(d.precision));
  }

  function RenderDirective(d: Directive, args: seq<Argument>): string
    requires IsWhole(d) && Supplies(args, DirectiveKinds(d))
  {
    DirectiveSupplies(d, args);
    var i := |CountKinds(d.width)|;
    var j := i + |CountKinds(d.precision)|;
    var (flags, width) := EvalWidth(d.width, d.flags, args);
    RenderConversion(d, EvalPrecision(d.precision, args[i..]), width, flags, args[j..])
  }

  function RenderPiece(piece: Piece, args: seq<Argument>): string
    requires IsComplete(piece) && Supplies(args, PieceKinds(piece))
  {
    if piece.Plain? then [piece.c] else RenderDirective(piece.d, args)
  }

  /** The text of a whole format, each piece taking its arguments from the front of what is left. */
  function Render(pieces: seq<Piece>, args: seq<Argument>): string
    requires AllComplete(pieces) && Supplies(args, Kinds(pieces))
  {
    if pieces == [] then ""
    else
      SuppliesSplit(args, PieceKinds(pieces[0]), Kinds(pieces[1..]));
      RenderPiece(pieces[0], args) + Render(pieces[1..], args[|PieceKinds(pieces[0])|..])
  }

  // ---------- the range of the model

  /** A `%f` directive gets a value and a precision that `_ftoa` handles. */
  predicate DirectiveInRange(d: Directive, args: seq<Argument>)
    requires Supplies(args, DirectiveKinds(d))
  {
    DirectiveSupplies(d, args);
    var i := |CountKinds(d.width)|;
    var j := i + |CountKinds(d.precision)|;
    IsFloatConversion(d.conversion) ==> FloatInRange(args[j].value, EvalPrecision(d.precision, args[i..]), d.flags)
  }

  predicate PieceInRange(piece: Piece, args: seq<Argument>)
    requires Supplies(args, PieceKinds(piece))
  {
    piece.Convert? ==> DirectiveInRange(piece.d, args)
  }

  predicate AllInRange(pieces: seq<Piece>, args: seq<Argument>)
    requires Supplies(args, Kinds(pieces))
  {
    if pieces == [] then true
    else
      SuppliesSplit(args, PieceKinds(pieces[0]), Kinds(pieces[1..]));
      PieceInRange(pieces[0], args) && AllInRange(pieces[1..], args[|PieceKinds(pieces[0])|..])
  }

  /** Complete directives, the arguments they take, and `%f` arguments in range. */
  predicate Printable(fmt: string, args: seq<Argument>) {
    AllComplete(Pieces(fmt)) && Supplies(args, Kinds(Pieces(fmt))) && AllInRange(Pieces(fmt), args)
  }
}
