/**
 The directive grammar of `_vsnprintf` (sw/device/lib/runtime/printf.c:519-629):
 `%[flags][width][.precision][length]conversion`, read as a value.
 */
module Directives {
  import opened Text
  import opened Digits

  /** The length modifiers; `t`, `j` and `z` all mean 64 bits, like `l`, under the lp64d ABI of the target. */
  datatype Length = NoLength | L | LL | H | HH

  /**
   The `FLAGS_*` word: one field per bit, and one for the four length bits, of which only the
   combinations of `Length` occur. `FLAGS_ADAPT_EXP` belongs to `%g`, which is not modelled.
   */
  datatype Flags = Flags(
    zeropad: bool, left: bool, plus: bool, space: bool, hash: bool, upper: bool, precision: bool, length: Length)

  const NO_FLAGS := Flags(false, false, false, false, false, false, false, NoLength)

  /** A width or precision field: missing, written out, or taken from the arguments. */
  datatype Count = Absent | Literal(n: uint32) | Star

  datatype Directive = Directive(flags: Flags, width: Count, precision: Count, conversion: char)

  predicate IsFlag(c: char) { c in "0-+ #" }

  function AddFlag(flags: Flags, c: char): (r: Flags)
    ensures r.precision == flags.precision && r.length == flags.length
  {
    match c
    case '0' => flags.(zeropad := true)
    case '-' => flags.(left := true)
    case '+' => flags.(plus := true)
    case ' ' => flags.(space := true)
    case '#' => flags.(hash := true)
    case _ => flags
  }

  /** The flags word after reading the flag characters `s`. */
  function FlagsOf(s: string): Flags {
    if s == "" then NO_FLAGS else AddFlag(FlagsOf(s[..|s| - 1]), s[|s| - 1])
  }

  /** Length of the longest prefix of flag characters. */
  function FlagRun(s: string): (n: nat)
    ensures n <= |s|
  {
    if s == "" || !IsFlag(s[0]) then 0 else 1 + FlagRun(s[1..])
  }

  /** Length of the longest prefix of decimal digits. */
  function DigitRun(s: string): (n: nat)
    ensures n <= |s|
  {
    if s == "" || !IsDigit(s[0]) then 0 else 1 + DigitRun(s[1..])
  }

  /** `_atoi` on a run of digits; `unsigned int` arithmetic wraps at 32 bits. */
  function Atoi(s: string): uint32 {
    if s == "" then 0 else (Atoi(s[..|s| - 1]) * 10 + DigitValue(s[|s| - 1])) % TWO_32
  }

  /** A width field, or a precision field after its dot, and how many characters it takes. */
  function ParseCount(s: string): (r: (Count, nat))
    ensures r.1 <= |s|
  {
    if IsDigit(At(s, 0)) then (Literal(Atoi(s[..DigitRun(s)])), DigitRun(s))
    else if At(s, 0) == '*' then (Star, 1)
    else (Absent, 0)
  }

  function ParseLength(s: string): (r: (Length, nat))
    ensures r.1 <= |s|
  {
    match At(s, 0)
    case 'l' => if At(s, 1) == 'l' then (LL, 2) else (L, 1)
    case 'h' => if At(s, 1) == 'h' then (HH, 2) else (H, 1)
    case 't' => (L, 1)
    case 'j' => (L, 1)
    case 'z' => (L, 1)
    case _ => (NoLength, 0)
  }

  /** Whether there is a precision field, its count, and how many characters it takes. */
  function ParsePrecision(s: string): (r: (bool, Count, nat))
    ensures r.2 <= |s|
  {
    if At(s, 0) == '.' then
      var (precision, n) := ParseCount(s[1..]);
      (true, precision, 1 + n)
    else
      (false, Absent, 0)
  }

  /**
   Reads the directive after a `%`. The second component is the position of the conversion
   character, which is the terminator when the directive is incomplete.
   */
  function ParseDirective(s: string): (r: (Directive, nat))
    ensures r.1 <= |s|
    ensures r.0.conversion == At(s, r.1)
  {
    var a := FlagRun(s);
    var (width, b) := ParseCount(s[a..]);
    var (dot, precision, c) := ParsePrecision(s[a + b..]);
    var (length, d) := ParseLength(s[a + b + c..]);
    var flags := FlagsOf(s[..a]).(precision := dot, length := length);
    (Directive(flags, width, precision, At(s, a + b + c + d)), a + b + c + d)
  }

  /** A format is a sequence of plain characters and directives. */
  datatype Piece = Plain(c: char) | Convert(d: Directive)

  function Pieces(fmt: string): seq<Piece>
    decreases |fmt|
  {
    if fmt == "" then []
    else if fmt[0] != '%' then [Plain(fmt[0])] + Pieces(fmt[1..])
    else
      var (d, n) := ParseDirective(fmt[1..]);
      [Convert(d)] + if n + 2 <= |fmt| then Pieces(fmt[n + 2..]) else []
  }

  predicate IsFloatConversion(c: char) { c == 'f' || c == 'F' }

  /** Conversions with an exponent; they are not modelled. */
  predicate IsExponentConversion(c: char) { c in "eEgG" }

  /** A directive that ends inside the format, in a conversion that this model covers. */
  predicate IsWhole(d: Directive) { d.conversion != '\0' && !IsExponentConversion(d.conversion) }

  predicate IsComplete(piece: Piece) {
    piece.Convert? ==> IsWhole(piece.d)
  }

  predicate AllComplete(pieces: seq<Piece>) {
    forall i :: 0 <= i < |pieces| ==> IsComplete(pieces[i])
  }

  /** What `va_arg` fetches: a 32-bit word, a 64-bit word, a C string or a `double`. */
  datatype Argument = Word32(u32: uint32) | Word64(u64: uint64) | Text(text: cstring) | Double(value: real)

  datatype Kind = Kind32 | Kind64 | KindText | KindDouble

  function KindOf(a: Argument): Kind {
    match a
    case Word32(_) => Kind32
    case Word64(_) => Kind64
    case Text(_) => KindText
    case Double(_) => KindDouble
  }

  predicate IsIntegerConversion(c: char) { c in "diuxXob" }

  predicate IsWide(flags: Flags) { flags.length in {L, LL} }

  function ConversionKinds(d: Directive): seq<Kind> {
    if IsIntegerConversion(d.conversion) then [if IsWide(d.flags) then Kind64 else Kind32]
    else if d.conversion == 'c' then [Kind32]
    else if d.conversion == 's' then [KindText]
    else if d.conversion == 'p' then [Kind64]
    else if IsFloatConversion(d.conversion) then [KindDouble]
    else []
  }

  function CountKinds(c: Count): seq<Kind> {
    if c.Star? then [Kind32] else []
  }

  /** The arguments one directive takes, in order. */
  function DirectiveKinds(d: Directive): seq<Kind> {
    CountKinds(d.width) + CountKinds(d.precision) + ConversionKinds(d)
  }

  function PieceKinds(piece: Piece): seq<Kind> {
    if piece.Plain? then [] else DirectiveKinds(piece.d)
  }

  /** The arguments a format takes, in order. */
  function Kinds(pieces: seq<Piece>): seq<Kind> {
    if pieces == [] then [] else PieceKinds(pieces[0]) + Kinds(pieces[1..])
  }

  /** C allows more arguments than the format takes, but not fewer, and each must have the promised type. */
  predicate Supplies(args: seq<Argument>, kinds: seq<Kind>) {
    |kinds| <= |args| && forall i :: 0 <= i < |kinds| ==> KindOf(args[i]) == kinds[i]
  }

  lemma SuppliesSplit(args: seq<Argument>, first: seq<Kind>, rest: seq<Kind>)
    requires Supplies(args, first + rest)
    ensures Supplies(args, first) && Supplies(args[|first|..], rest)
  {
    forall i | 0 <= i < |first| ensures KindOf(args[i]) == first[i] {
      assert (first + rest)[i] == first[i];
    }
    forall i | 0 <= i < |rest| ensures KindOf(args[|first|..][i]) == rest[i] {
      assert (first + rest)[|first| + i] == rest[i];
    }
  }
}
