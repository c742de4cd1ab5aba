/**
 What the integer conversions promise: the text reads back as the number, its length is the
 requested one, and which digits survive the `#` prefix (sw/device/lib/runtime/printf.c:180-283, 633-699).
 */
module IntegerLaws {
  import opened Text
  import opened Digits
  import opened Directives
  import opened Rendering

  // ---------- reading numbers back

  function SkipSpaces(s: string): string {
    if s != "" && s[0] == ' ' then SkipSpaces(s[1..]) else s
  }

  /** The longest prefix of digit characters. */
  function NumeralRun(s: string): string {
    if s == "" || !IsNumeralChar(s[0]) then "" else [s[0]] + NumeralRun(s[1..])
  }

  /** Spaces, an optional sign, then digits: the way a reader takes a number from a text field. */
  function ReadInteger(s: string, base: nat): int {
    var t := SkipSpaces(s);
    if t != "" && t[0] == '-' then -(Value(NumeralRun(t[1..]), base) as int)
    else if t != "" && t[0] == '+' then Value(NumeralRun(t[1..]), base)
    else Value(NumeralRun(t), base)
  }

  predicate AllNumeral(s: string) { forall i :: 0 <= i < |s| ==> IsNumeralChar(s[i]) }

  lemma {:induction false} SkipPadding(n: nat, t: string)
    ensures SkipSpaces(Repeat(' ', n) + t) == SkipSpaces(t)
  {
    if n == 0 {
      assert Repeat(' ', 0) + t == t;
    } else {
      assert (Repeat(' ', n) + t)[1..] == Repeat(' ', n - 1) + t;
      SkipPadding(n - 1, t);
    }
  }

  lemma {:induction false} RunStops(s: string, t: string)
    requires AllNumeral(s) && (t == "" || !IsNumeralChar(t[0]))
    ensures NumeralRun(s + t) == s
  {
    if s == "" {
      assert s + t == t;
    } else {
      assert (s + t)[1..] == s[1..] + t;
      RunStops(s[1..], t);
    }
  }

  /** The sign column of a number. */
  function SignText(negative: bool, flags: Flags): string {
    if negative then "-" else if flags.plus then "+" else if flags.space then " " else ""
  }

  lemma ReadsBack(lead: nat, sign: string, digits: string, trail: nat, base: nat)
    requires sign in {"", "-", "+", " "} && AllNumeral(digits)
    ensures ReadInteger(Repeat(' ', lead) + sign + digits + Repeat(' ', trail), base)
         == if sign == "-" then -(Value(digits, base) as int) else Value(digits, base)
  {
    hide Value;
    var tail := digits + Repeat(' ', trail);
    var s := sign + tail;
    assert Repeat(' ', lead) + sign + digits + Repeat(' ', trail) == Repeat(' ', lead) + s;
    SkipPadding(lead, s);
    RunStops(digits, Repeat(' ', trail));
    if sign == "-" || sign == "+" {
      assert s[1..] == tail;
    } else {
      if sign == " " { SkipPadding(1, tail); assert Repeat(' ', 1) == " "; }
      assert SkipSpaces(s) == SkipSpaces(tail) by { assert sign == "" ==> s == tail; }
      if digits == "" {
        assert tail == Repeat(' ', trail) + "";
        SkipPadding(trail, "");
      }
    }
  }

  lemma {:induction false} LeadingZeros(n: nat, s: string, base: nat)
    ensures Value(Repeat('0', n) + s, base) == Value(s, base)
    decreases |s|, n
  {
    var z := Repeat('0', n);
    if s != "" {
      assert (z + s)[..|z + s| - 1] == z + s[..|s| - 1];
      LeadingZeros(n, s[..|s| - 1], base);
    } else if n != 0 {
      assert z + s == Repeat('0', n - 1) + ['0'];
      LeadingZeros(n - 1, "", base);
      ValueSnoc(Repeat('0', n - 1), '0', base);
      assert Repeat('0', n - 1) + "" == Repeat('0', n - 1);
    }
  }

  lemma {:induction false} NumeralIsNumeral(v: nat, base: nat, limit: nat, upper: bool)
    requires 2 <= base <= 16 && 1 <= limit
    ensures AllNumeral(Numeral(v, base, limit, upper))
    decreases limit
  {
    var rest: nat := v / base;
    DigitCharValue(v % base, upper);
    if rest != 0 && limit != 1 {
      NumeralIsNumeral(rest, base, limit - 1, upper);
    }
  }

  lemma ConversionDigitsDenote(value: nat, base: nat, flags: Flags)
    requires 2 <= base <= 16
    ensures AllNumeral(ConversionDigits(value, base, flags)) && |ConversionDigits(value, base, flags)| <= SCRATCH
    ensures 0 < Pow(base, SCRATCH)
    ensures Value(ConversionDigits(value, base, flags), base) == value % Pow(base, SCRATCH)
  {
    PowPositive(base, SCRATCH);
    if flags.precision && value == 0 {
      RemainderUnique(0, Pow(base, SCRATCH), 0, 0);
    } else {
      NumeralIsNumeral(value, base, SCRATCH, flags.upper);
      NumeralDenotes(value, base, SCRATCH, flags.upper);
    }
  }

  // ---------- the shape of a field without a prefix

  /** Digits after zero padding. */
  function PaddedLength(digits: nat, prec: nat, width: nat, flags: Flags): nat {
    if flags.left then digits
    else Max(digits, Max(Min(prec, SCRATCH), if flags.zeropad then Min(width, SCRATCH) else 0))
  }

  lemma ZerosShape(digits: string, prec: nat, width: nat, flags: Flags)
    ensures PaddedLength(|digits|, prec, width, flags) >= |digits|
    ensures PadZeros(digits, prec, width, flags)
         == Repeat('0', PaddedLength(|digits|, prec, width, flags) - |digits|) + digits
  {
    var a := Excess(Min(prec, SCRATCH), |digits|);
    var once := ZeroFill(digits, prec);
    if !flags.left && flags.zeropad {
      var b := Excess(Min(width, SCRATCH), |once|);
      assert Repeat('0', b) + (Repeat('0', a) + digits) == (Repeat('0', b) + Repeat('0', a)) + digits;
      RepeatSum('0', b, a);
    }
  }

  /** The scratch buffer has room for the sign exactly when fewer than 32 characters precede it. */
  predicate SignFits(digits: nat, negative: bool, prec: nat, width: nat, flags: Flags) {
    SignText(negative, flags) == "" ||
    (digits < SCRATCH && (flags.left || (prec < SCRATCH && (flags.zeropad ==> width <= SCRATCH))))
  }

  function LeadingSpaces(body: nat, width: nat, flags: Flags): nat {
    if flags.left || flags.zeropad then 0 else Excess(width, body)
  }

  function TrailingSpaces(body: nat, width: nat, flags: Flags): nat {
    if flags.left then Excess(width, body) else 0
  }

  /** The columns of a field: leading spaces, sign, zeros, digits, trailing spaces. */
  function Columns(digits: string, sign: string, prec: nat, w: nat, flags: Flags): string
  {
    var zeros := Excess(PaddedLength(|digits|, prec, w, flags), |digits|);
    var body := |sign| + zeros + |digits|;
    Repeat(' ', LeadingSpaces(body, w, flags)) + sign + (Repeat('0', zeros) + digits)
      + Repeat(' ', TrailingSpaces(body, w, flags))
  }

  lemma JustifyShape(body: string, width: nat, flags: Flags)
    ensures Justify(body, width, flags)
         == Repeat(' ', LeadingSpaces(|body|, width, flags)) + body + Repeat(' ', TrailingSpaces(|body|, width, flags))
  {
    assert Repeat(' ', 0) + body == body;
    assert forall s: string :: s + Repeat(' ', 0) == s;
  }

  lemma SignRoom(digits: nat, negative: bool, prec: nat, width: nat, flags: Flags)
    requires digits <= SCRATCH && SignText(negative, flags) != ""
    ensures SignFits(digits, negative, prec, width, flags)
       <==> PaddedLength(digits, prec, DigitWidth(negative, width, flags), flags) < SCRATCH
  {}

  lemma SignShape(s: string, negative: bool, flags: Flags)
    ensures AddSign(s, negative, flags) == (if |s| < SCRATCH then SignText(negative, flags) else "") + s
  {}

  /**
   Without `#`, a field is its columns. The sign is there exactly when the scratch buffer has
   room for it: zero fill up to all 32 characters crowds it out.
   */
  lemma FieldShape(digits: string, negative: bool, base: nat, prec: nat, width: nat, flags: Flags)
    requires !flags.hash && |digits| <= SCRATCH
    ensures FormatDigits(digits, negative, base, prec, width, flags) ==
      Columns(digits, if SignFits(|digits|, negative, prec, width, flags) then SignText(negative, flags) else "",
              prec, DigitWidth(negative, width, flags), flags)
  {
    hide PadZeros, AddSign, Justify, LeadingSpaces, TrailingSpaces, PaddedLength, DigitWidth;
    var w := DigitWidth(negative, width, flags);
    var padded := PadZeros(digits, prec, w, flags);
    ZerosShape(digits, prec, w, flags);
    SignShape(padded, negative, flags);
    if SignText(negative, flags) != "" { SignRoom(|digits|, negative, prec, width, flags); }
    var fits := SignFits(|digits|, negative, prec, width, flags);
    hide SignFits, SignText;
    JustifyShape(AddSign(padded, negative, flags), w, flags);
  }

  function IfNegative(negative: bool, n: int): int { if negative then -n else n }

  /**
   Reading a field back gives the number modulo `base^32`, for every width and precision; a
   negative number loses its sign exactly when the sign does not fit.
   */
  lemma IntegerReadsBack(value: nat, negative: bool, base: nat, prec: nat, width: nat, flags: Flags)
    requires 2 <= base <= 16 && !flags.hash
    ensures 0 < Pow(base, SCRATCH)
    ensures ReadInteger(FormatInteger(value, negative, base, prec, width, flags), base) ==
      IfNegative(negative && SignFits(|ConversionDigits(value, base, flags)|, negative, prec, width, flags),
                 value % Pow(base, SCRATCH))
  {
    hide FormatDigits, ConversionDigits, Pow, ReadInteger, PaddedLength;
    var digits := ConversionDigits(value, base, flags);
    ConversionDigitsDenote(value, base, flags);
    FieldShape(digits, negative, base, prec, width, flags);
    var fits := SignFits(|digits|, negative, prec, width, flags);
    var sign := if fits then SignText(negative, flags) else "";
    var w := DigitWidth(negative, width, flags);
    var zeros := Excess(PaddedLength(|digits|, prec, w, flags), |digits|);
    var body := |sign| + zeros + |digits|;
    LeadingZeros(zeros, digits, base);
    ReadsBack(LeadingSpaces(body, w, flags), sign, Repeat('0', zeros) + digits, TrailingSpaces(body, w, flags), base);
  }

  lemma FullTail(v: nat, base: nat, limit: nat, upper: bool)
    requires 2 <= base <= 16 && 1 < limit && |Numeral(v, base, limit, upper)| == limit
    ensures v / base != 0 && |Numeral(v / base, base, limit - 1, upper)| == limit - 1
  {}

  /** A numeral that fills all its digits stands for a large number. */
  lemma {:induction false} FullNumeral(v: nat, base: nat, limit: nat, upper: bool)
    requires 2 <= base <= 16 && 1 <= limit && |Numeral(v, base, limit, upper)| == limit
    requires v != 0
    ensures v >= Pow(base, limit - 1)
    decreases limit
  {
    hide Numeral;
    var rest: nat := v / base;
    if limit != 1 {
      FullTail(v, base, limit, upper);
      FullNumeral(rest, base, limit - 1, upper);
      ScaleUp(v, base, Pow(base, limit - 2));
    }
  }

  lemma ScaleUp(v: nat, base: nat, p: nat)
    requires 0 < base && p <= v / base
    ensures base * p <= v
  {
    MulMonotone(p, v / base, base);
  }

  lemma NumeralOfZero(base: nat, limit: nat, upper: bool)
    requires 2 <= base <= 16 && 1 <= limit
    ensures Numeral(0, base, limit, upper) == "0"
  {}

  lemma NumeralIsShort(v: nat, base: nat, upper: bool)
    requires base in {8, 10, 16} && v < TWO_64
    ensures |Numeral(v, base, SCRATCH, upper)| < SCRATCH
  {
    hide Numeral, Pow;
    if v == 0 {
      NumeralOfZero(base, SCRATCH, upper);
    } else if |Numeral(v, base, SCRATCH, upper)| == SCRATCH {
      FullNumeral(v, base, SCRATCH, upper);
      ScratchCapacity31(base);
    }
  }

  /** Zero fill leaves a place for the sign of a number in base 8, 10 or 16. */
  predicate SignRemains(prec: nat, width: nat, flags: Flags) {
    flags.left || (prec < SCRATCH && (flags.zeropad ==> width <= SCRATCH))
  }

  lemma NumberReadsBack(value: nat, negative: bool, base: nat, prec: nat, width: nat, flags: Flags)
    requires base in {8, 10, 16} && value < TWO_64 && !flags.hash
    ensures ReadInteger(FormatInteger(value, negative, base, prec, width, flags), base)
         == IfNegative(negative && SignRemains(prec, width, flags), value)
  {
    hide FormatInteger, ReadInteger, Numeral, Pow;
    NumeralIsShort(value, base, flags.upper);
    ScratchExact(value, base);
    IntegerReadsBack(value, negative, base, prec, width, flags);
  }

  /**
   An integer directive prints its argument exactly, in octal, decimal and hexadecimal alike,
   if and only if the value is not negative or zero fill leaves a place for the sign.
   */
  lemma IntegerFaithful(arg: Argument, conversion: char, prec: nat, width: nat, flags: Flags)
    requires conversion in "diuxXo"
    requires KindOf(arg) == if IsWide(flags) then Kind64 else Kind32
    requires !flags.hash || conversion in "diu"
    ensures var value := IntegerValue(arg, conversion, flags);
      var base := if conversion in "xX" then 16 else if conversion == 'o' then 8 else 10;
      ReadInteger(RenderInteger(arg, conversion, prec, width, flags), base) == value
      <==>
      (value < 0 ==> flags.left || (prec < 32 && (flags.zeropad && !flags.precision ==> width <= 32)))
  {
    hide IntegerValue, FormatInteger, ReadInteger;
    MagnitudeBound(arg, conversion, flags);
    var value := IntegerValue(arg, conversion, flags);
    NumberReadsBack(Magnitude(value), value < 0, Base(conversion), prec, width, IntegerFlags(flags, conversion));
  }

  /** For example, `%040d` prints -1 as a positive number: 32 digits, and no sign. */
  lemma SignCrowdedOut()
    ensures var text := RenderInteger(Word32(0xffff_ffff), 'd', 0, 40, NO_FLAGS.(zeropad := true));
      ReadInteger(text, 10) == 1 && ReadInteger(text, 10) != IntegerValue(Word32(0xffff_ffff), 'd', NO_FLAGS)
  {
    hide FormatInteger, ReadInteger;
    NumberReadsBack(1, true, 10, 0, 40, NO_FLAGS.(zeropad := true));
  }

  lemma MagnitudeBound(arg: Argument, conversion: char, flags: Flags)
    requires KindOf(arg) == if IsWide(flags) then Kind64 else Kind32
    ensures Magnitude(IntegerValue(arg, conversion, flags)) < TWO_64
  {}

  /** How many values the type has that a length modifier selects. */
  function Modulus(length: Length): nat {
    match length
    case HH => 0x100
    case H => 0x1_0000
    case NoLength => 0x1_0000_0000
    case _ => 0x1_0000_0000_0000_0000
  }

  /** The bits that `va_arg` fetches. */
  function Bits(arg: Argument): nat {
    match arg
    case Word32(u) => u
    case Word64(u) => u
    case _ => 0
  }

  /** The value of an argument is the number of the selected type that agrees with the fetched bits. */
  lemma ArgumentValue(arg: Argument, conversion: char, flags: Flags)
    requires KindOf(arg) == if IsWide(flags) then Kind64 else Kind32
    ensures var value, m := IntegerValue(arg, conversion, flags), Modulus(flags.length);
      && (value - Bits(arg)) % m == 0
      && if conversion in "di" && !flags.length.HH? then 0 <= 2 * value + m < 2 * m else 0 <= value < m
  {
    match flags.length
    case HH => Congruent(Bits(arg), TWO_8);
    case H => Congruent(Bits(arg), TWO_16);
    case NoLength => Congruent(Bits(arg), TWO_32);
    case _ => Congruent(Bits(arg), TWO_64);
  }

  lemma Congruent(bits: nat, m: nat)
    requires 0 < m && m % 2 == 0
    ensures (bits % m - bits) % m == 0 && (Signed(bits % m, m) - bits) % m == 0
    ensures 0 <= 2 * Signed(bits % m, m) + m < 2 * m
    ensures bits < m ==> bits % m == bits
  {
    var q, r := bits / m, bits % m;
    RemainderUnique(r - bits, m, -q, 0);
    RemainderUnique(r - m - bits, m, -q - 1, 0);
    if bits < m { RemainderUnique(bits, m, 0, bits); }
  }

  /** `%b` has 32 digits at most, so it prints the value modulo 2^32. */
  lemma BinaryFaithful(arg: Argument, prec: nat, width: nat, flags: Flags)
    requires KindOf(arg) == if IsWide(flags) then Kind64 else Kind32
    requires !flags.hash
    ensures ReadInteger(RenderInteger(arg, 'b', prec, width, flags), 2) == IntegerValue(arg, 'b', flags) % TWO_32
  {
    hide FormatInteger, SignFits, ReadInteger, Numeral;
    ScratchCapacityBinary();
    IntegerReadsBack(IntegerValue(arg, 'b', flags), false, 2, prec, width, IntegerFlags(flags, 'b'));
  }

  /** `%p` prints the address. */
  lemma AddressFaithful(address: uint64, prec: nat, flags: Flags)
    requires !flags.hash
    ensures ReadInteger(RenderAddress(address, prec, flags), 16) == address
  {
    hide FormatInteger, ReadInteger;
    NumberReadsBack(address, false, 16, prec, 16, flags.(zeropad := true, upper := true));
  }

  /** The exact length of an integer field. */
  lemma FieldLength(digits: string, negative: bool, base: nat, prec: nat, width: nat, flags: Flags)
    requires !flags.hash && |digits| <= SCRATCH
    requires prec <= SCRATCH && (ZeroPadActive(flags) ==> width <= SCRATCH)
    requires SignFits(|digits|, negative, prec, width, flags)
    ensures |FormatDigits(digits, negative, base, prec, width, flags)|
         == Max(width, |SignText(negative, flags)| + if flags.left then |digits| else Max(prec, |digits|))
  {
    hide FormatDigits;
    FieldShape(digits, negative, base, prec, width, flags);
  }

  lemma NoHash(conversion: char, flags: Flags)
    requires conversion in "diuxXo" && (!flags.hash || Base(conversion) == 10)
    ensures Base(conversion) in {8, 10, 16} && !IntegerFlags(flags, conversion).hash
  {}

  lemma SignFitsEasily(digits: nat, negative: bool, prec: nat, width: nat, flags: Flags)
    requires digits < SCRATCH && prec < SCRATCH && (ZeroPadActive(flags) ==> width <= SCRATCH)
    ensures SignFits(digits, negative, prec, width, flags)
  {}

  lemma DigitsAreShort(value: nat, base: nat, flags: Flags)
    requires base in {8, 10, 16} && value < TWO_64
    ensures |ConversionDigits(value, base, flags)| < SCRATCH
  {
    hide Numeral;
    NumeralIsShort(value, base, flags.upper);
  }

  /**
   An integer directive fills its width, or more when sign, precision and digits need it;
   the precision drops out under `-`.
   */
  lemma IntegerLength(arg: Argument, conversion: char, prec: nat, width: nat, flags: Flags)
    requires conversion in "diuxXo" && (!flags.hash || Base(conversion) == 10)
    requires KindOf(arg) == if IsWide(flags) then Kind64 else Kind32
    requires prec < SCRATCH && (ZeroPadActive(IntegerFlags(flags, conversion)) ==> width <= SCRATCH)
    ensures var f := IntegerFlags(flags, conversion);
      var value := IntegerValue(arg, conversion, flags);
      var digits := ConversionDigits(Magnitude(value), Base(conversion), f);
      |RenderInteger(arg, conversion, prec, width, flags)|
        == Max(width, |SignText(value < 0, f)| + if f.left then |digits| else Max(prec, |digits|))
  {
    hide IntegerValue, IntegerFlags, FormatDigits, ConversionDigits, Base, SignText, ZeroPadActive;
    var f := IntegerFlags(flags, conversion);
    var value := IntegerValue(arg, conversion, flags);
    var base := Base(conversion);
    NoHash(conversion, flags);
    MagnitudeBound(arg, conversion, flags);
    DigitsAreShort(Magnitude(value), base, f);
    SignFitsEasily(|ConversionDigits(Magnitude(value), base, f)|, value < 0, prec, width, f);
    FieldLength(ConversionDigits(Magnitude(value), base, f), value < 0, base, prec, width, f);
  }

  /**
   A text field: as much of the text as the precision allows, with all padding on one side. The
   length is counted in 32 bits, so padding is missing only in front of or behind 2^32 characters
   or more. (The engine passes precision 0 when the format gives none.)
   */
  lemma TextField(text: string, prec: uint32, width: nat, flags: Flags)
    requires !flags.precision ==> prec == 0
    ensures var n := if flags.precision then Min(|text|, prec) else |text|;
      var field := RenderText(text, prec, width, flags);
      var padding := Excess(width, n % TWO_32);
      var lead := if flags.left then 0 else padding;
      && |field| == n + padding
      && (n < TWO_32 ==> |field| == Max(width, n))
      && field[lead..lead + n] == text[..n]
      && forall i :: 0 <= i < |field| && !(lead <= i < lead + n) ==> field[i] == ' '
  {
    var n := if flags.precision then Min(|text|, prec) else |text|;
    assert Truncate(text, prec, flags) == text[..n] && ShownLength(text, prec, flags) == n % TWO_32;
  }

  /** A character field; a character is always printed, whatever the width. */
  lemma CharField(arg: uint32, width: nat, flags: Flags)
    ensures var field := RenderChar(arg, width, flags);
      var at := if flags.left then 0 else |field| - 1;
      && |field| == Max(width, 1) && field[at] == (arg % TWO_8) as char
      && forall i :: 0 <= i < |field| && i != at ==> field[i] == ' '
  {}

  // ---------- the `#` prefix

  function DropTrailingSpaces(s: string): string {
    if s != "" && s[|s| - 1] == ' ' then DropTrailingSpaces(s[..|s| - 1]) else s
  }

  predicate EndsWith(s: string, suffix: string) {
    |suffix| <= |s| && s[|s| - |suffix|..] == suffix
  }

  /** The text, up to right padding, ends in all the digits. */
  predicate ShowsDigits(text: string, digits: string) {
    EndsWith(DropTrailingSpaces(text), digits)
  }

  lemma {:induction false} DropPadding(s: string, n: nat)
    ensures DropTrailingSpaces(s + Repeat(' ', n)) == DropTrailingSpaces(s)
  {
    var t := s + Repeat(' ', n);
    if n == 0 {
      assert t == s;
    } else {
      assert t[..|t| - 1] == s + Repeat(' ', n - 1);
      DropPadding(s, n - 1);
    }
  }

  lemma {:induction false} NumeralLeads(v: nat, base: nat, limit: nat, upper: bool)
    requires 2 <= base <= 16 && 1 <= limit && 0 < v < Pow(base, limit)
    ensures 0 < DigitValue(Numeral(v, base, limit, upper)[0]) < base
    decreases limit
  {
    hide Pow, Numeral;
    var rest: nat := v / base;
    NumeralHead(v, base, limit, upper);
    if rest != 0 {
      QuotientBound(v, base, limit);
      NumeralLeads(rest, base, limit - 1, upper);
    }
  }

  lemma NumeralHead(v: nat, base: nat, limit: nat, upper: bool)
    requires 2 <= base <= 16 && 1 <= limit && 0 < v
    ensures v / base == 0 ==> 0 < DigitValue(Numeral(v, base, limit, upper)[0]) < base
    ensures v / base != 0 && limit != 1 ==>
      Numeral(v, base, limit, upper)[0] == Numeral(v / base, base, limit - 1, upper)[0]
  {
    DigitCharValue(v % base, upper);
  }

  lemma QuotientBound(v: nat, base: nat, limit: nat)
    requires 2 <= base && 1 <= limit && v < Pow(base, limit) && v / base != 0
    ensures limit != 1 && v / base < Pow(base, limit - 1)
  {
    var p := Pow(base, limit - 1);
    if p <= v / base {
      ScaleUp(v, base, p);
    }
    assert limit == 1 ==> p == 1;
  }

  /**
   When `#` leaves all digits alone: the field is not exactly as wide as the digits, and in base 16
   zero padding does not make it just one wider. An explicit precision always protects them.
   */
  predicate HashKeeps(digits: nat, base: nat, width: nat, flags: Flags) {
    flags.precision ||
    (width != digits && !(base == 16 && ZeroPadActive(flags) && width == digits + 1 <= SCRATCH))
  }

  predicate IsNonSpace(s: string) { forall i :: 0 <= i < |s| ==> s[i] != ' ' }

  lemma PrefixShape(s: string, base: nat, upper: bool)
    requires base in {2, 8, 16} && IsNonSpace(s)
    ensures EndsWith(BasePrefix(s, base, upper), s) && IsNonSpace(BasePrefix(s, base, upper))
    ensures BasePrefix(s, base, upper) != ""
    ensures base == 2 && |s| < SCRATCH ==> EndsWith(BasePrefix(s, base, upper), "b" + s)
    ensures base == 8 && |s| < SCRATCH ==> BasePrefix(s, base, upper) == "0" + s
    ensures base == 16 && |s| < SCRATCH - 1 ==> BasePrefix(s, base, upper) == "0" + ([if upper then 'X' else 'x'] + s)
  {
    var letter := if base == 16 then (if upper then "X" else "x") else if base == 2 then "b" else "";
    var t := if |s| < SCRATCH then letter + s else s;
    assert BasePrefix(s, base, upper) == Prepend('0', t);
    hide BasePrefix;
    assert "" + s == s;
    PrependEnds(s, t);
  }

  lemma PrependEnds(s: string, t: string)
    requires EndsWith(t, s) && IsNonSpace(t)
    ensures EndsWith(Prepend('0', t), s) && EndsWith(Prepend('0', t), t) && IsNonSpace(Prepend('0', t)) && Prepend('0', t) != ""
  {
    assert Prepend('0', t) == t || Prepend('0', t) == "0" + t;
  }

  lemma EndsWithTrans(a: string, b: string, c: string)
    requires EndsWith(a, b)
    requires |c| <= |b|
    ensures EndsWith(a, c) <==> EndsWith(b, c)
  {
    assert a[|a| - |c|..] == a[|a| - |b|..][|b| - |c|..];
  }

  lemma NotSuffix(s: string, suffix: string)
    requires 0 < |suffix| <= |s| && s[|s| - |suffix|] != suffix[0]
    ensures !EndsWith(s, suffix)
  {}

  lemma GivesUpDigits(digits: string, base: nat, width: nat, flags: Flags)
    requires base in {2, 8, 16} && !flags.precision && 0 < |digits| <= SCRATCH
    requires width == |digits| || (base == 16 && ZeroPadActive(flags) && width == |digits| + 1 <= SCRATCH)
    ensures GiveUp(PadZeros(digits, 0, width, flags), base, 0, width, flags) ==
      if base == 16 && width == |digits| > 1 then digits[2..] else digits[1..]
  {
    var padded := PadZeros(digits, 0, width, flags);
    ZerosShape(digits, 0, width, flags);
    if width == |digits| {
      assert padded == digits;
    } else {
      assert padded == "0" + digits;
    }
  }

  /** A prefix does not make up for a digit given up. */
  lemma PrefixHides(digits: string, kept: string, base: nat, upper: bool)
    requires base in {2, 8, 16} && 0 < |digits| <= SCRATCH && AllNumeral(digits)
    requires 0 < DigitValue(digits[0]) < base
    requires if base == 16 && |digits| == SCRATCH then kept == digits[2..]
             else kept == digits[1..] || (base == 16 && |digits| > 1 && kept == digits[2..])
    ensures !EndsWith(BasePrefix(kept, base, upper), digits)
  {
    hide BasePrefix, EndsWith;
    PrefixShape(kept, base, upper);
    if base == 2 {
      NotSuffix("b" + kept, digits);
      EndsWithTrans(BasePrefix(kept, base, upper), "b" + kept, digits);
    } else {
      NotSuffix(BasePrefix(kept, base, upper), digits);
    }
  }

  lemma HashGivesUp(digits: string, base: nat, width: nat, flags: Flags)
    requires base in {2, 8, 16} && flags.hash && !HashKeeps(|digits|, base, width, flags)
    requires 0 < |digits| <= SCRATCH && AllNumeral(digits) && 0 < DigitValue(digits[0]) < base
    ensures !EndsWith(AddPrefix(PadZeros(digits, 0, width, flags), base, 0, width, flags), digits)
  {
    hide GiveUp, PadZeros, ZeroPadActive, BasePrefix, EndsWith, DigitValue;
    GivesUpDigits(digits, base, width, flags);
    PrefixHides(digits, GiveUp(PadZeros(digits, 0, width, flags), base, 0, width, flags), base, flags.upper);
  }

  /** What `#` gives up is padding. */
  lemma GivesUpPadding(digits: string, base: nat, prec: nat, width: nat, flags: Flags)
    requires base in {2, 8, 16} && (!flags.precision ==> prec == 0)
    requires HashKeeps(|digits|, base, width, flags)
    requires 0 < |digits| <= SCRATCH
    ensures exists n: nat ::
      GiveUp(PadZeros(digits, prec, width, flags), base, prec, width, flags) == Repeat('0', n) + digits
  {
    var length := PaddedLength(|digits|, prec, width, flags);
    var padded := PadZeros(digits, prec, width, flags);
    ZerosShape(digits, prec, width, flags);
    var zeros: nat := length - |digits|;
    var dropped := if !flags.precision && length == width then (if base == 16 then 2 else 1) else 0;
    assert dropped <= zeros;
    hide PadZeros, PaddedLength;
    assert GiveUp(padded, base, prec, width, flags) == padded[dropped..];
    assert padded[dropped..] == Repeat('0', zeros - dropped) + digits;
  }

  lemma HashKeepsDigits(digits: string, base: nat, prec: nat, width: nat, flags: Flags)
    requires base in {2, 8, 16} && flags.hash && (!flags.precision ==> prec == 0)
    requires HashKeeps(|digits|, base, width, flags)
    requires 0 < |digits| <= SCRATCH && AllNumeral(digits)
    ensures EndsWith(AddPrefix(PadZeros(digits, prec, width, flags), base, prec, width, flags), digits)
  {
    GivesUpPadding(digits, base, prec, width, flags);
    var kept := GiveUp(PadZeros(digits, prec, width, flags), base, prec, width, flags);
    hide GiveUp, PadZeros, HashKeeps;
    var n: nat :| kept == Repeat('0', n) + digits;
    assert EndsWith(kept, digits) && IsNonSpace(kept);
    PrefixShape(kept, base, flags.upper);
    EndsWithTrans(BasePrefix(kept, base, flags.upper), kept, digits);
  }

  lemma PrefixNonSpace(digits: string, base: nat, prec: nat, width: nat, flags: Flags)
    requires base in {2, 8, 16} && flags.hash && AllNumeral(digits)
    ensures var body := AddPrefix(PadZeros(digits, prec, width, flags), base, prec, width, flags);
      IsNonSpace(body) && body != ""
  {
    ZerosShape(digits, prec, width, flags);
    var padded := PadZeros(digits, prec, width, flags);
    hide PadZeros;
    assert IsNonSpace(padded);
    var kept := GiveUp(padded, base, prec, width, flags);
    assert IsNonSpace(kept);
    PrefixShape(kept, base, flags.upper);
  }

  lemma PaddingHidesNothing(body: string, digits: string, width: nat, flags: Flags)
    requires body != "" && IsNonSpace(body) && digits != "" && AllNumeral(digits)
    ensures ShowsDigits(Justify(body, width, flags), digits) <==> EndsWith(body, digits)
  {
    var lead := Repeat(' ', LeadingSpaces(|body|, width, flags));
    var trail := TrailingSpaces(|body|, width, flags);
    JustifyShape(body, width, flags);
    hide Justify, LeadingSpaces, TrailingSpaces;
    DropPadding(lead + body, trail);
    assert (lead + body)[|lead + body| - 1] == body[|body| - 1];
    assert DropTrailingSpaces(lead + body) == lead + body;
    if |digits| <= |body| {
      assert EndsWith(lead + body, body);
      EndsWithTrans(lead + body, body, digits);
    } else if |digits| <= |lead + body| {
      NotSuffix(lead + body, digits);
    }
  }

  /** `HashLaw` for the flags word that `_ntoa_long` gets, and numbers that the scratch buffer can hold. */
  lemma HashText(value: nat, base: nat, prec: nat, width: nat, flags: Flags)
    requires base in {2, 8, 16} && 0 < value < Pow(base, SCRATCH)
    requires flags.hash && !flags.plus && !flags.space && (!flags.precision ==> prec == 0)
    ensures var digits := Numeral(value, base, SCRATCH, flags.upper);
      ShowsDigits(FormatInteger(value, false, base, prec, width, flags), digits)
      <==> HashKeeps(|digits|, base, width, flags)
  {
    hide Pow, Numeral, PadZeros, AddPrefix, Justify, HashKeeps, ShowsDigits;
    var digits := Numeral(value, base, SCRATCH, flags.upper);
    NumeralIsNumeral(value, base, SCRATCH, flags.upper);
    NumeralLeads(value, base, SCRATCH, flags.upper);
    var body := AddPrefix(PadZeros(digits, prec, width, flags), base, prec, width, flags);
    assert FormatInteger(value, false, base, prec, width, flags) == Justify(body, width, flags);
    hide FormatInteger;
    PrefixNonSpace(digits, base, prec, width, flags);
    PaddingHidesNothing(body, digits, width, flags);
    if HashKeeps(|digits|, base, width, flags) {
      HashKeepsDigits(digits, base, prec, width, flags);
    } else {
      ExplicitPrecisionKeeps(|digits|, base, width, flags);
      HashGivesUp(digits, base, width, flags);
    }
  }

  lemma ExplicitPrecisionKeeps(digits: nat, base: nat, width: nat, flags: Flags)
    ensures flags.precision ==> HashKeeps(digits, base, width, flags)
  {}

  /** A number below `base^k` has at most `k` digits, and any limit from `k` on gives the same ones. */
  lemma {:induction false} NumeralFits(v: nat, base: nat, k: nat, limit: nat, upper: bool)
    requires 2 <= base <= 16 && 1 <= k <= limit && v < Pow(base, k)
    ensures |Numeral(v, base, limit, upper)| <= k
    ensures Numeral(v, base, limit, upper) == Numeral(v, base, k, upper)
    decreases k
  {
    hide Pow;
    var rest: nat := v / base;
    if rest != 0 {
      QuotientBound(v, base, k);
      NumeralFits(rest, base, k - 1, limit - 1, upper);
    }
  }

  /** The digits of a numeral: the right ones for its base and case, without leading zeros, and of the right value. */
  lemma NumeralExact(v: nat, base: nat, limit: nat, upper: bool)
    requires 2 <= base <= 16 && 1 <= limit && v < Pow(base, limit)
    ensures var s := Numeral(v, base, limit, upper);
      && Value(s, base) == v && 1 <= |s| <= limit && (s[0] != '0' || s == "0")
      && forall i :: 0 <= i < |s| ==> IsDigitOf(s[i], base, upper)
  {
    NumeralDenotes(v, base, limit, upper);
    NumeralCharacters(v, base, limit, upper);
    hide Pow, Numeral;
    RemainderUnique(v, Pow(base, limit), 0, v);
    if v == 0 {
      NumeralOfZero(base, limit, upper);
    } else {
      NumeralLeads(v, base, limit, upper);
    }
  }

  lemma {:induction false} NumeralCharacters(v: nat, base: nat, limit: nat, upper: bool)
    requires 2 <= base <= 16 && 1 <= limit
    ensures forall i :: 0 <= i < |Numeral(v, base, limit, upper)| ==> IsDigitOf(Numeral(v, base, limit, upper)[i], base, upper)
    decreases limit
  {
    hide DigitChar, IsDigitOf;
    var rest: nat := v / base;
    InTable(v % base, base, upper);
    if rest != 0 && limit != 1 {
      NumeralCharacters(rest, base, limit - 1, upper);
    }
  }

  /** The first `base` of the written-out digits. */
  predicate IsDigitOf(c: char, base: nat, upper: bool)
    requires base <= 16
  {
    c in (if upper then "0123456789ABCDEF" else "0123456789abcdef")[..base]
  }

  lemma InTable(d: nat, base: nat, upper: bool)
    requires d < base <= 16
    ensures IsDigitOf(DigitChar(d, upper), base, upper)
  {
    DigitTable();
    assert DigitChar(d, upper) == (if upper then "0123456789ABCDEF" else "0123456789abcdef")[..base][d];
  }

  /** A number of at least `base^k` has more than `k` digits. */
  lemma {:induction false} NumeralIsLong(v: nat, base: nat, k: nat, limit: nat, upper: bool)
    requires 2 <= base <= 16 && k < limit && Pow(base, k) <= v
    ensures k < |Numeral(v, base, limit, upper)|
    decreases k
  {
    if k != 0 {
      QuotientReaches(v, base, Pow(base, k - 1));
      PowPositive(base, k - 1);
      hide Pow;
      var rest: nat := v / base;
      NumeralIsLong(rest, base, k - 1, limit - 1, upper);
    }
  }

  lemma QuotientReaches(v: nat, base: nat, p: nat)
    requires 0 < base && base * p <= v
    ensures p <= v / base
  {
    if v / base < p { MulMonotone(v / base + 1, p, base); }
  }

  lemma BodyFits(digits: string, base: nat, prec: nat, width: nat, flags: Flags)
    requires |digits| <= SCRATCH
    ensures |AddPrefix(PadZeros(digits, prec, width, flags), base, prec, width, flags)| <= SCRATCH
  {
    var padded := PadZeros(digits, prec, width, flags);
    assert |padded| <= SCRATCH;
    hide PadZeros;
    assert |GiveUp(padded, base, prec, width, flags)| <= SCRATCH;
  }

  /** More digits than the scratch buffer holds are not printed. */
  lemma TooLongToShow(value: nat, base: nat, prec: nat, width: nat, flags: Flags, digits: string)
    requires base in {2, 8, 16} && 0 < value
    requires flags.hash && !flags.plus && !flags.space
    requires SCRATCH < |digits| && AllNumeral(digits)
    ensures !ShowsDigits(FormatInteger(value, false, base, prec, width, flags), digits)
  {
    hide Numeral, PadZeros, AddPrefix, Justify, ShowsDigits;
    var stored := Numeral(value, base, SCRATCH, flags.upper);
    NumeralIsNumeral(value, base, SCRATCH, flags.upper);
    var body := AddPrefix(PadZeros(stored, prec, width, flags), base, prec, width, flags);
    assert FormatInteger(value, false, base, prec, width, flags) == Justify(body, width, flags);
    hide FormatInteger;
    PrefixNonSpace(stored, base, prec, width, flags);
    BodyFits(stored, base, prec, width, flags);
    PaddingHidesNothing(body, digits, width, flags);
  }

  /** No 64-bit number has more digits, in any base. */
  const MOST_DIGITS := 64

  lemma HashNumber(value: nat, base: nat, prec: nat, width: nat, flags: Flags)
    requires base in {2, 8, 16} && 0 < value
    requires flags.hash && !flags.plus && !flags.space && (!flags.precision ==> prec == 0)
    ensures var digits := Numeral(value, base, MOST_DIGITS, flags.upper);
      ShowsDigits(FormatInteger(value, false, base, prec, width, flags), digits)
      <==> |digits| <= SCRATCH && HashKeeps(|digits|, base, width, flags)
  {
    hide Pow, Numeral, FormatInteger, HashKeeps, ShowsDigits;
    if value < Pow(base, SCRATCH) {
      NumeralFits(value, base, SCRATCH, MOST_DIGITS, flags.upper);
      HashText(value, base, prec, width, flags);
    } else {
      NumeralIsLong(value, base, SCRATCH, MOST_DIGITS, flags.upper);
      NumeralIsNumeral(value, base, MOST_DIGITS, flags.upper);
      TooLongToShow(value, base, prec, width, flags, Numeral(value, base, MOST_DIGITS, flags.upper));
    }
  }

  /**
   Under `#`, all significant digits of a non-zero value are printed if and only if there are at
   most 32 of them and `HashKeeps`. (The engine passes precision 0 when the format gives none.)
   */
  lemma HashLaw(arg: Argument, conversion: char, prec: nat, width: nat, flags: Flags)
    requires conversion in "xXob" && KindOf(arg) == if IsWide(flags) then Kind64 else Kind32
    requires flags.hash && (!flags.precision ==> prec == 0)
    requires IntegerValue(arg, conversion, flags) != 0
    ensures var base := if conversion in "xX" then 16 else if conversion == 'o' then 8 else 2;
      var value := Magnitude(IntegerValue(arg, conversion, flags));
      var digits := Numeral(value, base, 64, flags.upper || conversion == 'X');
      && Value(digits, base) == value == IntegerValue(arg, conversion, flags)
      && (ShowsDigits(RenderInteger(arg, conversion, prec, width, flags), digits)
          <==> |digits| <= 32 &&
               (flags.precision ||
                (width != |digits| && !(base == 16 && flags.zeropad && !flags.left && width == |digits| + 1 <= 32))))
  {
    hide FormatInteger, ShowsDigits, HashKeeps, Numeral, Value, Pow, IntegerValue, Base, IntegerFlags;
    UnsignedValue(arg, conversion, flags);
    HashBase(conversion, flags);
    var value := IntegerValue(arg, conversion, flags);
    var flags' := IntegerFlags(flags, conversion);
    AllDigitsDenote(value, Base(conversion), flags'.upper);
    HashNumber(value, Base(conversion), prec, width, flags');
    KeepsRaw(|Numeral(value, Base(conversion), MOST_DIGITS, flags'.upper)|, conversion, width, flags);
  }

  lemma KeepsRaw(digits: nat, conversion: char, width: nat, flags: Flags)
    ensures var base := Base(conversion);
      HashKeeps(digits, base, width, IntegerFlags(flags, conversion))
      <==> flags.precision ||
           (width != digits && !(base == 16 && flags.zeropad && !flags.left && width == digits + 1 <= 32))
  {}

  lemma HashBase(conversion: char, flags: Flags)
    requires conversion in "xXob"
    ensures Base(conversion) == (if conversion in "xX" then 16 else if conversion == 'o' then 8 else 2)
    ensures var f := IntegerFlags(flags, conversion);
      && f.hash == flags.hash && !f.plus && !f.space && f.precision == flags.precision
      && f.upper == (flags.upper || conversion == 'X')
  {}

  lemma UnsignedValue(arg: Argument, conversion: char, flags: Flags)
    requires !IsSignedConversion(conversion) && KindOf(arg) == if IsWide(flags) then Kind64 else Kind32
    ensures 0 <= IntegerValue(arg, conversion, flags) < TWO_64
  {}

  lemma AllDigitsDenote(value: nat, base: nat, upper: bool)
    requires base in {2, 8, 16} && value < TWO_64
    ensures Value(Numeral(value, base, MOST_DIGITS, upper), base) == value
  {
    NumeralDenotes(value, base, MOST_DIGITS, upper);
    BinaryHolds(base);
    hide Pow;
    RemainderUnique(value, Pow(base, MOST_DIGITS), 0, value);
  }

  lemma BinaryHolds(base: nat)
    requires 2 <= base
    ensures TWO_64 <= Pow(base, MOST_DIGITS)
  {
    ScratchCapacityBinary();
    PowDouble(2, 32, TWO_32);
    PowGrows(2, base, MOST_DIGITS);
  }

  lemma {:induction false} PowGrows(a: nat, b: nat, n: nat)
    requires a <= b
    ensures Pow(a, n) <= Pow(b, n)
  {
    if n != 0 {
      PowGrows(a, b, n - 1);
      MulMonotone(a, b, Pow(a, n - 1));
      MulMonotone(Pow(a, n - 1), Pow(b, n - 1), b);
    }
  }

  lemma EightInOctal(limit: nat)
    requires 2 <= limit
    ensures Numeral(8, 8, limit, false) == "10"
  {
    assert Numeral(1, 8, limit - 1, false) == "1";
  }

  /** For example, `%#2o` prints 8, which is 10 in octal, as 00. */
  lemma HashStripsDigit()
    ensures var text := RenderInteger(Word32(8), 'o', 0, 2, NO_FLAGS.(hash := true));
      text == "00" && !ShowsDigits(text, Numeral(8, 8, MOST_DIGITS, false))
  {
    hide ShowsDigits, Numeral, Justify, AddPrefix, PadZeros;
    var flags := NO_FLAGS.(hash := true);
    EightInOctal(MOST_DIGITS);
    EightInOctal(SCRATCH);
    HashLaw(Word32(8), 'o', 0, 2, flags);
    TwoZeros(flags);
    assert RenderInteger(Word32(8), 'o', 0, 2, flags) == FormatDigits("10", false, 8, 0, 2, flags);
  }

  lemma TwoZeros(flags: Flags)
    requires flags == NO_FLAGS.(hash := true)
    ensures Justify(AddPrefix(PadZeros("10", 0, 2, flags), 8, 0, 2, flags), 2, flags) == "00"
  {
    assert PadZeros("10", 0, 2, flags) == "10";
    hide PadZeros;
    assert AddPrefix("10", 8, 0, 2, flags) == "00";
    hide AddPrefix;
    assert Repeat(' ', 0) + "00" == "00";
  }
}
