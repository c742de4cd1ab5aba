/**
 The formatting engine as the firmware runs it: loops over the format, a reversed scratch
 buffer per number, and an output function that is handed every character with its index
 (sw/device/lib/runtime/printf.c).
 */
module Printf {
  import opened Text
  import opened Digits
  import opened Directives
  import opened Rounding
  import opened Rendering

  /** `_out_buffer`, `_out_null`, and `_out_char` or `_out_fct`. */
  datatype OutFunction = OutBuffer | OutNull | OutChar

  /** The characters a character-wise output function passes on: everything but NUL. */
  function NonNul(s: string): string {
    if s == "" then "" else NonNul(s[..|s| - 1]) + (if s[|s| - 1] == '\0' then "" else [s[|s| - 1]])
  }

  lemma NonNulSnoc(s: string, c: char)
    ensures NonNul(s + [c]) == NonNul(s) + (if c == '\0' then "" else [c])
  {
    assert (s + [c])[..|s|] == s;
  }

  lemma {:induction false} NonNulConcat(s: string, t: string)
    ensures NonNul(s + t) == NonNul(s) + NonNul(t)
    decreases |t|
  {
    if t == "" {
      assert s + t == s;
    } else {
      var front, c := t[..|t| - 1], t[|t| - 1];
      assert s + t == (s + front) + [c] && t == front + [c];
      NonNulConcat(s, front);
      hide NonNul;
      NonNulSnoc(s + front, c);
      NonNulSnoc(front, c);
    }
  }

  lemma {:induction false} NonNulKeeps(s: string)
    requires '\0' !in s
    ensures NonNul(s) == s
  {
    if s != "" {
      var front, c := s[..|s| - 1], s[|s| - 1];
      assert s == front + [c];
      NonNulKeeps(front);
    }
  }

  /** All characters but NUL, in their order. */
  lemma NonNulLaws(s: string, t: string)
    ensures NonNul("") == "" && NonNul("\0") == "" && NonNul(s + t) == NonNul(s) + NonNul(t)
    ensures '\0' !in s ==> NonNul(s) == s
  {
    assert NonNul("") == "";
    NonNulSnoc("", '\0');
    assert "" + "\0" == "\0";
    hide NonNul;
    NonNulConcat(s, t);
    if '\0' !in s { NonNulKeeps(s); }
  }

  /** An output function together with the buffer and limit that every call passes to it. */
  class Sink {
    const out: OutFunction
    const buffer: array?<char>
    const maxlen: nat
    /** Characters handed to `_putchar` or to the callback. */
    var delivered: string
    /** Every character of the text so far; `idx` is its length. */
    ghost var sent: string
    ghost const initial: string

    ghost predicate Valid()
      reads this, buffer
    {
      && (out.OutBuffer? ==> buffer != null && maxlen <= buffer.Length)
      && (buffer != null ==>
            && |initial| == buffer.Length
            && forall i :: 0 <= i < buffer.Length ==>
                 buffer[i] == if out.OutBuffer? && i < Min(|sent|, maxlen) then sent[i] else initial[i])
      && delivered == if out.OutChar? then NonNul(sent) else ""
    }

    constructor (out: OutFunction, buffer: array?<char>, maxlen: nat)
      requires out.OutBuffer? ==> buffer != null && maxlen <= buffer.Length
      ensures Valid() && sent == ""
      ensures this.out == out && this.buffer == buffer && this.maxlen == maxlen
      ensures initial == if buffer == null then "" else buffer[..]
    {
      this.out, this.buffer, this.maxlen := out, buffer, maxlen;
      delivered, sent, initial := "", "", if buffer == null then "" else buffer[..];
    }

    /** One call of the output function. */
    method Out(c: char, idx: nat)
      requires out.OutBuffer? ==> buffer != null && maxlen <= buffer.Length
      modifies this`delivered, buffer
      ensures delivered == old(delivered) + if out.OutChar? && c != '\0' then [c] else ""
      ensures buffer != null ==> forall i :: 0 <= i < buffer.Length ==>
        buffer[i] == if out.OutBuffer? && i == idx < maxlen then c else old(buffer[i])
    {
      match out {
        case OutBuffer => if idx < maxlen { buffer[idx] := c; }
        case OutNull =>
        case OutChar => if c != '\0' { delivered := delivered + [c]; }
      }
    }

    /** `out(c, buffer, idx++, maxlen)` */
    method Emit(c: char, idx: nat) returns (next: nat)
      requires Valid() && idx == |sent|
      modifies this, buffer
      ensures Valid() && sent == old(sent) + [c] && next == |sent|
    {
      Out(c, idx);
      NonNulSnoc(sent, c);
      sent := sent + [c];
      next := idx + 1;
    }
  }

  /** What a reversed scratch buffer holds, read forwards. */
  function Forward(buf: array<char>, len: nat): string
    requires len <= buf.Length
    reads buf
  {
    Reverse(buf[..len])
  }

  /** `_out_rev` */
  method OutRev(sink: Sink, idx: nat, buf: array<char>, len: nat, width: nat, flags: Flags) returns (next: nat)
    requires sink.Valid() && idx == |sink.sent|
    requires len <= buf.Length && buf != sink.buffer
    modifies sink, sink.buffer
    ensures sink.Valid() && next == |sink.sent|
    ensures sink.sent == old(sink.sent) + Justify(old(Forward(buf, len)), width, flags)
  {
    hide Sink.Valid;
    next := idx;
    ghost var start := sink.sent;
    ghost var body := Reverse(buf[..len]);
    ghost var lead := if !flags.left && !flags.zeropad then Excess(width, len) else 0;

    // right-justified with spaces: they come first
    if !flags.left && !flags.zeropad {
      var i := len;
      while i < width
        invariant len <= i && (i <= width || i == len)
        invariant sink.Valid() && next == |sink.sent| && sink.sent == start + Repeat(' ', i - len)
        invariant buf[..len] == old(buf[..len])
      {
        next := sink.Emit(' ', next);
        i := i + 1;
      }
    }
    assert sink.sent == start + Repeat(' ', lead);

    // the scratch buffer starts with the last character
    var k := len;
    while 0 < k
      invariant k <= len
      invariant sink.Valid() && next == |sink.sent|
      invariant sink.sent == start + Repeat(' ', lead) + body[..len - k]
      invariant buf[..len] == old(buf[..len])
    {
      k := k - 1;
      assert buf[k] == buf[..len][k];
      next := sink.Emit(buf[k], next);
      assert body[..len - k] == body[..len - k - 1] + [body[len - k - 1]];
    }
    assert body[..len] == body;

    // left-justified: the spaces come last
    if flags.left {
      while next - idx < width
        invariant sink.Valid() && next == |sink.sent| && idx + len <= next && (next - idx <= width || next == idx + len)
        invariant sink.sent == start + body + Repeat(' ', next - idx - len)
      {
        next := sink.Emit(' ', next);
      }
    }
  }

  /** `buf[len++] = c` */
  method Push(buf: array<char>, len: nat, c: char) returns (len': nat)
    requires len < buf.Length
    modifies buf
    ensures len' == len + 1 && Forward(buf, len') == [c] + old(Forward(buf, len))
  {
    buf[len] := c;
    len' := len + 1;
    assert buf[..len'] == old(buf[..len]) + [c];
  }

  /** The two loops that extend the digits with zeros (printf.c:208-209). */
  method PushZeros(buf: array<char>, len: nat, target: nat) returns (len': nat)
    requires len <= SCRATCH == buf.Length
    modifies buf
    ensures len <= len' <= SCRATCH && Forward(buf, len') == ZeroFill(old(Forward(buf, len)), target)
  {
    len' := len;
    ghost var digits := Forward(buf, len);
    assert |digits| == len;
    ZerosBefore(digits, 0);
    hide Forward, ZeroFill, Repeat;
    while len' < target && len' < SCRATCH
      invariant len <= len' <= SCRATCH && (len' <= target || len' == len)
      invariant Forward(buf, len') == Repeat('0', len' - len) + digits
    {
      len' := Push(buf, len', '0');
      ZerosBefore(digits, len' - 1 - len);
    }
    ZeroFillIs(digits, target, len' - len);
  }

  lemma ZerosBefore(s: string, n: nat)
    ensures ['0'] + (Repeat('0', n) + s) == Repeat('0', n + 1) + s
    ensures Repeat('0', 0) + s == s
  {}

  lemma ZeroFillIs(s: string, target: nat, n: nat)
    requires n == Excess(Min(target, SCRATCH), |s|)
    ensures ZeroFill(s, target) == Repeat('0', n) + s
  {}

  /** The characters that `#` gives up (printf.c:214-217); `len` is all that changes. */
  method DropDigits(buf: array<char>, len: nat, base: nat, prec: nat, width: nat, flags: Flags) returns (len': nat)
    requires len <= SCRATCH == buf.Length
    ensures len' <= len && Forward(buf, len') == GiveUp(Forward(buf, len), base, prec, width, flags)
  {
    len' := len;
    if !flags.precision && len' != 0 && (len' == prec || len' == width) {
      len' := len' - 1;
      if len' != 0 && base == 16 { len' := len' - 1; }
    }
  }

  /** The `#` prefix (printf.c:213-226). */
  method PushPrefix(buf: array<char>, len: nat, base: nat, prec: nat, width: nat, flags: Flags) returns (len': nat)
    requires len <= SCRATCH == buf.Length && flags.hash
    modifies buf
    ensures len' <= SCRATCH
    ensures Forward(buf, len') == AddPrefix(old(Forward(buf, len)), base, prec, width, flags)
  {
    hide GiveUp, Forward;
    len' := DropDigits(buf, len, base, prec, width, flags);
    ForwardLength(buf, len');
    if base == 16 && !flags.upper && len' < SCRATCH {
      len' := Push(buf, len', 'x');
    } else if base == 16 && flags.upper && len' < SCRATCH {
      len' := Push(buf, len', 'X');
    } else if base == 2 && len' < SCRATCH {
      len' := Push(buf, len', 'b');
    }
    ForwardLength(buf, len');
    if len' < SCRATCH { len' := Push(buf, len', '0'); }
  }

  /** The sign (printf.c:228-236). */
  method PushSign(buf: array<char>, len: nat, negative: bool, flags: Flags) returns (len': nat)
    requires len <= SCRATCH == buf.Length
    modifies buf
    ensures len' <= SCRATCH && Forward(buf, len') == AddSign(old(Forward(buf, len)), negative, flags)
  {
    len' := len;
    if len' < SCRATCH {
      if negative {
        len' := Push(buf, len', '-');
      } else if flags.plus {
        len' := Push(buf, len', '+'); // this wins over a space
      } else if flags.space {
        len' := Push(buf, len', ' ');
      }
    }
  }

  /** `_ntoa_format` */
  method NtoaFormat(sink: Sink, idx: nat, buf: array<char>, len0: nat, negative: bool, base: nat, prec: nat,
                    width0: nat, flags: Flags) returns (next: nat)
    requires sink.Valid() && idx == |sink.sent|
    requires len0 <= SCRATCH == buf.Length && buf != sink.buffer
    modifies sink, sink.buffer, buf
    ensures sink.Valid() && next == |sink.sent|
    ensures sink.sent
         == old(sink.sent) + FormatDigits(old(Forward(buf, len0)), negative, base, prec, width0, flags)
  {
    hide Sink.Valid, Forward;
    var len, width := len0, width0;
    // zeros, first for the precision, then for the width
    if !flags.left {
      if width != 0 && flags.zeropad && (negative || flags.plus || flags.space) { width := width - 1; }
      len := PushZeros(buf, len, prec);
      if flags.zeropad { len := PushZeros(buf, len, width); }
    }
    if flags.hash { len := PushPrefix(buf, len, base, prec, width, flags); }
    len := PushSign(buf, len, negative, flags);
    next := OutRev(sink, idx, buf, len, width, flags);
  }

  /** `_ntoa_long` and `_ntoa_long_long`: repeated division fills the scratch buffer from the last digit. */
  method Ntoa(sink: Sink, idx: nat, value: nat, negative: bool, base: nat, prec: nat, width: nat, flags0: Flags)
    returns (next: nat)
    requires sink.Valid() && idx == |sink.sent| && 2 <= base <= 16
    modifies sink, sink.buffer
    ensures sink.Valid() && next == |sink.sent|
    ensures sink.sent == old(sink.sent) + FormatInteger(value, negative, base, prec, width, flags0)
  {
    hide FormatDigits, ConversionDigits, Forward, Sink.Valid;
    var buf := new char[SCRATCH];
    // zero has no prefix
    var flags := if value == 0 then flags0.(hash := false) else flags0;
    var len := WriteDigits(buf, value, base, flags0);
    next := NtoaFormat(sink, idx, buf, len, negative, base, prec, width, flags);
  }

  /** The digits, unless the precision is explicit and the value is 0 (printf.c:250-257). */
  method WriteDigits(buf: array<char>, value: nat, base: nat, flags: Flags) returns (len: nat)
    requires buf.Length == SCRATCH && 2 <= base <= 16
    modifies buf
    ensures len <= SCRATCH && Forward(buf, len) == ConversionDigits(value, base, flags)
  {
    hide Numeral;
    len := 0;
    if !flags.precision || value != 0 { len := FillDigits(buf, value, base, flags.upper); }
  }

  /** The digit loop (printf.c:252-256): at least one round, then until the value or the room runs out. */
  method FillDigits(buf: array<char>, value0: nat, base: nat, upper: bool) returns (len: nat)
    requires buf.Length == SCRATCH && 2 <= base <= 16
    modifies buf
    ensures len <= SCRATCH && Forward(buf, len) == Numeral(value0, base, SCRATCH, upper)
  {
    assert Forward(buf, 0) == "";
    hide Numeral, Remaining, DigitChar, Forward;
    var value;
    FirstRound(value0, base, SCRATCH, upper, "");
    len, value := PushDigit(buf, 0, value0, base, upper);
    while value != 0 && len < SCRATCH
      invariant 1 <= len <= SCRATCH
      invariant Numeral(value0, base, SCRATCH, upper) == Remaining(value, base, SCRATCH - len, upper, Forward(buf, len))
      decreases SCRATCH - len
    {
      NextRound(value, base, SCRATCH - len, upper, Forward(buf, len));
      len, value := PushDigit(buf, len, value, base, upper);
    }
    NoRound(value, base, SCRATCH - len, upper, Forward(buf, len));
  }

  /** One round of the digit loop (printf.c:253-255). */
  method PushDigit(buf: array<char>, len: nat, value: nat, base: nat, upper: bool) returns (len': nat, value': nat)
    requires len < SCRATCH == buf.Length && 2 <= base <= 16
    modifies buf
    ensures len' == len + 1 && value' == value / base
    ensures Forward(buf, len') == [DigitChar(value % base, upper)] + old(Forward(buf, len))
  {
    hide Forward;
    var digit := value % base;
    len' := Push(buf, len, if digit < 10 then '0' + digit as char else (if upper then 'A' else 'a') + (digit - 10) as char);
    value' := value / base;
  }

  // ---------- fixed-point numbers

  /** Digits of a number, from the last, as long as there is room (printf.c:366-370 and 380-383). */
  method PushNumeral(buf: array<char>, len0: nat, n0: nat) returns (len: nat)
    requires len0 <= SCRATCH == buf.Length
    modifies buf
    ensures len0 <= len <= SCRATCH
    ensures Forward(buf, len) == PrependNumeral(n0, old(Forward(buf, len0)))
    ensures |Forward(buf, len)| == len
  {
    hide Numeral, Remaining, Forward, DigitChar;
    var n;
    len := len0;
    if len < SCRATCH {
      ForwardLength(buf, len0);
      FirstRound(n0, 10, SCRATCH - len, false, Forward(buf, len));
      len, n := PushDigit(buf, len, n0, 10, false);
      while n != 0 && len < SCRATCH
        invariant len0 <= len <= SCRATCH
        invariant Remaining(n, 10, SCRATCH - len, false, Forward(buf, len))
               == PrependNumeral(n0, old(Forward(buf, len0)))
        decreases SCRATCH - len
      {
        NextRound(n, 10, SCRATCH - len, false, Forward(buf, len));
        len, n := PushDigit(buf, len, n, 10, false);
      }
      NoRound(n, 10, SCRATCH - len, false, Forward(buf, len));
    }
    ForwardLength(buf, len);
  }

  lemma ForwardLength(buf: array<char>, len: nat)
    requires len <= buf.Length
    ensures |Forward(buf, len)| == len
  {}

  /** The fraction and the decimal point (printf.c:364-377). */
  method PushFraction(buf: array<char>, len0: nat, frac0: nat, prec: nat) returns (len: nat)
    requires len0 <= SCRATCH == buf.Length
    modifies buf
    ensures len0 <= len <= SCRATCH
    ensures Forward(buf, len) == PrependFraction(frac0, prec, old(Forward(buf, len0)))
  {
    hide Forward, PrependNumeral, ZeroFill;
    ForwardLength(buf, len0);
    len := PushNumeral(buf, len0, frac0);
    // one place is used up for every digit
    var count := (prec - (len - len0)) % TWO_32;
    // `count` more places, as far as there is room
    len := PushZeros(buf, len, len + count);
    ForwardLength(buf, len);
    if len < SCRATCH { len := Push(buf, len, '.'); }
  }

  /**
   Rounding to `prec` places (printf.c:338-363): to the nearest, to even without places, and with
   the carry forgotten on the topmost tie.
   */
  method RoundTo(v: real, prec: nat) returns (whole: nat, frac: nat)
    requires 0.0 <= v && prec < |POW10|
    ensures IsRounded(Fixed(whole, frac), v, prec)
    ensures Fixed(whole, frac) == Round(v, prec)
  {
    hide IsRounded, Scale, ScaledFraction, POW10;
    RoundIsRounded(v, prec);
    ScaledFractionBounds(v, prec);
    TableFraction(v, prec);
    TableOfTens(prec);
    whole := v.Floor;
    var tmp := (v - whole as real) * POW10[prec] as real;
    assert tmp == ScaledFraction(v, prec);
    frac := tmp.Floor;
    var diff := tmp - frac as real;
    if diff > 0.5 {
      frac := frac + 1;
      // carry into the whole part
      if frac >= POW10[prec] { frac, whole := 0, whole + 1; }
    } else if diff < 0.5 {
    } else if frac == 0 || frac % 2 == 1 {
      // a tie, and no carry
      frac := frac + 1;
    }
    if prec == 0 {
      diff := v - whole as real;
      if (!(diff < 0.5) || diff > 0.5) && whole % 2 == 1 { whole := whole + 1; }
    }
    assert Fixed(whole, frac) == Round(v, prec);
  }

  /** With no digits asked for, `_ntoa_format` lays a number out like `_ftoa`. */
  lemma FtoaLayout(body: string, negative: bool, width: nat, flags: Flags)
    ensures var w := DigitWidth(negative, width, flags);
      FormatDigits(body, negative, 10, 0, width, flags.(hash := false))
        == Justify(AddSign(if ZeroPadActive(flags) then ZeroFill(body, w) else body, negative, flags), w, flags)
  {
    assert ZeroFill(body, 0) == body;
    hide ZeroFill;
  }

  /** `_ftoa` in its own range. */
  method Ftoa(sink: Sink, idx: nat, value0: real, prec0: nat, width0: nat, flags: Flags) returns (next: nat)
    requires sink.Valid() && idx == |sink.sent|
    requires FloatInRange(value0, prec0, flags)
    modifies sink, sink.buffer
    ensures sink.Valid() && next == |sink.sent|
    ensures sink.sent == old(sink.sent) + RenderFloat(value0, prec0, width0, flags)
  {
    hide FormatDigits, FixedText, Justify, AddSign, ZeroFill, Forward, Sink.Valid, DigitWidth, ZeroPadActive;
    var buf := new char[SCRATCH];
    var len, value, width := 0, value0, width0;
    var negative := value < 0.0;
    if negative { value := 0.0 - value; }
    var prec := if flags.precision then prec0 else DEFAULT_PRECISION;
    len := WriteFixed(buf, value, prec);
    FtoaLayout(Forward(buf, len), negative, width, flags);
    len, width := PadFixed(buf, len, negative, width, flags);
    next := OutRev(sink, idx, buf, len, width, flags);
  }

  /** Leading zeros and the sign (printf.c:385-399). */
  method PadFixed(buf: array<char>, len0: nat, negative: bool, width0: nat, flags: Flags) returns (len: nat, width: nat)
    requires len0 <= SCRATCH == buf.Length
    modifies buf
    ensures len <= SCRATCH && width == DigitWidth(negative, width0, flags)
    ensures var body := old(Forward(buf, len0));
      Forward(buf, len) == AddSign(if ZeroPadActive(flags) then ZeroFill(body, width) else body, negative, flags)
  {
    hide Forward, AddSign, ZeroFill;
    len, width := len0, width0;
    if !flags.left && flags.zeropad {
      if width != 0 && (negative || flags.plus || flags.space) { width := width - 1; }
      len := PushZeros(buf, len, width);
    }
    len := PushSign(buf, len, negative, flags);
  }

  /** Everything up to the sign (printf.c:331-383). */
  method WriteFixed(buf: array<char>, value: real, prec0: nat) returns (len: nat)
    requires buf.Length == SCRATCH && 0.0 <= value && prec0 <= 41
    modifies buf
    ensures len <= SCRATCH && Forward(buf, len) == FixedText(value, prec0)
  {
    hide Forward, Round, PrependFraction, PrependNumeral, Repeat;
    var prec;
    len, prec := LimitPrecision(buf, prec0);
    var whole, frac := RoundTo(value, prec);
    if prec != 0 { len := PushFraction(buf, len, frac, prec); }
    len := PushNumeral(buf, len, whole);
  }

  /** Precisions beyond 9 become trailing zeros (printf.c:333-336). */
  method LimitPrecision(buf: array<char>, prec0: nat) returns (len: nat, prec: nat)
    requires buf.Length == SCRATCH && prec0 <= 41
    modifies buf
    ensures len <= SCRATCH && prec == Min(prec0, 9)
    ensures Forward(buf, len) == Repeat('0', Excess(prec0, 9))
  {
    prec := prec0;
    len := 0;
    while len < SCRATCH && prec > 9
      invariant len <= SCRATCH && prec + len == prec0 && (prec0 > 9 ==> 9 <= prec) && (prec0 <= 9 ==> len == 0)
      invariant Forward(buf, len) == Repeat('0', len)
    {
      len := Push(buf, len, '0');
      prec := prec - 1;
    }
  }

  // ---------- directive parsing

  /** `_atoi`: reads the digits at position `p` of the format. */
  method AtoiAt(fmt: string, p: nat) returns (i: uint32, next: nat)
    requires p <= |fmt|
    ensures next == p + DigitRun(fmt[p..]) && i == Atoi(fmt[p..next])
  {
    i, next := 0, p;
    while IsDigit(At(fmt, next))
      invariant p <= next <= |fmt|
      invariant DigitRun(fmt[p..]) == next - p + DigitRun(fmt[next..])
      invariant i == Atoi(fmt[p..next])
      decreases |fmt| - next
    {
      assert fmt[next..][1..] == fmt[next + 1..];
      assert fmt[p..next + 1][..next - p] == fmt[p..next];
      i := (i * 10 + (fmt[next] - '0') as nat) % TWO_32;
      next := next + 1;
    }
  }

  /** The flag loop (printf.c:532-564). */
  method ReadFlags(fmt: string, p: nat) returns (flags: Flags, next: nat)
    requires p <= |fmt|
    ensures next == p + FlagRun(fmt[p..]) && flags == FlagsOf(fmt[p..next])
  {
    hide AddFlag;
    flags, next := NO_FLAGS, p;
    while next < |fmt| && IsFlag(fmt[next])
      invariant p <= next <= |fmt|
      invariant FlagRun(fmt[p..]) == next - p + FlagRun(fmt[next..])
      invariant flags == FlagsOf(fmt[p..next])
    {
      assert fmt[next..][1..] == fmt[next + 1..];
      assert fmt[p..next + 1][..next - p] == fmt[p..next];
      flags := AddFlag(flags, fmt[next]);
      next := next + 1;
    }
  }

  /** The width field (printf.c:567-579). */
  method ReadWidth(fmt: string, p: nat, args: seq<Argument>, k: nat, flags0: Flags)
    returns (flags: Flags, width: uint32, next: nat, k': nat)
    requires p <= |fmt| && k <= |args|
    requires Supplies(args[k..], CountKinds(ParseCount(fmt[p..]).0))
    ensures (flags, width) == EvalWidth(ParseCount(fmt[p..]).0, flags0, args[k..])
    ensures next == p + ParseCount(fmt[p..]).1
    ensures k' == k + |CountKinds(ParseCount(fmt[p..]).0)|
  {
    flags, width, next, k' := flags0, 0, p, k;
    if IsDigit(At(fmt, p)) {
      width, next := AtoiAt(fmt, p);
      assert fmt[p..][..DigitRun(fmt[p..])] == fmt[p..next];
    } else if At(fmt, p) == '*' {
      assert args[k..][0] == args[k];
      var w := Signed(args[k].u32, TWO_32);
      if w < 0 {
        flags := flags.(left := true); // a negative width means left justification
        width := -w;
      } else {
        width := w;
      }
      next, k' := next + 1, k + 1;
    }
  }

  /** A precision after its dot (printf.c:586-592). */
  method ReadPrecisionCount(fmt: string, p: nat, args: seq<Argument>, k: nat)
    returns (precision: uint32, next: nat, k': nat)
    requires p <= |fmt| && k <= |args|
    requires Supplies(args[k..], CountKinds(ParseCount(fmt[p..]).0))
    ensures precision == EvalPrecision(ParseCount(fmt[p..]).0, args[k..])
    ensures next == p + ParseCount(fmt[p..]).1
    ensures k' == k + |CountKinds(ParseCount(fmt[p..]).0)|
  {
    precision, next, k' := 0, p, k;
    if IsDigit(At(fmt, p)) {
      precision, next := AtoiAt(fmt, p);
      assert fmt[p..][..DigitRun(fmt[p..])] == fmt[p..next];
    } else if At(fmt, p) == '*' {
      assert args[k..][0] == args[k];
      var prec := Signed(args[k].u32, TWO_32);
      precision := if prec > 0 then prec else 0;
      next, k' := next + 1, k + 1;
    }
  }

  /** The precision field (printf.c:582-593); `dot` is the new `FLAGS_PRECISION` bit. */
  method ReadPrecision(fmt: string, p: nat, args: seq<Argument>, k: nat)
    returns (dot: bool, precision: uint32, next: nat, k': nat)
    requires p <= |fmt| && k <= |args|
    requires Supplies(args[k..], CountKinds(ParsePrecision(fmt[p..]).1))
    ensures dot == ParsePrecision(fmt[p..]).0
    ensures precision == EvalPrecision(ParsePrecision(fmt[p..]).1, args[k..])
    ensures next == p + ParsePrecision(fmt[p..]).2
    ensures k' == k + |CountKinds(ParsePrecision(fmt[p..]).1)|
  {
    hide ParseCount, Supplies;
    dot, precision, next, k' := false, 0, p, k;
    if At(fmt, p) == '.' {
      dot := true;
      assert fmt[p..][1..] == fmt[p + 1..];
      precision, next, k' := ReadPrecisionCount(fmt, p + 1, args, k);
    }
  }

  /** The length field (printf.c:596-629). */
  method ReadLength(fmt: string, p: nat) returns (length: Length, next: nat)
    requires p <= |fmt|
    ensures (length, next) == (ParseLength(fmt[p..]).0, p + ParseLength(fmt[p..]).1)
  {
    length, next := NoLength, p;
    match At(fmt, next) {
      case 'l' =>
        length, next := L, next + 1;
        if At(fmt, next) == 'l' { length, next := LL, next + 1; }
      case 'h' =>
        length, next := H, next + 1;
        if At(fmt, next) == 'h' { length, next := HH, next + 1; }
      case 't' => length, next := L, next + 1;
      case 'j' => length, next := L, next + 1;
      case 'z' => length, next := L, next + 1;
      case _ =>
    }
  }

  // ---------- conversions

  /** Base and flags of an integer conversion (printf.c:640-659). */
  method AdjustFlags(conversion: char, flags0: Flags) returns (base: nat, flags: Flags)
    requires IsIntegerConversion(conversion)
    ensures base == Base(conversion) && flags == IntegerFlags(flags0, conversion)
  {
    flags := flags0;
    if conversion == 'x' || conversion == 'X' {
      base := 16;
    } else if conversion == 'o' {
      base := 8;
    } else if conversion == 'b' {
      base := 2;
    } else {
      base := 10;
      flags := flags.(hash := false);
    }
    if conversion == 'X' { flags := flags.(upper := true); }
    if conversion != 'i' && conversion != 'd' { flags := flags.(plus := false, space := false); }
    if flags.precision { flags := flags.(zeropad := false); }
  }

  /** The argument of `%d` and `%i` (printf.c:664-681); `char` is unsigned. */
  method FetchSigned(arg: Argument, conversion: char, flags: Flags) returns (value: int)
    requires IsSignedConversion(conversion) && KindOf(arg) == if IsWide(flags) then Kind64 else Kind32
    ensures value == IntegerValue(arg, conversion, flags)
  {
    match flags.length {
      case LL => value := Signed(arg.u64, TWO_64);
      case L => value := Signed(arg.u64, TWO_64);
      case HH => value := arg.u32 % TWO_8;
      case H => value := Signed(arg.u32 % TWO_16, TWO_16);
      case NoLength => value := Signed(arg.u32, TWO_32);
    }
  }

  /** The argument of the other integer conversions (printf.c:683-696). */
  method FetchUnsigned(arg: Argument, conversion: char, flags: Flags) returns (value: nat)
    requires !IsSignedConversion(conversion) && KindOf(arg) == if IsWide(flags) then Kind64 else Kind32
    ensures value == IntegerValue(arg, conversion, flags)
  {
    match flags.length {
      case LL => value := arg.u64;
      case L => value := arg.u64;
      case HH => value := arg.u32 % TWO_8;
      case H => value := arg.u32 % TWO_16;
      case NoLength => value := arg.u32;
    }
  }

  /** The integer conversions (printf.c:633-699). */
  method PrintInteger(sink: Sink, idx: nat, arg: Argument, conversion: char, prec: uint32, width: uint32, flags0: Flags)
    returns (next: nat)
    requires sink.Valid() && idx == |sink.sent|
    requires IsIntegerConversion(conversion) && KindOf(arg) == if IsWide(flags0) then Kind64 else Kind32
    modifies sink, sink.buffer
    ensures sink.Valid() && next == |sink.sent|
    ensures sink.sent == old(sink.sent) + RenderInteger(arg, conversion, prec, width, flags0)
  {
    hide FormatInteger, Sink.Valid, IntegerFlags, Base, IntegerValue;
    var base, flags := AdjustFlags(conversion, flags0);
    if conversion == 'i' || conversion == 'd' {
      var value := FetchSigned(arg, conversion, flags0);
      next := Ntoa(sink, idx, if value > 0 then value else 0 - value, value < 0, base, prec, width, flags);
    } else {
      var value := FetchUnsigned(arg, conversion, flags0);
      next := Ntoa(sink, idx, value, false, base, prec, width, flags);
    }
  }

  /** The padding loop of `%c` and `%s`: `while (l++ < width) out(' ', ...)`. */
  method PadSpaces(sink: Sink, idx: nat, from: nat, width: nat) returns (next: nat)
    requires sink.Valid() && idx == |sink.sent|
    modifies sink, sink.buffer
    ensures sink.Valid() && next == |sink.sent|
    ensures sink.sent == old(sink.sent) + Repeat(' ', Excess(width, from))
  {
    hide Sink.Valid;
    next := idx;
    var l := from;
    while l < width
      invariant from <= l && (l <= width || l == from)
      invariant sink.Valid() && next == |sink.sent| && sink.sent == old(sink.sent) + Repeat(' ', l - from)
    {
      next := sink.Emit(' ', next);
      l := l + 1;
    }
  }

  /** `%c` (printf.c:719-733) */
  method PrintChar(sink: Sink, idx: nat, arg: uint32, width: uint32, flags: Flags) returns (next: nat)
    requires sink.Valid() && idx == |sink.sent|
    modifies sink, sink.buffer
    ensures sink.Valid() && next == |sink.sent|
    ensures sink.sent == old(sink.sent) + RenderChar(arg, width, flags)
  {
    hide Sink.Valid;
    next := idx;
    if !flags.left { next := PadSpaces(sink, next, 1, width); }
    next := sink.Emit((arg % TWO_8) as char, next);
    if flags.left { next := PadSpaces(sink, next, 1, width); }
  }

  /** `_strnlen_s` */
  method Strnlen(text: cstring, maxsize0: uint64) returns (l: uint32)
    ensures l == Min(|text|, maxsize0) % TWO_32
  {
    var i, maxsize := 0, maxsize0;
    while At(text, i) != '\0' && maxsize != 0
      invariant i <= |text| && i + maxsize == maxsize0
      decreases maxsize
    {
      assert i < |text|;
      i, maxsize := i + 1, maxsize - 1;
    }
    assert i < |text| ==> text[i] in text;
    l := i % TWO_32;
  }

  /** `%s` (printf.c:735-751) */
  method PrintText(sink: Sink, idx: nat, text: cstring, prec: uint32, width: uint32, flags: Flags) returns (next: nat)
    requires sink.Valid() && idx == |sink.sent|
    modifies sink, sink.buffer
    ensures sink.Valid() && next == |sink.sent|
    ensures sink.sent == old(sink.sent) + RenderText(text, prec, width, flags)
  {
    hide Sink.Valid, Justify;
    next := idx;
    var l := Strnlen(text, if prec != 0 then prec else TWO_64 - 1);
    if flags.precision { l := if l < prec then l else prec; }
    assert l == ShownLength(text, prec, flags);
    hide ShownLength;
    if flags.left {
      next := PrintPrefix(sink, next, text, prec, flags);
      next := PadSpaces(sink, next, l, width);
    } else {
      next := PadSpaces(sink, next, l, width);
      next := PrintPrefix(sink, next, text, prec, flags);
    }
  }

  /** The output loop of `%s` (printf.c:744). */
  method PrintPrefix(sink: Sink, idx: nat, text: cstring, prec: uint32, flags: Flags) returns (next: nat)
    requires sink.Valid() && idx == |sink.sent|
    modifies sink, sink.buffer
    ensures sink.Valid() && next == |sink.sent|
    ensures sink.sent == old(sink.sent) + Truncate(text, prec, flags)
  {
    hide Sink.Valid;
    next := idx;
    var p, precision := 0, prec;
    while At(text, p) != '\0' && (!flags.precision || precision != 0)
      invariant p <= |text| && (flags.precision ==> p + precision == prec)
      invariant sink.Valid() && next == |sink.sent| && sink.sent == old(sink.sent) + text[..p]
      decreases |text| - p
    {
      if flags.precision { precision := precision - 1; }
      next := sink.Emit(text[p], next);
      p := p + 1;
    }
    assert p < |text| ==> text[p] in text;
  }

  /** The conversion specifier (printf.c:632-781). */
  method PrintConversion(sink: Sink, idx: nat, ghost d: Directive, c: char, flags: Flags, width: uint32, prec: uint32,
                         args: seq<Argument>, k: nat) returns (next: nat, k': nat)
    requires sink.Valid() && idx == |sink.sent| && k <= |args|
    requires IsWhole(d) && c == d.conversion && IsWide(flags) == IsWide(d.flags)
    requires Supplies(args[k..], ConversionKinds(d))
    requires IsFloatConversion(c) ==> FloatInRange(args[k..][0].value, prec, flags)
    modifies sink, sink.buffer
    ensures sink.Valid() && next == |sink.sent| && k' == k + |ConversionKinds(d)|
    ensures sink.sent == old(sink.sent) + RenderConversion(d, prec, width, flags, args[k..])
  {
    hide Sink.Valid, RenderInteger, RenderChar, RenderText, RenderFloat, FormatInteger;
    k' := k;
    if IsIntegerConversion(c) {
      assert args[k..][0] == args[k];
      next := PrintInteger(sink, idx, args[k], c, prec, width, flags);
      k' := k + 1;
    } else if c == 'c' {
      assert args[k..][0] == args[k];
      next := PrintChar(sink, idx, args[k].u32, width, flags);
      k' := k + 1;
    } else if c == 's' {
      assert args[k..][0] == args[k];
      next := PrintText(sink, idx, args[k].text, prec, width, flags);
      k' := k + 1;
    } else if c == 'p' {
      assert args[k..][0] == args[k];
      next := Ntoa(sink, idx, args[k].u64, false, 16, prec, 16, flags.(zeropad := true, upper := true));
      k' := k + 1;
    } else if c == 'f' || c == 'F' {
      assert args[k..][0] == args[k];
      next := Ftoa(sink, idx, args[k].value, prec, width, if c == 'F' then flags.(upper := true) else flags);
      k' := k + 1;
    } else {
      next := sink.Emit(c, idx); // '%' and every unknown specifier
    }
  }

  lemma {:induction false} FlagsOfStart(s: string)
    ensures !FlagsOf(s).precision && FlagsOf(s).length == NoLength
  {
    hide AddFlag;
    if s != "" {
      FlagsOfStart(s[..|s| - 1]);
    }
  }

  /** Only a `*` width touches the flags, and only the left bit, so it commutes with the later fields. */
  lemma WidthCommutes(width: Count, flags: Flags, dot: bool, length: Length, args: seq<Argument>)
    requires Supplies(args, CountKinds(width)) && !flags.precision
    ensures var (f, w) := EvalWidth(width, flags, args);
      EvalWidth(width, flags.(precision := dot, length := length), args)
        == ((if dot then f.(precision := true) else f).(length := length), w)
  {
    hide Signed;
  }

  /** The fields in front of the conversion character (printf.c:531-629), as the conversion will see them. */
  method ReadDirective(fmt: string, p: nat, args: seq<Argument>, k: nat, ghost d: Directive)
    returns (flags: Flags, width: uint32, precision: uint32, p': nat, k': nat)
    requires p <= |fmt| && k <= |args|
    requires d == ParseDirective(fmt[p..]).0 && Supplies(args[k..], DirectiveKinds(d))
    ensures p' == p + ParseDirective(fmt[p..]).1 <= |fmt|
    ensures k' == k + |CountKinds(d.width)| + |CountKinds(d.precision)| <= |args|
    ensures Supplies(args[k..], CountKinds(d.width)) && (flags, width) == EvalWidth(d.width, d.flags, args[k..])
    ensures Supplies(args[k..][|CountKinds(d.width)|..], CountKinds(d.precision))
    ensures precision == EvalPrecision(d.precision, args[k..][|CountKinds(d.width)|..])
  {
    hide FlagRun, FlagsOf, ParseCount, ParsePrecision, ParseLength, EvalWidth, EvalPrecision, CountKinds, ConversionKinds, Supplies;
    DirectiveSupplies(d, args[k..]);
    var dot, length;
    flags, p' := ReadFlags(fmt, p);
    ghost var flags0 := flags;
    ghost var a := p' - p;
    assert fmt[p..][..a] == fmt[p..p'] && fmt[p..][a..] == fmt[p'..];
    flags, width, p', k' := ReadWidth(fmt, p', args, k, flags);
    assert fmt[p..][p' - p..] == fmt[p'..] && args[k..][k' - k..] == args[k'..];
    dot, precision, p', k' := ReadPrecision(fmt, p', args, k');
    if dot { flags := flags.(precision := true); }
    assert fmt[p..][p' - p..] == fmt[p'..] && args[k..][k' - k..] == args[k'..];
    length, p' := ReadLength(fmt, p');
    flags := flags.(length := length);
    FlagsOfStart(fmt[p..][..a]);
    WidthCommutes(d.width, flags0, dot, length, args[k..]);
  }

  /** One directive, from behind its `%` to behind its conversion character (printf.c:531-781). */
  method PrintDirective(sink: Sink, idx: nat, fmt: string, p: nat, args: seq<Argument>, k: nat)
    returns (next: nat, p': nat, k': nat)
    requires sink.Valid() && idx == |sink.sent|
    requires p <= |fmt| && k <= |args|
    requires var d := ParseDirective(fmt[p..]).0;
      IsWhole(d) && Supplies(args[k..], DirectiveKinds(d)) && DirectiveInRange(d, args[k..])
    modifies sink, sink.buffer
    ensures sink.Valid() && next == |sink.sent|
    ensures var (d, n) := ParseDirective(fmt[p..]);
      && p' == p + n + 1 && k' == k + |DirectiveKinds(d)|
      && sink.sent == old(sink.sent) + RenderDirective(d, args[k..])
  {
    hide Sink.Valid, ParseDirective, EvalWidth, EvalPrecision, CountKinds, ConversionKinds, RenderConversion, Supplies,
      FloatInRange, Precision;
    ghost var (d, n) := ParseDirective(fmt[p..]);
    DirectiveSupplies(d, args[k..]);
    var flags, width, precision;
    flags, width, precision, p', k' := ReadDirective(fmt, p, args, k, d);
    assert args[k..][k' - k..] == args[k'..];
    RestInRange(d, args[k..], args[k'..], flags);
    next, k' := PrintConversion(sink, idx, d, At(fmt, p'), flags, width, precision, args, k');
    p' := p' + 1;
  }

  /** The range of a directive is that of its conversion; left justification does not change it. */
  lemma RestInRange(d: Directive, args: seq<Argument>, rest: seq<Argument>, flags: Flags)
    requires Supplies(args, DirectiveKinds(d)) && DirectiveInRange(d, args)
    requires Supplies(args, CountKinds(d.width)) && flags == EvalWidth(d.width, d.flags, args).0
    requires |CountKinds(d.width)| + |CountKinds(d.precision)| <= |args|
    requires rest == args[|CountKinds(d.width)| + |CountKinds(d.precision)|..]
    ensures IsWide(flags) == IsWide(d.flags)
    ensures Supplies(args[|CountKinds(d.width)|..], CountKinds(d.precision)) && Supplies(rest, ConversionKinds(d))
    ensures IsFloatConversion(d.conversion) ==>
      |rest| > 0 && FloatInRange(rest[0].value, EvalPrecision(d.precision, args[|CountKinds(d.width)|..]), flags)
  {
    hide EvalWidth, EvalPrecision, CountKinds;
    DirectiveSupplies(d, args);
    assert rest != [] ==> rest[0] == args[|CountKinds(d.width)| + |CountKinds(d.precision)|];
  }

  // ---------- whole formats

  lemma FirstOf(s: string)
    requires s != "" && AllComplete(Pieces(s))
    ensures s[0] != '%' ==> Pieces(s) == [Plain(s[0])] + Pieces(s[1..])
    ensures s[0] == '%' ==>
      var (d, n) := ParseDirective(s[1..]);
      IsWhole(d) && n + 2 <= |s| && Pieces(s) == [Convert(d)] + Pieces(s[n + 2..])
  {
    hide ParseDirective, IsWhole;
    if s[0] == '%' { assert IsComplete(Pieces(s)[0]); WholeEnds(s); }
  }

  lemma WholeEnds(s: string)
    requires s != "" && IsWhole(ParseDirective(s[1..]).0)
    ensures ParseDirective(s[1..]).1 + 2 <= |s|
  {
    hide ParseDirective;
  }

  lemma PiecesAt(fmt: cstring, p: nat)
    requires p < |fmt| && AllComplete(Pieces(fmt[p..]))
    ensures fmt[p] != '%' ==> Pieces(fmt[p..]) == [Plain(fmt[p])] + Pieces(fmt[p + 1..])
    ensures fmt[p] == '%' ==>
      var (d, n) := ParseDirective(fmt[p + 1..]);
      && IsWhole(d) && p + n + 2 <= |fmt|
      && Pieces(fmt[p..]) == [Convert(d)] + Pieces(fmt[p + n + 2..])
  {
    hide ParseDirective, Pieces, AllComplete, IsWhole;
    var s := fmt[p..];
    FirstOf(s);
    assert s[0] == fmt[p] && s[1..] == fmt[p + 1..];
    if fmt[p] == '%' {
      var n := ParseDirective(fmt[p + 1..]).1;
      assert s[n + 2..] == fmt[p + n + 2..];
    }
  }

  lemma RenderStep(piece: Piece, rest: seq<Piece>, args: seq<Argument>)
    requires AllComplete([piece] + rest) && Supplies(args, Kinds([piece] + rest)) && AllInRange([piece] + rest, args)
    ensures IsComplete(piece) && AllComplete(rest)
    ensures |PieceKinds(piece)| <= |args| && Supplies(args, PieceKinds(piece)) && PieceInRange(piece, args)
    ensures Supplies(args[|PieceKinds(piece)|..], Kinds(rest)) && AllInRange(rest, args[|PieceKinds(piece)|..])
    ensures Render([piece] + rest, args) == RenderPiece(piece, args) + Render(rest, args[|PieceKinds(piece)|..])
  {
    hide PieceKinds, IsComplete, PieceInRange, RenderPiece;
    assert ([piece] + rest)[1..] == rest && ([piece] + rest)[0] == piece;
    SuppliesSplit(args, PieceKinds(piece), Kinds(rest));
  }

  /**
   The main loop of `_vsnprintf` (printf.c:514-782): every piece is handed to the sink in turn,
   and the reading position `p` ends at the terminator.
   */
  method PrintPieces(sink: Sink, fmt: cstring, args: seq<Argument>) returns (idx: nat, p: nat)
    requires sink.Valid() && sink.sent == ""
    requires Printable(fmt, args)
    modifies sink, sink.buffer
    ensures sink.Valid() && idx == |sink.sent| && p == |fmt|
    ensures sink.sent == Render(Pieces(fmt), args)
  {
    hide Sink.Valid, Pieces, ParseDirective, RenderDirective, DirectiveKinds, Supplies, Render, Kinds, AllInRange,
      AllComplete, DirectiveInRange, IsWhole;
    var k;
    idx, p, k := 0, 0, 0;
    assert fmt[0..] == fmt && args[0..] == args;
    while p < |fmt|
      invariant p <= |fmt| && k <= |args|
      invariant sink.Valid() && idx == |sink.sent|
      invariant Printable(fmt[p..], args[k..])
      invariant Render(Pieces(fmt), args) == sink.sent + Render(Pieces(fmt[p..]), args[k..])
    {
      PiecesAt(fmt, p);
      ghost var piece, was, k0 := Pieces(fmt[p..])[0], sink.sent, k;
      ghost var rest := Pieces(fmt[p..])[1..];
      RenderStep(piece, rest, args[k..]);
      if fmt[p] != '%' {
        idx := sink.Emit(fmt[p], idx);
        p := p + 1;
      } else {
        idx, p, k := PrintDirective(sink, idx, fmt, p + 1, args, k);
      }
      assert rest == Pieces(fmt[p..]);
      assert args[k0..][|PieceKinds(piece)|..] == args[k..];
      assert sink.sent == was + RenderPiece(piece, args[k0..]);
    }
    assert fmt[p..] == "";
    EmptyRender(args[k..]);
  }

  lemma EmptyRender(args: seq<Argument>)
    requires Printable("", args)
    ensures Render(Pieces(""), args) == ""
  {}

  /** What is left in a buffer of size `count > 0`: as much text as fits, a NUL, and the old contents behind it. */
  predicate Holds(now: string, before: string, text: string, count: nat)
    requires 0 < count <= |before|
  {
    var m := Min(|text|, count - 1);
    now == text[..m] + ['\0'] + before[m + 1..]
  }

  lemma TerminatedText(before: string, now: string, initial: string, text: string, count: nat)
    requires 0 < count <= |initial| == |before| == |now|
    requires forall i :: 0 <= i < |before| ==> before[i] == if i < Min(|text|, count) then text[i] else initial[i]
    requires var at := if |text| < count then |text| else count - 1;
      forall i :: 0 <= i < |now| ==> now[i] == if i == at then '\0' else before[i]
    ensures Holds(now, initial, text, count)
  {}

  /** `_vsnprintf`; `delivered` is what reaches `_putchar` or the callback. */
  method Vsnprintf(out0: OutFunction, buffer: array?<char>, maxlen: uint64, fmt: cstring, args: seq<Argument>)
    returns (ret: int, delivered: string)
    requires out0.OutBuffer? && buffer != null ==> maxlen <= buffer.Length
    requires Printable(fmt, args)
    modifies buffer
    ensures ret == AsInt32(|Render(Pieces(fmt), args)|)
    ensures |Render(Pieces(fmt), args)| < 0x8000_0000 ==> ret == |Render(Pieces(fmt), args)|
    ensures buffer != null ==>
      if out0.OutBuffer? && 0 < maxlen then Holds(buffer[..], old(buffer[..]), Render(Pieces(fmt), args), maxlen)
      else buffer[..] == old(buffer[..])
    ensures delivered == if out0.OutChar? && buffer != null then NonNul(Render(Pieces(fmt), args)) else ""
  {
    hide Pieces, AllComplete, Supplies, Render, Kinds, AllInRange, NonNul;
    // without a buffer nothing is output
    var out := if buffer == null then OutNull else out0;
    var sink := new Sink(out, buffer, maxlen);
    var idx, p := PrintPieces(sink, fmt, args);
    // the NUL goes behind the text, or to the end of the buffer
    ghost var sent, now := sink.sent, if buffer == null then "" else buffer[..];
    sink.Out('\0', if idx < maxlen then idx else (maxlen - 1) % TWO_64);
    if buffer != null && out0.OutBuffer? && 0 < maxlen {
      TerminatedText(now, buffer[..], sink.initial, sent, maxlen);
    }
    delivered := sink.delivered;
    ret := AsInt32(idx);
  }

  method Snprintf(buffer: array?<char>, count: uint64, fmt: cstring, args: seq<Argument>) returns (ret: int)
    requires buffer != null ==> count <= buffer.Length
    requires Printable(fmt, args)
    modifies buffer
    ensures ret == AsInt32(|Render(Pieces(fmt), args)|)
    ensures |Render(Pieces(fmt), args)| < 0x8000_0000 ==> ret == |Render(Pieces(fmt), args)|
    ensures buffer != null ==>
      if 0 < count then
        var text := Render(Pieces(fmt), args);
        var m := if |text| < count then |text| else count - 1;
        buffer[..] == text[..m] + ['\0'] + old(buffer[..])[m + 1..]
      else buffer[..] == old(buffer[..])
  {
    hide Pieces, Render, Printable, NonNul;
    var delivered;
    ret, delivered := Vsnprintf(OutBuffer, buffer, count, fmt, args);
  }

  /** `printf_`, and `fctprintf` with its callback in the place of `_putchar`. */
  method Printf(fmt: cstring, args: seq<Argument>) returns (ret: int, delivered: string)
    requires Printable(fmt, args)
    ensures ret == AsInt32(|Render(Pieces(fmt), args)|)
    ensures |Render(Pieces(fmt), args)| < 0x8000_0000 ==> ret == |Render(Pieces(fmt), args)|
    ensures delivered == NonNul(Render(Pieces(fmt), args))
    ensures '\0' !in Render(Pieces(fmt), args) ==> delivered == Render(Pieces(fmt), args)
  {
    NonNulLaws(Render(Pieces(fmt), args), "");
    var buffer := new char[1];
    ret, delivered := Vsnprintf(OutChar, buffer, TWO_64 - 1, fmt, args);
  }
}
