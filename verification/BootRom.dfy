/**
 The boot ROM: a generator that turns an image into case items, and the ROM that looks a word
 up by a truncated index (hw/ip/bootrom/gen_bootrom.py, hw/ip/bootrom/bootrom.sv).
 */
module BootRom {
  import opened Text
  import opened Digits
  import opened Bytes
  import opened IntegerLaws

  // ---------- padding

  ghost predicate IsPowerOfTwo(n: nat) { exists k: nat :: n == Pow(2, k) }

  lemma Doubled(n: nat)
    requires IsPowerOfTwo(n)
    ensures IsPowerOfTwo(2 * n)
  {
    var k: nat :| n == Pow(2, k);
    assert 2 * n == Pow(2, k + 1);
  }

  lemma {:induction false} PowersOfTwo(j: nat, k: nat)
    requires Pow(2, j) < Pow(2, k)
    ensures 2 * Pow(2, j) <= Pow(2, k)
    decreases k
  {
    PowPositive(2, j);
    if k != 0 {
      if j == 0 {
        PowPositive(2, k - 1);
      } else {
        PowersOfTwo(j - 1, k - 1);
      }
    }
  }

  /** The padded length: the least power of two that is at least 8, the image length and the requested padding. */
  ghost predicate IsPaddedLength(length: nat, size: nat, pad: int) {
    && IsPowerOfTwo(length) && 8 <= length && size <= length && pad <= length
    && forall n: nat :: IsPowerOfTwo(n) && 8 <= n && size <= n && pad <= n ==> length <= n
  }

  /** Doubles the length until everything fits, and appends zeros (gen_bootrom.py:52-58). */
  method Pad(binary: seq<byte>, pad: int) returns (padded: seq<byte>)
    ensures IsPaddedLength(|padded|, |binary|, pad)
    ensures padded == binary + seq(|padded| - |binary|, _ => 0)
  {
    var length := 8;
    assert length == Pow(2, 3);
    while length < Max(|binary|, pad)
      invariant IsPowerOfTwo(length) && 8 <= length
      invariant forall n: nat :: IsPowerOfTwo(n) && 8 <= n && |binary| <= n && pad <= n ==> length <= n
      decreases Max(|binary|, pad) - length
    {
      forall n: nat | IsPowerOfTwo(n) && 8 <= n && |binary| <= n && pad <= n ensures 2 * length <= n {
        var j: nat :| length == Pow(2, j);
        var k: nat :| n == Pow(2, k);
        PowersOfTwo(j, k);
      }
      Doubled(length);
      length := length * 2;
    }
    padded := binary + seq(length - |binary|, _ => 0);
  }

  // ---------- the generated case items

  /** The `i`-th slice of `chunks(binary, 4)`. */
  function Chunk(binary: seq<byte>, i: nat): (c: seq<byte>)
    requires 4 * i < |binary|
    ensures 1 <= |c| <= 4
  {
    binary[4 * i..Min(4 * i + 4, |binary|)]
  }

  function ChunkCount(binary: seq<byte>): nat { (|binary| + 3) / 4 }

  /** `"{:02x}".format(b)` */
  function HexByte(b: byte): string { [DigitChar(b / 16, false), DigitChar(b % 16, false)] }

  /** `format_word_hex`: the bytes in hexadecimal, missing ones as "00", the first byte last. */
  function FormatWordHex(word: seq<byte>): (s: string)
    requires |word| <= 4
  {
    HexReversed(word + seq(4 - |word|, _ => 0))
  }

  function HexReversed(word: seq<byte>): string {
    if word == [] then "" else HexReversed(word[1..]) + HexByte(word[0])
  }

  /** `"{:03}".format(i)` */
  function FormatIndex(i: nat): string {
    var digits := Numeral(i, 10, i + 1, false);
    Repeat('0', Excess(3, |digits|)) + digits
  }

  /** One `selector: data_o = 32'hliteral` of the generated `case`. */
  datatype CaseItem = CaseItem(selector: string, literal: string)

  function FormatBinary(binary: seq<byte>): (items: seq<CaseItem>)
    ensures |items| == ChunkCount(binary)
  {
    seq(ChunkCount(binary), i requires 0 <= i < ChunkCount(binary) => CaseItem(FormatIndex(i), FormatWordHex(Chunk(binary, i))))
  }

  // ---------- the ROM

  /** `$clog2` */
  function Clog2(n: nat): (k: nat)
  {
    if n <= 1 then 0 else 1 + Clog2((n + 1) / 2)
  }

  /** The `case`: the item whose label is the word index, and 0 by default. */
  function Lookup(items: seq<CaseItem>, word: nat): nat {
    if items == [] then 0
    else if Value(items[0].selector, 10) == word then Value(items[0].literal, 16)
    else Lookup(items[1..], word)
  }

  /** What the ROM returns for an address; the index is cut to `$clog2(NumWords)` bits. */
  function Fetch(items: seq<CaseItem>, addr: uint32): nat {
    PowPositive(2, Clog2(|items|));
    Lookup(items, addr / 4 % Pow(2, Clog2(|items|)))
  }

  // ---------- generation and lookup undo each other

  lemma HexByteValue(s: string, b: byte)
    ensures Value(s + HexByte(b), 16) == Value(s, 16) * 256 + b
  {
    var hi, lo := DigitChar(b / 16, false), DigitChar(b % 16, false);
    DigitCharValue(b / 16, false);
    DigitCharValue(b % 16, false);
    ValueSnoc(s, hi, 16);
    ValueSnoc(s + [hi], lo, 16);
    assert s + HexByte(b) == s + [hi] + [lo];
  }

  lemma {:induction false} HexValue(word: seq<byte>)
    ensures Value(HexReversed(word), 16) == FromBytes(word)
  {
    if word != [] {
      HexValue(word[1..]);
      HexByteValue(HexReversed(word[1..]), word[0]);
    }
  }

  lemma {:induction false} BelowItsPower(i: nat)
    ensures i < Pow(10, i + 1)
  {
    if i != 0 {
      BelowItsPower(i - 1);
    }
  }

  lemma IndexValue(i: nat)
    ensures Value(FormatIndex(i), 10) == i && 3 <= |FormatIndex(i)|
  {
    var digits := Numeral(i, 10, i + 1, false);
    LeadingZeros(Excess(3, |digits|), digits, 10);
    NumeralDenotes(i, 10, i + 1, false);
    BelowItsPower(i);
    hide Pow, Numeral;
    RemainderUnique(i, Pow(10, i + 1), 0, i);
  }

  lemma {:induction false} LookupFinds(items: seq<CaseItem>, first: nat, k: nat)
    requires k < |items|
    requires forall i :: 0 <= i < |items| ==> Value(items[i].selector, 10) == first + i
    ensures Lookup(items, first + k) == Value(items[k].literal, 16)
  {
    if k != 0 {
      LookupFinds(items[1..], first + 1, k - 1);
    }
  }

  lemma {:induction false} Clog2OfPower(k: nat)
    ensures Clog2(Pow(2, k)) == k
  {
    PowPositive(2, k);
    if k != 0 {
      PowPositive(2, k - 1);
      Clog2OfPower(k - 1);
      assert (Pow(2, k) + 1) / 2 == Pow(2, k - 1);
    }
  }

  lemma PowerQuarter(length: nat)
    requires IsPowerOfTwo(length) && 8 <= length
    ensures length % 4 == 0 && IsPowerOfTwo(length / 4)
  {
    var k: nat :| length == Pow(2, k);
    assert Pow(2, 0) == 1 && Pow(2, 1) == 2;
    assert Pow(2, k) == 2 * (2 * Pow(2, k - 2));
    assert length / 4 == Pow(2, k - 2);
  }

  lemma IndexWraps(base: nat, length: nat, k: nat)
    requires 0 < length && base % (4 * length) == 0 && k < length
    ensures (base + 4 * k) / 4 % length == k
  {
    var q := base / (4 * length);
    assert base == q * (4 * length);
    assert q * (4 * length) == 4 * (q * length);
    RemainderUnique(q * length + k, length, q, k);
  }

  lemma ItemFetched(padded: seq<byte>, base: nat, k: nat)
    requires IsPowerOfTwo(|padded|) && 8 <= |padded|
    requires base % |padded| == 0 && 4 * k < |padded| && base + 4 * k < TWO_32
    ensures Fetch(FormatBinary(padded), base + 4 * k) == Value(FormatWordHex(Chunk(padded, k)), 16)
  {
    hide Lookup, FormatIndex, FormatWordHex, Value, Pow, Clog2;
    var items := FormatBinary(padded);
    PowerQuarter(|padded|);
    var words := |padded| / 4;
    assert |items| == words && 4 * words == |padded|;
    var j: nat :| words == Pow(2, j);
    Clog2OfPower(j);
    IndexWraps(base, words, k);
    forall i | 0 <= i < |items| ensures Value(items[i].selector, 10) == i {
      IndexValue(i);
    }
    LookupFinds(items, 0, k);
  }

  lemma LiteralValue(word: seq<byte>)
    requires |word| == 4
    ensures var s := FormatWordHex(word);
      && |s| == 8 && Value(s, 16) == FromBytes(word)
      && Value(s, 16) == Little4(word[0], word[1], word[2], word[3])
      && forall i :: 0 <= i < 8 ==> s[i] in "0123456789abcdef"
  {
    assert word + seq(0, _ => 0) == word;
    HexValue(word);
    FourBytes(word);
    hide Value, FromBytes;
    HexCharacters(word);
  }

  lemma HexPair(b: byte)
    ensures forall i :: 0 <= i < 2 ==> HexByte(b)[i] in "0123456789abcdef"
  {
    DigitTable();
    hide DigitChar;
    assert HexByte(b)[0] == "0123456789abcdef"[b / 16] && HexByte(b)[1] == "0123456789abcdef"[b % 16];
  }

  lemma {:induction false} HexCharacters(word: seq<byte>)
    ensures |HexReversed(word)| == 2 * |word|
    ensures forall i :: 0 <= i < |HexReversed(word)| ==> HexReversed(word)[i] in "0123456789abcdef"
  {
    hide HexByte;
    if word != [] {
      HexCharacters(word[1..]);
      HexPair(word[0]);
      assert |HexByte(word[0])| == 2 by { HexLength(word[0]); }
      var front := HexReversed(word[1..]);
      forall i | 0 <= i < |HexReversed(word)| ensures HexReversed(word)[i] in "0123456789abcdef" {
        assert i >= |front| ==> HexReversed(word)[i] == HexByte(word[0])[i - |front|];
      }
    }
  }

  lemma HexLength(b: byte)
    ensures |HexByte(b)| == 2
  {}

  /**
   Fetching word `k` through any base address that is a multiple of the ROM size returns, in
   little-endian order, the bytes of the padded image at `4k`.
   */
  lemma FetchReturnsImage(padded: seq<byte>, base: nat, k: nat)
    requires IsPowerOfTwo(|padded|) && 8 <= |padded|
    requires base % |padded| == 0 && 4 * k < |padded| && base + 4 * k < TWO_32
    ensures 4 * k + 4 <= |padded|
    ensures ToBytes(Fetch(FormatBinary(padded), base + 4 * k), 4) == padded[4 * k..4 * k + 4]
  {
    hide Fetch, FormatBinary, FormatWordHex, Value;
    PowerQuarter(|padded|);
    ItemFetched(padded, base, k);
    LiteralValue(Chunk(padded, k));
    BytesRoundTrip(Chunk(padded, k));
  }

  /** Byte by byte: the image, then zeros. */
  lemma RomHoldsImage(binary: seq<byte>, padded: seq<byte>, pad: int, base: nat, k: nat, b: nat)
    requires IsPaddedLength(|padded|, |binary|, pad) && padded == binary + seq(|padded| - |binary|, _ => 0)
    requires base % |padded| == 0 && 4 * k < |padded| && base + 4 * k < TWO_32 && b < 4
    ensures ToBytes(Fetch(FormatBinary(padded), base + 4 * k), 4)[b]
         == if 4 * k + b < |binary| then binary[4 * k + b] else 0
  {
    hide Fetch, FormatBinary;
    FetchReturnsImage(padded, base, k);
    assert padded[4 * k..4 * k + 4][b] == padded[4 * k + b];
  }
}
