/** Bytes and little-endian words. */
module Bytes {
  import opened Text

  type byte = n: nat | n < TWO_8

  function Power256(n: nat): (p: nat)
    ensures 0 < p
  {
    if n == 0 then 1 else TWO_8 * Power256(n - 1)
  }

  /** The number whose little-endian bytes are `b`. */
  function FromBytes(b: seq<byte>): (n: nat)
    ensures n < Power256(|b|)
  {
    if b == [] then 0 else b[0] + TWO_8 * FromBytes(b[1..])
  }

  /** The low `k` bytes of `n`, least significant first. */
  function ToBytes(n: nat, k: nat): (b: seq<byte>)
    ensures |b| == k
  {
    if k == 0 then [] else [n % TWO_8] + ToBytes(n / TWO_8, k - 1)
  }

  lemma NoBytes()
    ensures FromBytes([]) == 0
  {}

  lemma NextByte(b: seq<byte>)
    requires b != []
    ensures FromBytes(b) == b[0] + TWO_8 * FromBytes(b[1..])
  {}

  /** The lowest byte is the first one. */
  lemma FromBytesLaws(b: seq<byte>)
    ensures FromBytes([]) == 0
    ensures b != [] ==> FromBytes(b) % 256 == b[0] && FromBytes(b) / 256 == FromBytes(b[1..])
  {
    hide FromBytes;
    NoBytes();
    if b != [] {
      NextByte(b);
      ByteSplit(b[0], FromBytes(b[1..]));
    }
  }

  function Little4(a: nat, b: nat, c: nat, d: nat): nat { a + 0x100 * b + 0x1_0000 * c + 0x100_0000 * d }

  lemma FourBytes(b: seq<byte>)
    requires |b| == 4
    ensures FromBytes(b) == Little4(b[0], b[1], b[2], b[3])
  {
    assert FromBytes(b[4..]) == 0 && b[3..][1..] == b[4..] && b[2..][1..] == b[3..] && b[1..][1..] == b[2..];
    assert FromBytes(b[3..]) == b[3];
    assert FromBytes(b[2..]) == b[2] + 0x100 * FromBytes(b[3..]);
    assert FromBytes(b[1..]) == b[1] + 0x100 * FromBytes(b[2..]);
  }

  /** A 64-bit word is its bytes, the first one lowest. */
  lemma EightBytes(b: seq<byte>)
    requires |b| == 8
    ensures FromBytes(b) == Little4(b[0], b[1], b[2], b[3]) + 0x1_0000_0000 * Little4(b[4], b[5], b[6], b[7])
  {
    FourBytes(b[4..]);
    var f4 := FromBytes(b[4..]);
    assert b[1..][1..] == b[2..] && b[2..][1..] == b[3..] && b[3..][1..] == b[4..];
    assert FromBytes(b[3..]) == b[3] + 0x100 * f4;
    assert FromBytes(b[2..]) == b[2] + 0x100 * FromBytes(b[3..]);
    assert FromBytes(b[1..]) == b[1] + 0x100 * FromBytes(b[2..]);
  }

  lemma ByteSplit(low: byte, high: nat)
    ensures (low + TWO_8 * high) % TWO_8 == low && (low + TWO_8 * high) / TWO_8 == high
  {}

  lemma {:induction false} BytesRoundTrip(b: seq<byte>)
    ensures ToBytes(FromBytes(b), |b|) == b
  {
    if b != [] {
      ByteSplit(b[0], FromBytes(b[1..]));
      BytesRoundTrip(b[1..]);
    }
  }

  lemma {:induction false} NumberRoundTrip(n: nat, k: nat)
    requires n < Power256(k)
    ensures FromBytes(ToBytes(n, k)) == n
  {
    if k != 0 {
      NumberRoundTrip(n / TWO_8, k - 1);
      assert ToBytes(n, k)[1..] == ToBytes(n / TWO_8, k - 1);
    }
  }

  lemma WordSizes()
    ensures Power256(4) == TWO_32 && Power256(8) == TWO_64
  {
    assert Power256(2) == 0x1_0000;
    assert Power256(5) == TWO_8 * TWO_32;
  }

  /** 32-bit words in memory, byte by byte. */
  function Bytes32(words: seq<uint32>): (b: seq<byte>)
    ensures |b| == 4 * |words|
  {
    seq(4 * |words|, i requires 0 <= i < 4 * |words| => ToBytes(words[i / 4], 4)[i % 4])
  }

  /** 64-bit words in memory, byte by byte. */
  function Bytes64(words: seq<uint64>): (b: seq<byte>)
    ensures |b| == 8 * |words|
  {
    seq(8 * |words|, i requires 0 <= i < 8 * |words| => ToBytes(words[i / 8], 8)[i % 8])
  }

  /** The byte view of 32-bit words: four bytes each, the lowest first. */
  lemma ViewOfWords32(words: seq<uint32>, k: nat)
    requires k < |words|
    ensures var b := Bytes32(words)[4 * k..4 * k + 4];
      words[k] == Little4(b[0], b[1], b[2], b[3])
  {
    hide Bytes32;
    Word32At(words, k);
    WordSizes();
    NumberRoundTrip(words[k], 4);
    FourBytes(ToBytes(words[k], 4));
  }

  lemma Word64At(words: seq<uint64>, k: nat)
    requires k < |words|
    ensures Bytes64(words)[8 * k..8 * k + 8] == ToBytes(words[k], 8)
  {}

  /** The byte view of 64-bit words: eight bytes each, the lowest first. */
  lemma ViewOfWords64(words: seq<uint64>, k: nat)
    requires k < |words|
    ensures var b := Bytes64(words)[8 * k..8 * k + 8];
      words[k] == Little4(b[0], b[1], b[2], b[3]) + 0x1_0000_0000 * Little4(b[4], b[5], b[6], b[7])
  {
    hide Bytes64, ToBytes, FromBytes;
    Word64At(words, k);
    WordSizes();
    NumberRoundTrip(words[k], 8);
    EightBytes(ToBytes(words[k], 8));
  }

  lemma Word32At(words: seq<uint32>, k: nat)
    requires k < |words|
    ensures Bytes32(words)[4 * k..4 * k + 4] == ToBytes(words[k], 4)
  {}

  /** The byte view loses nothing: equal views are views of equal words. */
  lemma Bytes32Exact(u: seq<uint32>, w: seq<uint32>)
    requires Bytes32(u) == Bytes32(w)
    ensures u == w
  {
    hide Bytes32, ToBytes, FromBytes;
    WordSizes();
    forall k | 0 <= k < |u| ensures u[k] == w[k] {
      Word32At(u, k);
      Word32At(w, k);
      NumberRoundTrip(u[k], 4);
      NumberRoundTrip(w[k], 4);
    }
  }

  lemma Update32(words: seq<uint32>, k: nat, w: uint32)
    requires k < |words|
    ensures Bytes32(words[k := w]) == Bytes32(words)[..4 * k] + ToBytes(w, 4) + Bytes32(words)[4 * k + 4..]
  {}

  lemma Update64(words: seq<uint64>, k: nat, w: uint64)
    requires k < |words|
    ensures Bytes64(words[k := w]) == Bytes64(words)[..8 * k] + ToBytes(w, 8) + Bytes64(words)[8 * k + 8..]
  {
    hide ToBytes;
    var patched := Bytes64(words)[..8 * k] + ToBytes(w, 8) + Bytes64(words)[8 * k + 8..];
    forall i | 0 <= i < 8 * |words| ensures Bytes64(words[k := w])[i] == patched[i] {
      assert i / 8 == k <==> 8 * k <= i < 8 * k + 8;
    }
  }
}
