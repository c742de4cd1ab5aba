/** Character strings and integer widths shared by the formatting modules. */
module Text {
  const TWO_8 := 0x100
  const TWO_16 := 0x1_0000
  const TWO_32 := 0x1_0000_0000
  const TWO_64 := 0x1_0000_0000_0000_0000

  type uint32 = n: nat | n < TWO_32
  type uint64 = n: nat | n < TWO_64

  /** The characters before the terminator of a C string, which fits the 64-bit address space. */
  type cstring = s: string | '\0' !in s && |s| < TWO_64

  function Min(a: int, b: int): int { if a < b then a else b }

  function Max(a: int, b: int): int { if a < b then b else a }

  /** `a - b`, or 0 when `b` is larger. */
  function Excess(a: nat, b: nat): nat { if a < b then 0 else a - b }

  function Repeat(c: char, n: nat): (s: string)
    ensures |s| == n
    ensures forall i :: 0 <= i < n ==> s[i] == c
  {
    seq(n, _ => c)
  }

  lemma RepeatSum(c: char, m: nat, n: nat)
    ensures Repeat(c, m) + Repeat(c, n) == Repeat(c, m + n)
  {}

  function Reverse(s: string): (r: string)
    ensures |r| == |s|
    ensures forall i :: 0 <= i < |s| ==> r[i] == s[|s| - 1 - i]
  {
    seq(|s|, i requires 0 <= i < |s| => s[|s| - 1 - i])
  }

  /** What `*(s + i)` reads, the terminator included. */
  function At(s: string, i: nat): char {
    if i < |s| then s[i] else '\0'
  }

  /** Two's-complement reading of an `n`-bit pattern. */
  function Signed(bits: nat, modulus: nat): int {
    if 2 * bits < modulus then bits else bits - modulus
  }

  function AsInt32(n: int): int { Signed(n % TWO_32, TWO_32) }
}
