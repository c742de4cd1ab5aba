/**
 Fields inside 32-bit words (sw/device/lib/base/bitfield.h). The bit operations have names, so
 that proofs can hide them and use their algebra only.
 */
module Bitfield {
  /** A bit position; the original requires positions to be at most 31. */
  type bitindex = i: bv32 | i < 32

  datatype Field32 = Field32(mask: bv32, index: bitindex)

  const ONES: bv32 := 0xffff_ffff

  function And(x: bv32, y: bv32): bv32 { x & y }

  function Or(x: bv32, y: bv32): bv32 { x | y }

  function Not(x: bv32): bv32 { !x }

  function Up(x: bv32, i: bitindex): bv32 { x << i }

  function Down(x: bv32, i: bitindex): bv32 { x >> i }

  function FieldRead(bits: bv32, field: Field32): bv32 {
    And(Down(bits, field.index), field.mask)
  }

  function FieldWrite(bits: bv32, field: Field32, value: bv32): bv32 {
    Or(And(bits, Not(Up(field.mask, field.index))), Up(And(value, field.mask), field.index))
  }

  function BitField(index: bitindex): Field32 { Field32(1, index) }

  predicate BitRead(bits: bv32, index: bitindex) { FieldRead(bits, BitField(index)) == 1 }

  function BitWrite(bits: bv32, index: bitindex, value: bool): bv32 {
    FieldWrite(bits, BitField(index), if value then 1 else 0)
  }

  /** No bit of the mask is shifted out of the word. */
  predicate Fits(field: Field32) { Down(Up(field.mask, field.index), field.index) == field.mask }

  // ---------- the algebra of shifts and masks

  lemma OrShiftBits(x: bv32, y: bv32, i: bitindex, o: bv32, a: bv32, b: bv32)
    requires o == x | y && a == Down(x, i) && b == Down(y, i)
    ensures Down(o, i) == a | b
  {}

  lemma OrShiftNamed(x: bv32, y: bv32, i: bitindex, o: bv32, a: bv32, b: bv32)
    requires o == Or(x, y) && a == Down(x, i) && b == Down(y, i)
    ensures Down(o, i) == Or(a, b)
  {
    hide Down;
    assert o == x | y;
    assert Or(a, b) == a | b;
    hide Or;
    OrShiftBits(x, y, i, o, a, b);
  }

  lemma OrShift(x: bv32, y: bv32, i: bitindex)
    ensures Down(Or(x, y), i) == Or(Down(x, i), Down(y, i))
  {
    hide Down, Or;
    OrShiftNamed(x, y, i, Or(x, y), Down(x, i), Down(y, i));
  }

  lemma AndShiftBits(x: bv32, y: bv32, i: bitindex, o: bv32, a: bv32, b: bv32)
    requires o == x & y && a == Down(x, i) && b == Down(y, i)
    ensures Down(o, i) == a & b
  {}

  lemma AndShiftNamed(x: bv32, y: bv32, i: bitindex, o: bv32, a: bv32, b: bv32)
    requires o == And(x, y) && a == Down(x, i) && b == Down(y, i)
    ensures Down(o, i) == And(a, b)
  {
    hide Down;
    assert o == x & y;
    assert And(a, b) == a & b;
    hide And;
    AndShiftBits(x, y, i, o, a, b);
  }

  lemma AndShift(x: bv32, y: bv32, i: bitindex)
    ensures Down(And(x, y), i) == And(Down(x, i), Down(y, i))
  {
    hide Down, And;
    AndShiftNamed(x, y, i, And(x, y), Down(x, i), Down(y, i));
  }

  lemma AndShiftUpBits(x: bv32, y: bv32, i: bitindex, o: bv32, a: bv32, b: bv32)
    requires o == x & y && a == Up(x, i) && b == Up(y, i)
    ensures Up(o, i) == a & b
  {}

  lemma AndShiftUpNamed(x: bv32, y: bv32, i: bitindex, o: bv32, a: bv32, b: bv32)
    requires o == And(x, y) && a == Up(x, i) && b == Up(y, i)
    ensures Up(o, i) == And(a, b)
  {
    hide Up;
    assert o == x & y;
    assert And(a, b) == a & b;
    hide And;
    AndShiftUpBits(x, y, i, o, a, b);
  }

  lemma AndShiftUp(x: bv32, y: bv32, i: bitindex)
    ensures Up(And(x, y), i) == And(Up(x, i), Up(y, i))
  {
    hide Up, And;
    AndShiftUpNamed(x, y, i, And(x, y), Up(x, i), Up(y, i));
  }

  lemma UpDown(x: bv32, i: bitindex)
    ensures Down(Up(x, i), i) == And(x, Down(Up(ONES, i), i))
  {}

  lemma DownUp(x: bv32, i: bitindex)
    ensures Up(Down(x, i), i) == And(x, Up(Down(ONES, i), i))
  {}

  lemma UpKeepsLow(x: bv32, i: bitindex)
    ensures And(Up(x, i), Up(Down(ONES, i), i)) == Up(x, i)
  {}

  lemma Complement(m: bv32, i: bitindex)
    ensures And(Down(Not(m), i), Down(m, i)) == 0
  {
    AndShift(Not(m), m, i);
  }

  /** A value is inside what a word can hold if its mask is. */
  lemma MaskedFits(value: bv32, mask: bv32, l: bv32)
    requires And(mask, l) == mask
    ensures And(And(value, mask), l) == And(value, mask)
  {}

  lemma Refilled(a: bv32, n: bv32, v: bv32, mask: bv32)
    requires And(n, mask) == 0
    ensures And(Or(And(a, n), And(v, mask)), mask) == And(v, mask)
  {}

  lemma Outside(b: bv32, m: bv32, w: bv32)
    ensures And(Or(And(b, Not(m)), And(w, m)), Not(m)) == And(b, Not(m))
  {}

  lemma Disjoint(b: bv32, w: bv32, m: bv32, o: bv32)
    requires And(w, Not(m)) == And(b, Not(m)) && And(m, o) == 0
    ensures And(w, o) == And(b, o)
  {}

  lemma Masked(r: bv32, mask: bv32, l: bv32)
    ensures And(And(r, mask), mask) == And(r, mask) && And(mask, mask) == mask
    ensures And(And(mask, l), mask) == And(mask, l)
  {}

  lemma Restored(b: bv32, m: bv32, l: bv32)
    requires And(m, l) == m
    ensures Or(And(b, Not(m)), And(And(b, l), m)) == b
  {}

  lemma OverNothing(m: bv32, w: bv32)
    ensures Or(And(0, Not(m)), w) == w
  {}

  // ---------- the laws

  predicate BitOf(x: bv32, j: bitindex) { (x >> j) & 1 == 1 }

  /** A field on its bits: bit `j` comes from the value where the shifted mask has a bit, and stays otherwise. */
  lemma WriteBits(bits: bv32, field: Field32, value: bv32, j: bitindex)
    ensures BitOf(FieldWrite(bits, field, value), j) <==>
      if BitOf(Up(field.mask, field.index), j) then BitOf(Up(value, field.index), j) else BitOf(bits, j)
  {
    hide Up, Down, And, Or, Not, BitOf;
    var (m, v) := (Up(field.mask, field.index), Up(value, field.index));
    AndShiftUp(value, field.mask, field.index);
    OrShift(And(bits, Not(m)), And(v, m), j);
    AndShift(bits, Not(m), j);
    AndShift(v, m, j);
    LowBit(bits, v, m, j);
    BitDown(FieldWrite(bits, field, value), j);
  }

  predicate Odd(x: bv32) { x & 1 == 1 }

  lemma BitDown(x: bv32, j: bitindex)
    ensures BitOf(x, j) <==> Odd(Down(x, j))
  {}

  lemma NotDown(m: bv32, j: bitindex)
    ensures Odd(Down(Not(m), j)) <==> !Odd(Down(m, j))
  {}

  lemma OddMix(x: bv32, n: bv32, z: bv32, y: bv32)
    requires Odd(n) <==> !Odd(y)
    ensures Odd(Or(And(x, n), And(z, y))) <==> if Odd(y) then Odd(z) else Odd(x)
  {}

  lemma LowBit(x: bv32, v: bv32, m: bv32, j: bitindex)
    ensures Odd(Or(And(Down(x, j), Down(Not(m), j)), And(Down(v, j), Down(m, j))))
      <==> if BitOf(m, j) then BitOf(v, j) else BitOf(x, j)
  {
    hide Up, Down, And, Or, Not, BitOf, Odd;
    BitDown(x, j);
    BitDown(v, j);
    BitDown(m, j);
    NotDown(m, j);
    OddMix(Down(x, j), Down(Not(m), j), Down(v, j), Down(m, j));
  }

  /** Reading a field takes the bits from its index on, as far as the mask has them. */
  lemma ReadBits(bits: bv32, field: Field32, j: bitindex)
    ensures BitOf(FieldRead(bits, field), j) <==> BitOf(Down(bits, field.index), j) && BitOf(field.mask, j)
  {
    hide Up, Down, And, Or, Not, BitOf, Odd;
    var d := Down(bits, field.index);
    AndShift(d, field.mask, j);
    BitDown(d, j);
    BitDown(field.mask, j);
    BitDown(And(d, field.mask), j);
    OddBoth(Down(d, j), Down(field.mask, j));
  }

  lemma OddBoth(x: bv32, y: bv32)
    ensures Odd(And(x, y)) <==> Odd(x) && Odd(y)
  {}

  /** The named shifts are those of the language. */
  lemma ShiftsAre(x: bv32, i: bitindex)
    ensures Down(x, i) == x >> i && Up(x, i) == x << i
  {}

  /** Single bits. */
  lemma BitMeaning(bits: bv32, i: bitindex, value: bool, j: bitindex)
    ensures BitRead(bits, j) <==> BitOf(bits, j)
    ensures BitRead(BitWrite(bits, i, value), j) <==> if i == j then value else BitRead(bits, j)
  {
    hide BitOf, FieldWrite;
    BitReadIs(bits, j);
    BitReadIs(BitWrite(bits, i, value), j);
    WriteBits(bits, BitField(i), if value then 1 else 0, j);
    OneUp(i, j);
    ZeroUp(i, j);
  }

  lemma BitReadIs(bits: bv32, j: bitindex)
    ensures BitRead(bits, j) <==> BitOf(bits, j)
  {}

  lemma OneUp(i: bitindex, j: bitindex)
    ensures BitOf(Up(1, i), j) <==> i == j
  {}

  lemma ZeroUp(i: bitindex, j: bitindex)
    ensures !BitOf(Up(0, i), j)
  {}

  /** Reading a field after writing it gives the value, cut to the mask, when the field fits into the word. */
  lemma ReadAfterWrite(bits: bv32, field: Field32, value: bv32)
    requires Fits(field)
    ensures FieldRead(FieldWrite(bits, field, value), field) == And(value, field.mask)
  {
    hide Up, Down, And, Or, Not;
    var (mask, i) := (field.mask, field.index);
    var m := Up(mask, i);
    OrShift(And(bits, Not(m)), Up(And(value, mask), i), i);
    AndShift(bits, Not(m), i);
    UpDown(And(value, mask), i);
    UpDown(mask, i);
    MaskedFits(value, mask, Down(Up(ONES, i), i));
    Complement(m, i);
    Refilled(Down(bits, i), Down(Not(m), i), value, mask);
  }

  /** When the field does not fit, the mask itself is not read back. */
  lemma ReadBackNeedsRoom(field: Field32)
    ensures (forall bits: bv32, value: bv32 ::
               FieldRead(FieldWrite(bits, field, value), field) == And(value, field.mask))
       <==> Fits(field)
  {
    hide Up, Down, And, Or, Not;
    if Fits(field) {
      forall bits: bv32, value: bv32
        ensures FieldRead(FieldWrite(bits, field, value), field) == And(value, field.mask)
      {
        ReadAfterWrite(bits, field, value);
      }
    } else {
      var (mask, i) := (field.mask, field.index);
      Masked(mask, mask, Down(Up(ONES, i), i));
      OverNothing(Up(mask, i), Up(mask, i));
      UpDown(mask, i);
      assert FieldRead(FieldWrite(0, field, mask), field) == Down(Up(mask, i), i);
    }
  }

  /** Writing changes nothing outside the field. */
  lemma WriteKeepsOthers(bits: bv32, field: Field32, value: bv32)
    ensures var outside := Not(Up(field.mask, field.index));
      And(FieldWrite(bits, field, value), outside) == And(bits, outside)
  {
    hide Up, Down, And, Or, Not;
    AndShiftUp(value, field.mask, field.index);
    Outside(bits, Up(field.mask, field.index), Up(value, field.index));
  }

  /** A field that does not overlap the written one keeps its value. */
  lemma ReadOther(bits: bv32, field: Field32, value: bv32, other: Field32)
    requires Fits(other) && And(Up(field.mask, field.index), Up(other.mask, other.index)) == 0
    ensures FieldRead(FieldWrite(bits, field, value), other) == FieldRead(bits, other)
  {
    hide Up, Down, And, Or, Not;
    var m, o := Up(field.mask, field.index), Up(other.mask, other.index);
    var written := FieldWrite(bits, field, value);
    WriteKeepsOthers(bits, field, value);
    hide FieldWrite;
    Disjoint(bits, written, m, o);
    AndShift(bits, o, other.index);
    AndShift(written, o, other.index);
  }

  /** Writing back what was read changes nothing. */
  lemma WriteAfterRead(bits: bv32, field: Field32)
    ensures FieldWrite(bits, field, FieldRead(bits, field)) == bits
  {
    hide Up, Down, And, Or, Not;
    var (mask, i) := (field.mask, field.index);
    AndShiftUp(Down(bits, i), mask, i);
    DownUp(bits, i);
    UpKeepsLow(mask, i);
    Masked(Down(bits, i), mask, ONES);
    Restored(bits, Up(mask, i), Up(Down(ONES, i), i));
  }
}
