/** 64-bit words as bit sets. A Go shift by any amount is an iterated shift by one, so amounts of 64 and more give 0. */
module Bits {

  const TOP: bv64 := 0x8000_0000_0000_0000
  const ALL_ONES: bv64 := 0xFFFF_FFFF_FFFF_FFFF

  function Double(word: bv64): bv64 {
    word << 1
  }

  /** `word << amount`. */
  function ShiftLeft(word: bv64, amount: nat): bv64 {
    if amount == 0 then word else Double(ShiftLeft(word, amount - 1))
  }

  /** `1 << index`. */
  function One(index: nat): bv64 {
    ShiftLeft(1, index)
  }

  function Or(a: bv64, b: bv64): bv64 {
    a | b
  }

  function And(a: bv64, b: bv64): bv64 {
    a & b
  }

  predicate Meets(word: bv64, mask: bv64) {
    word & mask != 0
  }

  predicate Bit(word: bv64, index: nat) {
    Meets(word, One(index))
  }

  /** `(1 << high) - 1`; for 64 the shift gives 0 and the subtraction wraps to all ones. */
  function Below(high: nat): bv64 {
    One(high) - 1
  }

  // Facts about single words, kept apart from the recursive definitions.

  /** At most one bit is set. */
  predicate Single(o: bv64) {
    o & (o - 1) == 0
  }

  lemma DoubleOneBit(o: bv64)
    requires Single(o)
    ensures Single(Double(o))
    ensures o & TOP != 0 ==> Double(o) == 0
    ensures o != 0 ==> Double(o) - 1 == (o - 1) | o
  {}

  lemma AndOverOr(a: bv64, b: bv64, o: bv64)
    ensures (a | b) & o == (a & o) | (b & o)
    ensures o & (a | b) == (o & a) | (o & b)
  {}

  lemma OrZero(a: bv64, b: bv64)
    ensures a | b == 0 <==> a == 0 && b == 0
  {}

  lemma MeetsOr(a: bv64, b: bv64, o: bv64)
    ensures Meets(a | b, o) <==> Meets(a, o) || Meets(b, o)
    ensures Meets(o, a | b) <==> Meets(o, a) || Meets(o, b)
  {
    AndOverOr(a, b, o);
    OrZero(a & o, b & o);
    OrZero(o & a, o & b);
  }

  lemma PartOfOneBit(a: bv64, o: bv64)
    requires Single(o)
    ensures a & o == 0 || a & o == o
  {}

  lemma AndOrder(a: bv64, b: bv64, o: bv64)
    ensures (a & b) & o == b & (a & o)
  {}

  lemma MeetsAnd(a: bv64, b: bv64, o: bv64)
    requires Single(o)
    ensures Meets(a & b, o) <==> Meets(a, o) && Meets(b, o)
  {
    PartOfOneBit(a, o);
    AndOrder(a, b, o);
    if a & o == 0 {
      AndSimple(b);
      assert (a & b) & o == 0;
    } else {
      assert (a & b) & o == b & o;
    }
  }

  lemma MeetsDouble(a: bv64, o: bv64)
    requires o & TOP == 0
    ensures Meets(Double(a), Double(o)) <==> Meets(a, o)
  {}

  lemma EvenWord(a: bv64)
    ensures !Meets(Double(a), 1)
  {}

  lemma AndSimple(a: bv64)
    ensures a & 0 == 0 && 0 & a == 0 && a & a == a
  {}

  lemma DoubleAnd(a: bv64, b: bv64)
    ensures Double(a) & Double(b) == Double(a & b)
    ensures Double(a) & 1 == 0 && 1 & Double(a) == 0
  {}

  lemma {:induction false} ShiftAdd(word: bv64, a: nat, b: nat)
    ensures ShiftLeft(word, a + b) == ShiftLeft(ShiftLeft(word, a), b)
  {
    if b > 0 { ShiftAdd(word, a, b - 1); }
  }

  function Times128(word: bv64): bv64 {
    Double(Double(Double(Double(Double(Double(Double(word)))))))
  }

  lemma ShiftBy7(word: bv64)
    ensures ShiftLeft(word, 7) == Times128(word)
  {
    assert ShiftLeft(word, 1) == Double(word);
    assert ShiftLeft(word, 3) == Double(Double(ShiftLeft(word, 1)));
    assert ShiftLeft(word, 5) == Double(Double(ShiftLeft(word, 3)));
  }

  lemma OneAt63()
    ensures One(63) == TOP
  {
    var w := 1;
    var k := 0;
    while k < 63
      invariant k % 7 == 0 && k <= 63
      invariant w == One(k)
      invariant k == 0 ==> w == 0x1
      invariant k == 7 ==> w == 0x80
      invariant k == 14 ==> w == 0x4000
      invariant k == 21 ==> w == 0x200000
      invariant k == 28 ==> w == 0x10000000
      invariant k == 35 ==> w == 0x800000000
      invariant k == 42 ==> w == 0x40000000000
      invariant k == 49 ==> w == 0x2000000000000
      invariant k == 56 ==> w == 0x100000000000000
      invariant k == 63 ==> w == 0x8000000000000000
    {
      ShiftAdd(1, k, 7);
      ShiftBy7(One(k));
      w := Times128(w);
      k := k + 7;
    }
  }

  lemma {:induction false} AtMostOneBit(index: nat)
    ensures Single(One(index))
  {
    if index == 0 {
      assert Single(1);
    } else {
      AtMostOneBit(index - 1);
      DoubleOneBit(One(index - 1));
    }
  }

  lemma {:induction false} ZeroStays(low: nat, high: nat)
    requires low <= high && One(low) == 0
    ensures One(high) == 0
  {
    if low < high { ZeroStays(low, high - 1); }
  }

  /** Every shift of 1 by less than 64 keeps its bit, and only a shift by 63 reaches the top. */
  lemma OneHot(index: nat)
    requires index < 64
    ensures One(index) != 0
    ensures index < 63 ==> One(index) & TOP == 0
  {
    OneAt63();
    if One(index) == 0 {
      ZeroStays(index, 63);
    }
    if index < 63 && One(index) & TOP != 0 {
      AtMostOneBit(index);
      DoubleOneBit(One(index));
      assert One(index + 1) == Double(One(index));
      ZeroStays(index + 1, 63);
    }
  }

  lemma OneAt64()
    ensures One(64) == 0
  {
    OneAt63();
    assert Double(TOP) == 0;
  }

  lemma {:induction false} BitOfOne(i: nat, j: nat)
    requires i < 64 && j < 64
    ensures Bit(One(j), i) <==> i == j
  {
    OneHot(i);
    AndSimple(One(i));
    if i != j {
      if i > 0 && j > 0 {
        BitOfOne(i - 1, j - 1);
        DoubleAnd(One(j - 1), One(i - 1));
      } else if i == 0 {
        DoubleAnd(One(j - 1), 0);
      } else {
        DoubleAnd(One(i - 1), 0);
      }
    }
  }

  lemma BitOfOr(a: bv64, b: bv64, i: nat)
    ensures Bit(Or(a, b), i) <==> Bit(a, i) || Bit(b, i)
  {
    MeetsOr(a, b, One(i));
  }

  lemma BitOfAnd(a: bv64, b: bv64, i: nat)
    ensures Bit(And(a, b), i) <==> Bit(a, i) && Bit(b, i)
  {
    AtMostOneBit(i);
    MeetsAnd(a, b, One(i));
  }

  lemma BitOfDouble(word: bv64, i: nat)
    requires i < 64
    ensures Bit(Double(word), i) <==> i > 0 && Bit(word, i - 1)
  {
    if i == 0 {
      EvenWord(word);
    } else {
      OneHot(i - 1);
      MeetsDouble(word, One(i - 1));
      assert One(i) == Double(One(i - 1));
    }
  }

  lemma {:induction false} BitOfShift(word: bv64, amount: nat, i: nat)
    requires i < 64
    ensures Bit(ShiftLeft(word, amount), i) <==> i >= amount && Bit(word, i - amount)
  {
    if amount > 0 {
      BitOfDouble(ShiftLeft(word, amount - 1), i);
      if i > 0 { BitOfShift(word, amount - 1, i - 1); }
    }
  }

  lemma BelowSplits(high: nat)
    requires high < 64
    ensures Below(high + 1) == Or(Below(high), One(high))
  {
    AtMostOneBit(high);
    OneHot(high);
    DoubleOneBit(One(high));
  }

  /** The set of positions below `high`. */
  lemma {:induction false} BitOfBelow(high: nat, i: nat)
    requires high <= 64 && i < 64
    ensures Bit(Below(high), i) <==> i < high
  {
    if high == 0 {
      AndSimple(One(i));
    } else {
      BelowSplits(high - 1);
      BitOfOr(Below(high - 1), One(high - 1), i);
      BitOfBelow(high - 1, i);
      BitOfOne(i, high - 1);
    }
  }

  lemma {:induction false} NoBitsBelow(word: bv64, high: nat)
    requires high <= 64
    requires forall i: nat :: i < high ==> !Bit(word, i)
    ensures !Meets(word, Below(high))
  {
    if high == 0 {
      AndSimple(word);
    } else {
      NoBitsBelow(word, high - 1);
      BelowSplits(high - 1);
      assert !Bit(word, high - 1);
      MeetsOr(Below(high - 1), One(high - 1), word);
    }
  }

  lemma AllOnesIsNeutral(word: bv64)
    ensures word & ALL_ONES == word && (0 as bv64) - 1 == ALL_ONES
  {}

  /** A word is zero exactly when none of its 64 bits is set. */
  lemma ZeroHasNoBits(word: bv64)
    ensures word == 0 <==> forall i: nat :: i < 64 ==> !Bit(word, i)
  {
    if word == 0 {
      forall i: nat | i < 64 ensures !Bit(word, i) { AndSimple(One(i)); }
    } else if forall i: nat :: i < 64 ==> !Bit(word, i) {
      NoBitsBelow(word, 64);
      OneAt64();
      AllOnesIsNeutral(word);
    }
  }

  lemma BitOfAllOnes(i: nat)
    requires i < 64
    ensures Bit(ALL_ONES, i)
  {
    BitOfBelow(64, i);
    OneAt64();
    AllOnesIsNeutral(0);
  }
}
