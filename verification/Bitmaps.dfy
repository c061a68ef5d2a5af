/** Bitmaps of 64-bit words, read and filled a word at a time under a mask. */
module Bitmaps {
  import opened Bits

  function Words(bits: nat): nat {
    (bits + 63) / 64
  }

  predicate Has(bitmap: seq<bv64>, at: nat)
    requires at / 64 < |bitmap|
  {
    Bit(bitmap[at / 64], at % 64)
  }

  /** The positions of one word from `low` up to `high`, where 0 stands for the end of the word. */
  function RangeMask(low: nat, high: nat): bv64 {
    var mask := ShiftLeft(ALL_ONES, low);
    if high != 0 then And(mask, Below(high)) else mask
  }

  lemma BitOfRangeMask(low: nat, high: nat, i: nat)
    requires low < 64 && high < 64 && i < 64
    ensures Bit(RangeMask(low, high), i) <==> low <= i && (high == 0 || i < high)
  {
    BitOfShift(ALL_ONES, low, i);
    if i >= low { BitOfAllOnes(i - low); }
    if high != 0 {
      BitOfAnd(ShiftLeft(ALL_ONES, low), Below(high), i);
      BitOfBelow(high, i);
    }
  }

  lemma MeetsMeaning(word: bv64, mask: bv64)
    ensures Meets(word, mask) <==> exists i: nat :: i < 64 && Bit(word, i) && Bit(mask, i)
  {
    ZeroHasNoBits(And(word, mask));
    forall i: nat | i < 64 ensures Bit(And(word, mask), i) <==> Bit(word, i) && Bit(mask, i) {
      BitOfAnd(word, mask, i);
    }
  }

  /** The part of the range that lies in the word of `start`. */
  lemma WordOfRange(start: nat, end: nat, i: nat)
    requires start < end && i < 64
    ensures var wordEnd := if (start / 64 + 1) * 64 < end then (start / 64 + 1) * 64 else end;
            Bit(RangeMask(start % 64, wordEnd % 64), i) <==> start <= start / 64 * 64 + i < wordEnd
  {
    var wordEnd := if (start / 64 + 1) * 64 < end then (start / 64 + 1) * 64 else end;
    BitOfRangeMask(start % 64, wordEnd % 64, i);
  }

  lemma WordIsClear(bitmap: seq<bv64>, start: nat, end: nat)
    requires start < end <= 64 * |bitmap|
    ensures var wordEnd := if (start / 64 + 1) * 64 < end then (start / 64 + 1) * 64 else end;
            !Meets(bitmap[start / 64], RangeMask(start % 64, wordEnd % 64))
            <==> forall k :: start <= k < wordEnd ==> !Has(bitmap, k)
  {
    var word := start / 64;
    var wordEnd := if (word + 1) * 64 < end then (word + 1) * 64 else end;
    var mask := RangeMask(start % 64, wordEnd % 64);
    MeetsMeaning(bitmap[word], mask);
    forall i: nat | i < 64 ensures Bit(mask, i) <==> start <= word * 64 + i < wordEnd { WordOfRange(start, end, i); }
    if Meets(bitmap[word], mask) {
      var i: nat :| i < 64 && Bit(bitmap[word], i) && Bit(mask, i);
      assert Has(bitmap, word * 64 + i);
    } else {
      forall k | start <= k < wordEnd ensures !Has(bitmap, k) {
        assert k == word * 64 + k % 64;
        assert Bit(mask, k % 64);
      }
    }
  }

  method RangeClear(bitmap: array<bv64>, start: nat, end: nat) returns (clear: bool)
    requires end <= 64 * bitmap.Length
    ensures clear <==> forall k :: start <= k < end ==> !Has(bitmap[..], k)
  {
    var at := start;
    while at < end
      invariant start <= at
      invariant forall k :: start <= k < at && k < end ==> !Has(bitmap[..], k)
    {
      var word := at / 64;
      var wordEnd := if (word + 1) * 64 < end then (word + 1) * 64 else end;
      WordIsClear(bitmap[..], at, end);
      if Meets(bitmap[word], RangeMask(at % 64, wordEnd % 64)) { return false; }
      at := wordEnd;
    }
    return true;
  }

  method SetRange(bitmap: array<bv64>, start: nat, end: nat)
    requires end <= 64 * bitmap.Length
    modifies bitmap
    ensures forall k :: 0 <= k < 64 * bitmap.Length ==>
            (Has(bitmap[..], k) <==> Has(old(bitmap[..]), k) || start <= k < end)
  {
    ghost var before := bitmap[..];
    var at := start;
    while at < end
      invariant start <= at
      invariant forall k :: 0 <= k < 64 * bitmap.Length ==>
                  (Has(bitmap[..], k) <==> Has(before, k) || (start <= k < at && k < end))
    {
      var word := at / 64;
      var wordEnd := if (word + 1) * 64 < end then (word + 1) * 64 else end;
      var mask := RangeMask(at % 64, wordEnd % 64);
      ghost var current := bitmap[..];
      bitmap[word] := Or(bitmap[word], mask);
      forall k | 0 <= k < 64 * bitmap.Length
        ensures Has(bitmap[..], k) <==> Has(current, k) || at <= k < wordEnd
      {
        WordOfRange(at, end, k % 64);
        BitOfOr(current[word], mask, k % 64);
        assert k == k / 64 * 64 + k % 64;
      }
      at := wordEnd;
    }
  }
}
