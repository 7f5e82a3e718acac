/**
 The required fields of a struct as bits of a 64-bit word. The parser code works with the set
 of fields it found; the emitted text keeps one bit for each required field and compares with
 a mask, which exists exactly for up to 63 required fields.
 */
module PresenceMask {
  import opened ArrayLayout
  import opened ArrayLayoutParser
  import opened Words

  /** The bit of field `i`: how many required fields stand before it. */
  function BitIndex(fields: Fields, i: nat): (b: nat)
    requires i <= |fields|
    ensures b <= i
  {
    if i == 0 then 0 else BitIndex(fields, i - 1) + if IsRequired(fields[i - 1]) then 1 else 0
  }

  /** The variable `found` after those fields were read: each one's bit was set. */
  function FoundWord(fields: Fields, found: set<nat>): (w: Bits)
    ensures IsWord(w)
  {
    seq(64, b => exists i: nat :: i in found && i < |fields| && IsRequired(fields[i]) && BitIndex(fields, i) == b)
  }

  /** The mask in the emitted code; a shift by 64 or more is undefined. */
  datatype Mask = Undefined | Defined(word: Bits)

  /** `found & mask == mask` is the test for all required fields. */
  ghost predicate Tests(fields: Fields, word: Bits) {
    forall found: set<nat> ::
      And(FoundWord(fields, found), word) == word <==> RequiredMask(fields) <= found
  }

  lemma {:induction false} BitsGrow(fields: Fields, i: nat, j: nat)
    requires i <= j <= |fields|
    ensures BitIndex(fields, i) <= BitIndex(fields, j)
    ensures i < j && IsRequired(fields[i]) ==> BitIndex(fields, i) < BitIndex(fields, j)
  {
    if i < j {
      BitsGrow(fields, i, j - 1);
    }
  }

  /** Every bit below the count belongs to a required field. */
  lemma {:induction false} BitIsTaken(fields: Fields, n: nat, b: nat) returns (i: nat)
    requires n <= |fields| && b < BitIndex(fields, n)
    ensures i < n && IsRequired(fields[i]) && BitIndex(fields, i) == b
  {
    if b < BitIndex(fields, n - 1) {
      i := BitIsTaken(fields, n - 1, b);
    } else {
      i := n - 1;
    }
  }

  /** The count is the number of required fields. */
  lemma {:induction false} CountIs(fields: Fields, n: nat)
    requires n <= |fields|
    ensures |set i: nat | i < n && IsRequired(fields[i])| == BitIndex(fields, n)
  {
    var some := set i: nat | i < n && IsRequired(fields[i]);
    if n == 0 {
      assert some == {};
    } else {
      var fewer := set i: nat | i < n - 1 && IsRequired(fields[i]);
      CountIs(fields, n - 1);
      assert some == fewer + if IsRequired(fields[n - 1]) then {n - 1} else {};
    }
  }

  lemma FoundBit(fields: Fields, found: set<nat>, i: nat)
    requires i < |fields| && IsRequired(fields[i]) && BitIndex(fields, i) < 64
    ensures FoundWord(fields, found)[BitIndex(fields, i)] <==> i in found
  {
    if FoundWord(fields, found)[BitIndex(fields, i)] {
      var j: nat :| j in found && j < |fields| && IsRequired(fields[j]) && BitIndex(fields, j) == BitIndex(fields, i);
      BitsGrow(fields, if i < j then i else j, if i < j then j else i);
    }
  }

  lemma MaskBit(count: nat, b: nat)
    requires count <= 63 && b < 64
    ensures |FromNat(Pow2(count) - 1, 64)| == 64 && FromNat(Pow2(count) - 1, 64)[b] == (b < count)
  {
    hide FromNat, Pow2;
    MaskBits(Pow2(count) - 1, count);
  }

  /** With as many ones as there are required fields the comparison is the test. */
  lemma OnesTest(fields: Fields)
    requires BitIndex(fields, |fields|) <= 63
    ensures Tests(fields, FromNat(Pow2(BitIndex(fields, |fields|)) - 1, 64))
  {
    hide FromNat, Pow2, IsRequired, FoundWord, BitIndex;
    var count := BitIndex(fields, |fields|);
    var word := FromNat(Pow2(count) - 1, 64);
    forall found: set<nat>
      ensures And(FoundWord(fields, found), word) == word <==> RequiredMask(fields) <= found
    {
      TestsFound(fields, found, word);
    }
  }

  lemma TestsFound(fields: Fields, found: set<nat>, word: Bits)
    requires BitIndex(fields, |fields|) <= 63 && word == FromNat(Pow2(BitIndex(fields, |fields|)) - 1, 64)
    ensures And(FoundWord(fields, found), word) == word <==> RequiredMask(fields) <= found
  {
    hide FromNat, Pow2, IsRequired, FoundWord, BitIndex;
    var count, both := BitIndex(fields, |fields|), And(FoundWord(fields, found), word);
    if both == word {
      forall i | i in RequiredMask(fields)
        ensures i in found
      {
        BitsGrow(fields, i, |fields|);
        MaskBit(count, BitIndex(fields, i));
        FoundBit(fields, found, i);
        assert both[BitIndex(fields, i)];
      }
    }
    if RequiredMask(fields) <= found {
      forall b | 0 <= b < 64
        ensures both[b] == word[b]
      {
        MaskBit(count, b);
        if b < count {
          var i := BitIsTaken(fields, |fields|, b);
          FoundBit(fields, found, i);
        }
      }
      MaskBit(count, 0);
      assert both == word;
    }
  }

  /** `((uint64_t)1 << requiredCount) - 1`: the mask is defined exactly for up to 63 required
      fields, and then tests that all of them were found. With none the source compares nothing,
      as a mask of zero does. */
  method MakeMask(fields: Fields) returns (r: Mask)
    ensures r.Undefined? <==> |RequiredMask(fields)| > 63
    ensures r.Defined? ==> IsWord(r.word) && Tests(fields, r.word)
  {
    var requiredCount := 0;
    for i := 0 to |fields|
      invariant requiredCount == BitIndex(fields, i)
    {
      if IsRequired(fields[i]) {
        requiredCount := requiredCount + 1;
      }
    }
    CountIs(fields, |fields|);
    assert RequiredMask(fields) == set i: nat | i < |fields| && IsRequired(fields[i]);
    if requiredCount > 63 {
      return Undefined;
    }
    OnesTest(fields);
    r := Defined(FromNat(Pow2(requiredCount) - 1, 64));
  }
}
