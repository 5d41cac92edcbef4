/** The 32-bit sequence-number comparison and gap of the kernel module.
    The comparison is not the half-window rule of section 3.4 of RFC 9293: it is asymmetric
    around the constant 4294900000, which leaves a forward window of 67295. */
module SequenceNumbers {
  import opened Machine

  const LARGER_LIMIT: int := 4294900000

  /** The longest forward step recognised from every base: 2^32 - LARGER_LIMIT - 1. */
  const WINDOW: int := 67295

  predicate IsSeqLarger(seq1: u32, seq2: u32) {
    if seq1 > seq2 && seq1 - seq2 <= LARGER_LIMIT then true
    else if seq1 < seq2 && seq2 - seq1 > LARGER_LIMIT then true
    else false
  }

  function SeqGap(seq1: u32, seq2: u32): u32 {
    if IsSeqLarger(seq1, seq2) then
      if seq1 > seq2 then seq1 - seq2 else 4294967295 - (seq2 - seq1)
    else
      if seq2 > seq1 then seq2 - seq1 else 4294967295 - (seq1 - seq2)
  }

  /** Modular distance from one sequence number forward to another. */
  function Forward(from: u32, to: u32): u32 {
    ToU32(to - from)
  }

  /** Exactly one of "larger", "smaller" and "equal" holds, on all pairs. */
  lemma Trichotomy(a: u32, b: u32)
    ensures a == b ==> !IsSeqLarger(a, b) && !IsSeqLarger(b, a)
    ensures a != b ==> (IsSeqLarger(a, b) <==> !IsSeqLarger(b, a))
  {
  }

  /** The comparison in terms of modular distance. */
  lemma LargerByDistance(a: u32, b: u32)
    ensures IsSeqLarger(a, b) <==>
              1 <= Forward(b, a) <= WINDOW || (a > b && Forward(b, a) <= LARGER_LIMIT)
  {
  }

  /** On any base plus offsets 0..67295 the comparison is the strict total order of the offsets. */
  lemma WindowOrder(base: u32, i: int, j: int)
    requires 0 <= i <= WINDOW && 0 <= j <= WINDOW
    ensures IsSeqLarger(Add32(base, i), Add32(base, j)) <==> i > j
    ensures Add32(base, i) == Add32(base, j) <==> i == j
  {
  }

  /** 67295 is exact: a forward step is recognised from every base iff it is 1..67295. */
  lemma WindowIsExact(d: u32)
    ensures (forall base: u32 :: IsSeqLarger(Add32(base, d), base)) <==> 1 <= d <= WINDOW
  {
    if 1 <= d <= WINDOW {
      forall base: u32
        ensures IsSeqLarger(Add32(base, d), base)
      {
        WindowOrder(base, d, 0);
      }
    } else if d == 0 {
      assert !IsSeqLarger(Add32(0, d), 0);
    } else {
      var base: u32 := TWO32 - d;
      assert Add32(base, d) == 0;
      assert !IsSeqLarger(Add32(base, d), base);
    }
  }

  /** How often the numbers have wrapped at an offset from a base. */
  function Wraps(base: u32, offset: nat): nat {
    (base + offset) / 0x1_0000_0000
  }

  /** Two offsets within one window, or with no wrap between them. */
  predicate Comparable(base: u32, i: nat, j: nat) {
    || -WINDOW <= i - j <= WINDOW
    || (Wraps(base, i) == Wraps(base, j) && -LARGER_LIMIT <= i - j <= LARGER_LIMIT)
  }

  /** Up to one whole wrap apart, the comparison agrees with the offsets exactly in these cases. */
  lemma ComparesIff(base: u32, i: nat, j: nat)
    requires -TWO32 < i - j < TWO32
    ensures (IsSeqLarger(Add32(base, i), Add32(base, j)) <==> i > j) <==> Comparable(base, i, j)
    ensures Add32(base, i) == Add32(base, j) <==> i == j
  {
  }

  /** Outside one window the comparison is not an order: three numbers can form a cycle. */
  lemma ComparisonHasCycle() returns (a: u32, b: u32, c: u32)
    ensures IsSeqLarger(a, b) && IsSeqLarger(b, c) && IsSeqLarger(c, a)
  {
    a, b, c := 4294950000, 2000000000, 0;
  }

  /** For distinct numbers the gap is symmetric, and the forward distance from the smaller to the
      larger, less one when that step crosses zero. */
  lemma GapByDistance(a: u32, b: u32)
    requires a != b
    ensures SeqGap(a, b) == SeqGap(b, a)
    ensures IsSeqLarger(a, b) ==>
              SeqGap(a, b) == if a > b then Forward(b, a) else Forward(b, a) - 1
  {
  }

  /** The gap of a number to itself is the largest unsigned value, not zero; no other pair has it. */
  lemma GapIsMaximalOnlyOnEqual(a: u32, b: u32)
    ensures SeqGap(a, b) == 4294967295 <==> a == b
  {
  }
}
