/** Choice of the priority level (and DSCP value) from the bytes a flow has sent. */
module Priority {
  import opened Machine

  /** The first level whose threshold is not exceeded; the lowest priority if there is none.
      Thresholds are C ints compared with an unsigned size, hence the conversion. */
  function Level(size: u32, thresh: seq<i32>): (level: nat)
    ensures level <= |thresh|
    ensures forall i :: 0 <= i < level ==> ToU32(thresh[i]) < size
    ensures level < |thresh| ==> size <= ToU32(thresh[level])
  {
    if thresh == [] || size <= ToU32(thresh[0]) then 0
    else 1 + Level(size, thresh[1..])
  }

  /** pias_priority: the DSCP of the chosen level. */
  method PiasPriority(size: u32, thresh: seq<i32>, dscp: seq<i32>) returns (d: i32)
    requires |dscp| == |thresh| + 1
    ensures d == dscp[Level(size, thresh)]
  {
    var i := 0;
    while i < |thresh|
      invariant 0 <= i <= |thresh|
      invariant forall j :: 0 <= j < i ==> ToU32(thresh[j]) < size
    {
      if size <= ToU32(thresh[i]) {
        return dscp[i];
      }
      i := i + 1;
    }
    d := dscp[|thresh|];
  }

  /** Number of thresholds strictly below a size. */
  function CountBelow(size: u32, thresh: seq<i32>): nat {
    if thresh == [] then 0
    else (if ToU32(thresh[0]) < size then 1 else 0) + CountBelow(size, thresh[1..])
  }

  ghost predicate SortedUnsigned(thresh: seq<i32>) {
    forall i, j :: 0 <= i < j < |thresh| ==> ToU32(thresh[i]) <= ToU32(thresh[j])
  }

  /** A larger size never gets a higher priority, whatever the thresholds. */
  lemma LevelMonotone(size1: u32, size2: u32, thresh: seq<i32>)
    requires size1 <= size2
    ensures Level(size1, thresh) <= Level(size2, thresh)
  {
  }

  lemma {:induction false} CountBelowZero(size: u32, thresh: seq<i32>)
    requires forall i :: 0 <= i < |thresh| ==> size <= ToU32(thresh[i])
    ensures CountBelow(size, thresh) == 0
  {
    if thresh != [] {
      assert forall i :: 0 <= i < |thresh[1..]| ==> thresh[1..][i] == thresh[i + 1];
      CountBelowZero(size, thresh[1..]);
    }
  }

  lemma {:induction false} LevelCountsWhenSorted(size: u32, thresh: seq<i32>)
    requires SortedUnsigned(thresh)
    ensures Level(size, thresh) == CountBelow(size, thresh)
  {
    if thresh != [] {
      if size <= ToU32(thresh[0]) {
        CountBelowZero(size, thresh);
      } else {
        LevelCountsWhenSorted(size, thresh[1..]);
      }
    }
  }

  /** The level never exceeds the count, and misses any later threshold below the size. */
  lemma {:induction false} CountAboveLevel(size: u32, thresh: seq<i32>, late: nat)
    requires late < |thresh| && ToU32(thresh[late]) < size && Level(size, thresh) < late
    ensures Level(size, thresh) < CountBelow(size, thresh)
  {
    if size <= ToU32(thresh[0]) {
      HasOneBelow(size, thresh, late);
    } else {
      CountAboveLevel(size, thresh[1..], late - 1);
    }
  }

  lemma {:induction false} HasOneBelow(size: u32, thresh: seq<i32>, at: nat)
    requires at < |thresh| && ToU32(thresh[at]) < size
    ensures CountBelow(size, thresh) >= 1
  {
    if at > 0 {
      HasOneBelow(size, thresh[1..], at - 1);
    }
  }

  /** The level is the count of thresholds strictly below the size, for every size,
      exactly when the thresholds, read as unsigned, are sorted. */
  lemma LevelIsCountIffSorted(thresh: seq<i32>)
    ensures (forall size: u32 :: Level(size, thresh) == CountBelow(size, thresh)) <==> SortedUnsigned(thresh)
  {
    if SortedUnsigned(thresh) {
      forall size: u32
        ensures Level(size, thresh) == CountBelow(size, thresh)
      {
        LevelCountsWhenSorted(size, thresh);
      }
    } else {
      var i, j :| 0 <= i < j < |thresh| && ToU32(thresh[i]) > ToU32(thresh[j]);
      var size: u32 := ToU32(thresh[j]) + 1;
      CountAboveLevel(size, thresh, j);
      assert Level(size, thresh) != CountBelow(size, thresh);
    }
  }
}
