/** The search for the size threshold that separates two cumulative distributions best. */
module ThresholdSearch {
  import opened Machine

  /** (key, proportion) pairs, as the histogram step produces them. */
  type Table = seq<(int, real)>

  ghost predicate SortedKeys(prop: Table) {
    forall i, j :: 0 <= i < j < |prop| ==> prop[i].0 < prop[j].0
  }

  /** Number of keys not above t. */
  function CountUpTo(prop: Table, t: int): (n: nat)
    ensures n <= |prop|
  {
    if prop == [] then 0
    else CountUpTo(prop[..|prop| - 1], t) + if prop[|prop| - 1].0 <= t then 1 else 0
  }

  lemma {:induction false} CountSplits(prop: Table, t: int, n: nat)
    requires n <= |prop|
    requires forall i :: 0 <= i < n ==> prop[i].0 <= t
    requires forall i :: n <= i < |prop| ==> prop[i].0 > t
    ensures CountUpTo(prop, t) == n
  {
    if prop != [] {
      CountSplits(prop[..|prop| - 1], t, if n == |prop| then n - 1 else n);
    }
  }

  lemma {:induction false} CountBounds(prop: Table, t: int)
    requires SortedKeys(prop)
    ensures forall i :: 0 <= i < |prop| ==> (prop[i].0 <= t <==> i < CountUpTo(prop, t))
  {
    if prop != [] {
      CountBounds(prop[..|prop| - 1], t);
    }
  }

  /** get_index: binary search for the last key not above t; -1 if there is none. */
  method GetIndex(prop: Table, t: int) returns (index: int)
    requires SortedKeys(prop)
    ensures index == CountUpTo(prop, t) - 1
  {
    var indexMin, indexMax := 0, |prop| - 1;
    while indexMin <= indexMax
      invariant 0 <= indexMin <= indexMax + 1 <= |prop|
      invariant forall i :: 0 <= i < indexMin ==> prop[i].0 < t
      invariant forall i :: indexMax < i < |prop| ==> prop[i].0 > t
      decreases indexMax - indexMin
    {
      var mid := (indexMin + indexMax) / 2;
      if prop[mid].0 == t {
        CountSplits(prop, t, mid + 1);
        return mid;
      } else if prop[mid].0 < t {
        indexMin := mid + 1;
      } else {
        indexMax := mid - 1;
      }
    }
    CountSplits(prop, t, indexMax + 1);
    index := indexMax;
  }

  /** The step function of a table: its proportion at the last key not above t. */
  function At(prop: Table, t: int): real
    requires CountUpTo(prop, t) > 0
  {
    prop[CountUpTo(prop, t) - 1].1
  }

  function Abs(x: real): real {
    if x < 0.0 then -x else x
  }

  predicate InReach(a: Table, b: Table, t: int) {
    CountUpTo(a, t) > 0 && CountUpTo(b, t) > 0
  }

  function Diff(a: Table, b: Table, t: int): (d: real)
    requires InReach(a, b, t)
    ensures d >= 0.0
  {
    Abs(At(a, t) - At(b, t))
  }

  function Max(x: int, y: int): int {
    if y > x then y else x
  }

  function Min(x: int, y: int): int {
    if y < x then y else x
  }

  function TMin(a: Table, b: Table): int
    requires a != [] && b != []
  {
    Max(a[0].0, b[0].0)
  }

  function TMax(a: Table, b: Table): int
    requires a != [] && b != []
  {
    Min(a[|a| - 1].0, b[|b| - 1].0)
  }

  lemma {:induction false} CountPositive(prop: Table, t: int)
    requires prop != [] && SortedKeys(prop) && prop[0].0 <= t
    ensures CountUpTo(prop, t) > 0
  {
    if |prop| > 1 {
      CountPositive(prop[..|prop| - 1], t);
    }
  }

  lemma ReachAbove(a: Table, b: Table, t: int)
    requires a != [] && b != [] && SortedKeys(a) && SortedKeys(b) && t >= TMin(a, b)
    ensures InReach(a, b, t)
  {
    CountPositive(a, t);
    CountPositive(b, t);
  }

  /** What the search is for: the earliest candidate with the largest difference, or the start of
      the range when no candidate has a positive one. */
  ghost predicate IsFirstBest(a: Table, b: Table, tMin: int, candidates: iset<int>, best: int, diff: real) {
    && (forall t :: t in candidates ==> InReach(a, b, t) && Diff(a, b, t) <= diff)
    && (if diff > 0.0 then
          && best in candidates && InReach(a, b, best) && Diff(a, b, best) == diff
          && forall t :: t in candidates && t < best ==> InReach(a, b, t) && Diff(a, b, t) < diff
        else diff == 0.0 && best == tMin)
  }

  /** The requirement determines the result. */
  lemma FirstBestUnique(
    a: Table, b: Table, tMin: int, candidates: iset<int>, best: int, diff: real, best': int, diff': real)
    requires IsFirstBest(a, b, tMin, candidates, best, diff) && IsFirstBest(a, b, tMin, candidates, best', diff')
    ensures best == best' && diff == diff'
  {
  }

  /** Every integer from tMin up to but not including tMax. */
  ghost function Range(tMin: int, tMax: int): iset<int> {
    iset t | InRange(tMin, tMax, t)
  }

  predicate InRange(tMin: int, tMax: int, t: int) {
    tMin <= t < tMax
  }

  /** The range is where both tables have a key not above t and their last key above it. */
  lemma RangeIsOverlap(a: Table, b: Table, t: int)
    requires a != [] && b != []
    ensures InRange(TMin(a, b), TMax(a, b), t) <==>
              a[0].0 <= t < a[|a| - 1].0 && b[0].0 <= t < b[|b| - 1].0
    ensures TMin(a, b) == a[0].0 || TMin(a, b) == b[0].0
    ensures a[0].0 <= TMin(a, b) && b[0].0 <= TMin(a, b)
  {
  }

  /** The difference is the distance between the two step functions. */
  lemma DiffIsDistance(a: Table, b: Table, t: int)
    requires InReach(a, b, t)
    ensures var x, y := a[CountUpTo(a, t) - 1].1, b[CountUpTo(b, t) - 1].1;
      (x <= y ==> Diff(a, b, t) == y - x) && (y <= x ==> Diff(a, b, t) == x - y)
  {
  }

  /** get_optimal_threshold_from_proportion, trying every integer of the range; an empty table is an
      index error. */
  method GetOptimalThreshold(a: Table, b: Table) returns (r: Option<(int, real)>)
    requires SortedKeys(a) && SortedKeys(b)
    ensures r.None? <==> a == [] || b == []
    ensures r.Some? ==>
      IsFirstBest(a, b, TMin(a, b), Range(TMin(a, b), TMax(a, b)), r.value.0, r.value.1)
  {
    if a == [] || b == [] {
      return None;
    }
    var tMin, tMax := Max(a[0].0, b[0].0), Min(a[|a| - 1].0, b[|b| - 1].0);
    var diffMax, optimal := 0.0, tMin;
    var t := tMin;
    while t < tMax
      invariant tMin <= t && (t <= tMax || t == tMin)
      invariant IsFirstBest(a, b, tMin, Range(tMin, t), optimal, diffMax)
    {
      ReachAbove(a, b, t);
      var indexA := GetIndex(a, t);
      var indexB := GetIndex(b, t);
      var diff := Abs(a[indexA].1 - b[indexB].1);
      assert diff == Diff(a, b, t);
      if diff > diffMax {
        diffMax := diff;
        optimal := t;
      }
      t := t + 1;
    }
    assert tMin >= tMax ==> Range(tMin, t) == Range(tMin, tMax);
    r := Some((optimal, diffMax));
  }

  predicate IsKey(prop: Table, t: int) {
    exists i :: 0 <= i < |prop| && prop[i].0 == t
  }

  /** The start of the range, and the keys of either table inside it. */
  ghost function Breakpoints(a: Table, b: Table, tMin: int, tMax: int): iset<int> {
    iset t | tMin <= t < tMax && (t == tMin || IsKey(a, t) || IsKey(b, t))
  }

  /** Nothing changes at an integer that is no key. */
  lemma {:induction false} FlatBetweenKeys(prop: Table, t: int)
    requires !IsKey(prop, t)
    ensures CountUpTo(prop, t - 1) == CountUpTo(prop, t)
  {
    if prop != [] {
      var before := prop[..|prop| - 1];
      forall i | 0 <= i < |before|
        ensures before[i].0 != t
      {
        assert prop[i].0 != t;
      }
      FlatBetweenKeys(before, t);
      assert prop[|prop| - 1].0 != t;
    }
  }

  /** Every difference in the range is already attained at a breakpoint no later. */
  lemma {:induction false} BreakpointBelow(a: Table, b: Table, tMin: int, tMax: int, t: int) returns (p: int)
    requires tMin <= t < tMax && InReach(a, b, t)
    ensures p in Breakpoints(a, b, tMin, tMax) && p <= t
    ensures InReach(a, b, p) && Diff(a, b, p) == Diff(a, b, t)
    decreases t - tMin
  {
    if t == tMin || IsKey(a, t) || IsKey(b, t) {
      p := t;
    } else {
      FlatBetweenKeys(a, t);
      FlatBetweenKeys(b, t);
      p := BreakpointBelow(a, b, tMin, tMax, t - 1);
    }
  }

  /** Scanning only the breakpoints, or any set of integers of the range that contains them, gives
      the same answers as scanning every integer. */
  lemma BreakpointsSuffice(a: Table, b: Table, tMin: int, tMax: int, candidates: iset<int>, best: int, diff: real)
    requires Breakpoints(a, b, tMin, tMax) <= candidates <= Range(tMin, tMax)
    requires forall t :: InRange(tMin, tMax, t) ==> InReach(a, b, t)
    ensures IsFirstBest(a, b, tMin, candidates, best, diff) <==> IsFirstBest(a, b, tMin, Range(tMin, tMax), best, diff)
  {
    if IsFirstBest(a, b, tMin, candidates, best, diff) {
      forall t | t in Range(tMin, tMax)
        ensures Diff(a, b, t) <= diff
        ensures diff > 0.0 && t < best ==> Diff(a, b, t) < diff
      {
        var p := BreakpointBelow(a, b, tMin, tMax, t);
        assert p in candidates;
      }
    }
    if IsFirstBest(a, b, tMin, Range(tMin, tMax), best, diff) && diff > 0.0 {
      FirstBestIsBreakpoint(a, b, tMin, tMax, best, diff);
    }
  }

  lemma FirstBestIsBreakpoint(a: Table, b: Table, tMin: int, tMax: int, best: int, diff: real)
    requires IsFirstBest(a, b, tMin, Range(tMin, tMax), best, diff) && diff > 0.0
    ensures best in Breakpoints(a, b, tMin, tMax)
  {
    var p := BreakpointBelow(a, b, tMin, tMax, best);
    assert p in Range(tMin, tMax);
  }

  /** The threshold found is the start of the range or a key of one of the tables, and a scan of the
      breakpoints alone finds it, and only it. */
  lemma OptimumIsBreakpoint(a: Table, b: Table, best: int, diff: real)
    requires a != [] && b != [] && SortedKeys(a) && SortedKeys(b)
    requires IsFirstBest(a, b, TMin(a, b), Range(TMin(a, b), TMax(a, b)), best, diff)
    ensures best == TMin(a, b) || IsKey(a, best) || IsKey(b, best)
    ensures forall best', diff' ::
      IsFirstBest(a, b, TMin(a, b), Breakpoints(a, b, TMin(a, b), TMax(a, b)), best', diff') <==>
        best' == best && diff' == diff
  {
    var tMin, tMax := TMin(a, b), TMax(a, b);
    forall t | InRange(tMin, tMax, t)
      ensures InReach(a, b, t)
    {
      ReachAbove(a, b, t);
    }
    if diff > 0.0 {
      FirstBestIsBreakpoint(a, b, tMin, tMax, best, diff);
    }
    forall best', diff'
      ensures IsFirstBest(a, b, tMin, Breakpoints(a, b, tMin, tMax), best', diff') <==> best' == best && diff' == diff
    {
      BreakpointsSuffice(a, b, tMin, tMax, Breakpoints(a, b, tMin, tMax), best', diff');
      if IsFirstBest(a, b, tMin, Breakpoints(a, b, tMin, tMax), best', diff') {
        FirstBestUnique(a, b, tMin, Range(tMin, tMax), best, diff, best', diff');
      }
    }
  }
}
