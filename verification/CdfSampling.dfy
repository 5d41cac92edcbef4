/** Inverse-transform sampling from a piecewise-linear distribution, and its mean, over exact reals.
    Entry 0 continues the line from the origin, so every entry closes one segment. */
module CdfSampling {
  import opened CdfTables

  function Interpolate(x: real, x1: real, y1: real, x2: real, y2: real): real {
    if x1 == x2 then (y1 + y2) / 2.0
    else y1 + (x - x1) * (y2 - y1) / (x2 - x1)
  }

  /** The entry before entry i; the origin before the first. */
  function Prev(es: seq<Entry>, i: nat): Entry
    requires i <= |es|
  {
    if i == 0 then Entry(0.0, 0.0) else es[i - 1]
  }

  /** The first entry whose cdf is not below x. */
  function FirstAt(es: seq<Entry>, x: real): (i: nat)
    ensures i <= |es|
    ensures forall j :: 0 <= j < i ==> es[j].cdf < x
    ensures i < |es| ==> x <= es[i].cdf
  {
    if es == [] || x <= es[0].cdf then 0 else 1 + FirstAt(es[1..], x)
  }

  lemma FirstAtIs(es: seq<Entry>, x: real, i: nat)
    requires i <= |es|
    requires forall j :: 0 <= j < i ==> es[j].cdf < x
    requires i < |es| ==> x <= es[i].cdf
    ensures FirstAt(es, x) == i
  {
  }

  /** The value of the segment that ends at q. */
  function OnSegment(p: Entry, q: Entry, x: real): real {
    Interpolate(x, p.cdf, p.value, q.cdf, q.value)
  }

  function Sample(es: seq<Entry>, x: real): real
    requires es != []
  {
    var i := FirstAt(es, x);
    if i == |es| then es[|es| - 1].value else OnSegment(Prev(es, i), es[i], x)
  }

  /** gen_random_cdf, with the drawn number as an argument. */
  method GenRandomCdf(es: seq<Entry>, x: real) returns (y: real)
    requires es != []
    ensures y == Sample(es, x)
  {
    var i := 0;
    while i < |es|
      invariant 0 <= i <= |es|
      invariant forall j :: 0 <= j < i ==> es[j].cdf < x
    {
      if x <= es[i].cdf {
        FirstAtIs(es, x, i);
        if i == 0 {
          return Interpolate(x, 0.0, 0.0, es[i].cdf, es[i].value);
        } else {
          return Interpolate(x, es[i - 1].cdf, es[i - 1].value, es[i].cdf, es[i].value);
        }
      }
      i := i + 1;
    }
    FirstAtIs(es, x, i);
    y := es[|es| - 1].value;
  }

  /** Mean value on a segment times its probability. */
  function Area(p: Entry, q: Entry): real {
    (q.value + p.value) / 2.0 * (q.cdf - p.cdf)
  }

  function Average(es: seq<Entry>): real {
    if es == [] then 0.0
    else
      var n := |es| - 1;
      Average(es[..n]) + Area(Prev(es, n), es[n])
  }

  method AvgCdf(es: seq<Entry>) returns (avg: real)
    ensures avg == Average(es)
  {
    avg := 0.0;
    var i := 0;
    while i < |es|
      invariant 0 <= i <= |es|
      invariant avg == Average(es[..i])
    {
      var value, prob;
      if i == 0 {
        value := es[i].value / 2.0;
        prob := es[i].cdf;
      } else {
        value := (es[i].value + es[i - 1].value) / 2.0;
        prob := es[i].cdf - es[i - 1].cdf;
      }
      avg := avg + value * prob;
      assert es[..i + 1][..i] == es[..i];
      assert Average(es[..i + 1]) == Average(es[..i]) + Area(Prev(es, i), es[i]);
      i := i + 1;
    }
    assert es[..i] == es;
  }

  // Refining a table.

  /** A breakpoint on the line of segment i. */
  function MidPoint(es: seq<Entry>, i: nat, c: real): Entry
    requires i < |es|
  {
    Entry(OnSegment(Prev(es, i), es[i], c), c)
  }

  function Refine(es: seq<Entry>, i: nat, c: real): seq<Entry>
    requires i < |es|
  {
    es[..i] + [MidPoint(es, i, c)] + es[i..]
  }

  predicate Inside(es: seq<Entry>, i: nat, c: real) {
    i < |es| && Prev(es, i).cdf < c < es[i].cdf
  }

  /** Both halves of a cut segment lie on the line of the whole. */
  lemma CutLines(p: Entry, q: Entry, c: real, x: real)
    requires p.cdf < c < q.cdf
    ensures var m := Entry(OnSegment(p, q, c), c);
      OnSegment(p, m, x) == OnSegment(p, q, x) == OnSegment(m, q, x)
  {
  }

  /** And their areas add up to its area. */
  lemma CutArea(p: Entry, q: Entry, c: real)
    requires p.cdf < c < q.cdf
    ensures var m := Entry(OnSegment(p, q, c), c); Area(p, q) == Area(p, m) + Area(m, q)
  {
  }

  /** A breakpoint on the line, strictly inside any segment, leaves the mean unchanged. */
  lemma {:induction false} RefineKeepsAverage(es: seq<Entry>, i: nat, c: real)
    requires Inside(es, i, c)
    ensures Average(Refine(es, i, c)) == Average(es)
  {
    var n := |es| - 1;
    var r := Refine(es, i, c);
    if i == n {
      assert r[..n + 1] == es[..n] + [MidPoint(es, i, c)];
      assert r[..n + 1][..n] == es[..n];
      CutArea(Prev(es, n), es[n], c);
    } else {
      assert r[..n + 1] == Refine(es[..n], i, c);
      RefineKeepsAverage(es[..n], i, c);
    }
  }

  /** And it leaves every sampled value unchanged, whatever the number drawn. */
  lemma RefineKeepsSample(es: seq<Entry>, i: nat, c: real, x: real)
    requires Inside(es, i, c)
    ensures Sample(Refine(es, i, c), x) == Sample(es, x)
  {
    var r := Refine(es, i, c);
    var f := FirstAt(es, x);
    var mid := MidPoint(es, i, c);
    assert OnSegment(Prev(es, i), mid, x) == OnSegment(Prev(es, i), es[i], x) == OnSegment(mid, es[i], x) by {
      CutLines(Prev(es, i), es[i], c, x);
    }
    hide OnSegment;
    var g := if f < i || (f == i && x <= c) then f else f + 1;
    forall j | 0 <= j < g
      ensures r[j].cdf < x
    {
      assert r[j] == if j < i then es[j] else if j == i then MidPoint(es, i, c) else es[j - 1];
    }
    FirstAtIs(r, x, g);
    assert g < |r| && g != i && g != i + 1 ==> Prev(r, g) == Prev(es, f) && r[g] == es[f];
  }

  // Monotonicity and inversion.

  predicate Sorted(es: seq<Entry>) {
    && (forall i :: 0 <= i < |es| ==> es[i].value >= 0.0 && es[i].cdf >= 0.0)
    && (forall i, j :: 0 <= i < j < |es| ==> es[i].value <= es[j].value && es[i].cdf <= es[j].cdf)
  }

  predicate StrictlySorted(es: seq<Entry>) {
    && (forall i :: 0 <= i < |es| ==> es[i].value > 0.0 && es[i].cdf > 0.0)
    && (forall i, j :: 0 <= i < j < |es| ==> es[i].value < es[j].value && es[i].cdf < es[j].cdf)
  }

  /** The equal-x case of interpolate is met only at entry 0, for any table. */
  lemma EqualXOnlyAtFirst(es: seq<Entry>, x: real)
    requires FirstAt(es, x) < |es|
    ensures var i := FirstAt(es, x);
      Prev(es, i).cdf == es[i].cdf ==> i == 0 && x <= es[0].cdf == 0.0
  {
  }

  /** Along one rising segment. */
  lemma SegmentMonotone(p: Entry, q: Entry, x: real, y: real)
    requires p.cdf < q.cdf && p.value <= q.value && x <= y
    ensures OnSegment(p, q, x) <= OnSegment(p, q, y)
    ensures x < y && p.value < q.value ==> OnSegment(p, q, x) < OnSegment(p, q, y)
  {
  }

  lemma SegmentEnds(p: Entry, q: Entry)
    requires p.cdf < q.cdf
    ensures OnSegment(p, q, p.cdf) == p.value && OnSegment(p, q, q.cdf) == q.value
  {
  }

  /** A sampled value lies between the values at the ends of its segment. */
  lemma SampleOnSegment(es: seq<Entry>, x: real)
    requires es != [] && Sorted(es)
    ensures var i := FirstAt(es, x);
      if i == |es| then Sample(es, x) == es[|es| - 1].value
      else
        && Sample(es, x) <= es[i].value
        && (i > 0 || x >= 0.0 ==> Prev(es, i).value <= Sample(es, x))
        && (i > 0 && Prev(es, i).value < es[i].value ==> Prev(es, i).value < Sample(es, x))
  {
    var i := FirstAt(es, x);
    if i < |es| {
      var p, q := Prev(es, i), es[i];
      if p.cdf < q.cdf {
        SegmentEnds(p, q);
        SegmentMonotone(p, q, x, q.cdf);
        if p.cdf <= x {
          SegmentMonotone(p, q, p.cdf, x);
        }
      } else {
        EqualXOnlyAtFirst(es, x);
      }
    }
  }

  lemma FirstAtMonotone(es: seq<Entry>, x: real, y: real)
    requires x <= y
    ensures FirstAt(es, x) <= FirstAt(es, y)
  {
  }

  /** Sampling is monotone in the number drawn, for every sorted table with entries not below 0. */
  lemma SampleMonotone(es: seq<Entry>, x: real, y: real)
    requires es != [] && Sorted(es) && x <= y
    ensures Sample(es, x) <= Sample(es, y)
  {
    FirstAtMonotone(es, x, y);
    SampleOnSegment(es, x);
    SampleOnSegment(es, y);
    var i, j := FirstAt(es, x), FirstAt(es, y);
    if i == j < |es| && Prev(es, i).cdf < es[i].cdf {
      SegmentMonotone(Prev(es, i), es[i], x, y);
    }
  }

  /** It stays between 0 and the last value for every non-negative number drawn. */
  lemma SampleBounded(es: seq<Entry>, x: real)
    requires es != [] && Sorted(es) && x >= 0.0
    ensures 0.0 <= Sample(es, x) <= es[|es| - 1].value
  {
    SampleOnSegment(es, x);
  }

  // The mean.

  /** The number in the middle of the segment that entry i closes. */
  function Middle(es: seq<Entry>, i: nat): real
    requires i < |es|
  {
    (Prev(es, i).cdf + es[i].cdf) / 2.0
  }

  /** A value times the share of the numbers for which it stands. */
  function Scaled(v: real, share: real): real {
    v * share
  }

  /** The value sampled in the middle of a segment, times the share of numbers that fall on it. */
  function MeanTerm(es: seq<Entry>, i: nat): real
    requires i < |es|
  {
    Scaled(Sample(es, Middle(es, i)), es[i].cdf - Prev(es, i).cdf)
  }

  function SampledMean(es: seq<Entry>, n: nat): real
    requires n <= |es|
  {
    if n == 0 then 0.0 else SampledMean(es, n - 1) + MeanTerm(es, n - 1)
  }

  /** In the middle of a segment that can be drawn, the sample is halfway between its ends. */
  lemma SampleInMiddle(es: seq<Entry>, i: nat)
    requires Sorted(es) && i < |es| && Prev(es, i).cdf < es[i].cdf
    ensures 2.0 * Sample(es, Middle(es, i)) == Prev(es, i).value + es[i].value
  {
    FirstAtIs(es, Middle(es, i), i);
    LineInMiddle(Prev(es, i), es[i]);
  }

  lemma LineInMiddle(p: Entry, q: Entry)
    requires p.cdf < q.cdf
    ensures 2.0 * OnSegment(p, q, (p.cdf + q.cdf) / 2.0) == p.value + q.value
  {
    var w, h := q.cdf - p.cdf, q.value - p.value;
    assert (p.cdf + q.cdf) / 2.0 - p.cdf == w / 2.0;
    assert w / 2.0 * h / w == h / 2.0;
  }

  lemma AverageStep(es: seq<Entry>, n: nat)
    requires n < |es|
    ensures Average(es[..n + 1]) == Average(es[..n]) + Area(Prev(es, n), es[n])
  {
    assert es[..n + 1][..n] == es[..n];
  }

  lemma AreaIsMeanTerm(es: seq<Entry>, i: nat)
    requires Sorted(es) && i < |es|
    ensures Area(Prev(es, i), es[i]) == MeanTerm(es, i)
  {
    hide Area, Scaled;
    var p, q, v := Prev(es, i), es[i], Sample(es, Middle(es, i));
    if p.cdf < q.cdf {
      SampleInMiddle(es, i);
      AreaByDouble(p, q, v);
    } else {
      NoWidth(p, q, v);
    }
    hide Sample, Middle;
  }

  lemma NoWidth(p: Entry, q: Entry, v: real)
    requires p.cdf == q.cdf
    ensures Area(p, q) == 0.0 == Scaled(v, q.cdf - p.cdf)
  {
    assert q.cdf - p.cdf == 0.0;
  }

  /** The mean is that of the sampled values, for every sorted table: segment by segment, the value
      sampled in the middle times the share of numbers that fall on the segment. */
  lemma {:induction false} AverageIsSampledMean(es: seq<Entry>, n: nat)
    requires Sorted(es) && n <= |es|
    ensures Average(es[..n]) == SampledMean(es, n)
  {
    hide MeanTerm, Area, Sorted;
    if n > 0 {
      AverageIsSampledMean(es, n - 1);
      AverageStep(es, n - 1);
      AreaIsMeanTerm(es, n - 1);
    }
  }

  lemma AreaByDouble(p: Entry, q: Entry, v: real)
    requires 2.0 * v == p.value + q.value
    ensures Area(p, q) == Scaled(v, q.cdf - p.cdf)
  {
    assert (q.value + p.value) / 2.0 == v;
  }

  lemma ScaledAdds(v: real, a: real, b: real)
    ensures Scaled(v, a) + Scaled(v, b - a) == Scaled(v, b)
    ensures Scaled(v, 0.0) == 0.0 && Scaled(v, 1.0) == v
  {
  }

  lemma AreaBetween(p: Entry, q: Entry, lo: real, hi: real)
    requires p.cdf <= q.cdf && lo <= p.value <= hi && lo <= q.value <= hi
    ensures Scaled(lo, q.cdf - p.cdf) <= Area(p, q) <= Scaled(hi, q.cdf - p.cdf)
  {
    hide Scaled, Area;
    var m := (q.value + p.value) / 2.0;
    AreaByDouble(p, q, m);
    ScaledGrows(lo, m, q.cdf - p.cdf);
    ScaledGrows(m, hi, q.cdf - p.cdf);
  }

  lemma ScaledGrows(v: real, v': real, share: real)
    requires v <= v' && share >= 0.0
    ensures Scaled(v, share) <= Scaled(v', share)
  {
    NotNegative(v' - v, share);
    assert (v' - v) * share == v' * share - v * share;
  }

  lemma NotNegative(x: real, y: real)
    requires x >= 0.0 && y >= 0.0
    ensures x * y >= 0.0
  {
  }

  lemma {:induction false} AverageBetween(es: seq<Entry>, n: nat, hi: real)
    requires Sorted(es) && 1 <= n <= |es| && es[0].cdf == 0.0
    requires forall i :: 0 <= i < n ==> es[i].value <= hi
    ensures Scaled(es[0].value, es[n - 1].cdf) <= Average(es[..n]) <= Scaled(hi, es[n - 1].cdf)
  {
    hide Scaled, Area;
    AverageStep(es, n - 1);
    var lo, p, q := es[0].value, Prev(es, n - 1), es[n - 1];
    ScaledAdds(lo, p.cdf, q.cdf);
    ScaledAdds(hi, p.cdf, q.cdf);
    if n == 1 {
      NoWidth(p, q, hi);
      assert es[..n - 1] == [];
    } else {
      AverageBetween(es, n - 1, hi);
      AreaBetween(p, q, lo, hi);
    }
  }

  /** For a sorted table from cdf 0 to cdf 1, the mean lies between the first and the last value. */
  lemma AverageIsBounded(es: seq<Entry>)
    requires es != [] && Sorted(es) && es[0].cdf == 0.0 && es[|es| - 1].cdf == 1.0
    ensures es[0].value <= Average(es) <= es[|es| - 1].value
  {
    hide Average, Scaled;
    var lo, hi := es[0].value, es[|es| - 1].value;
    AverageBetween(es, |es|, hi);
    assert es[..|es|] == es;
    ScaledAdds(lo, 0.0, 1.0);
    ScaledAdds(hi, 0.0, 1.0);
  }

  /** A value below the first one is sampled exactly below the first cdf, and, when that is 0, at 0
      itself: a first line with cdf 0 does not rule such values out. */
  lemma BelowFirstValue(es: seq<Entry>, x: real)
    requires es != [] && Sorted(es) && es[0].value > 0.0 && x >= 0.0
    ensures Sample(es, x) < es[0].value <==> x < es[0].cdf || x == es[0].cdf == 0.0
  {
    SampleOnSegment(es, x);
    var p, q := Prev(es, 0), es[0];
    if FirstAt(es, x) == 0 && q.cdf > 0.0 {
      SegmentEnds(p, q);
      SegmentMonotone(p, q, x, q.cdf);
    }
  }

  /** That value is half of the first: a first line `10000 0` samples 5000 when 0 is drawn. */
  lemma HalfOfFirstValue(es: seq<Entry>)
    requires es != [] && es[0].cdf == 0.0
    ensures Sample(es, 0.0) == es[0].value / 2.0
    ensures es[0].value == 10000.0 ==> Sample(es, 0.0) == 5000.0
  {
  }

  /** Strictly increasing tables sample strictly monotonically up to their last cdf. */
  lemma SampleStrictlyMonotone(es: seq<Entry>, x: real, y: real)
    requires es != [] && StrictlySorted(es) && x < y <= es[|es| - 1].cdf
    ensures Sample(es, x) < Sample(es, y)
  {
    FirstAtMonotone(es, x, y);
    SampleOnSegment(es, x);
    SampleOnSegment(es, y);
    var i, j := FirstAt(es, x), FirstAt(es, y);
    if i == j {
      SegmentMonotone(Prev(es, i), es[i], x, y);
    }
  }

  /** The table with values and cdfs exchanged: sampling from it is forward interpolation of the
      distribution function. */
  function Transpose(es: seq<Entry>): (ts: seq<Entry>)
    ensures |ts| == |es| && forall i :: 0 <= i < |es| ==> ts[i] == Entry(es[i].cdf, es[i].value)
  {
    if es == [] then [] else Transpose(es[..|es| - 1]) + [Entry(es[|es| - 1].cdf, es[|es| - 1].value)]
  }

  /** A line read backwards. */
  lemma SegmentInverse(p: Entry, q: Entry, x: real)
    requires p.cdf < q.cdf && p.value < q.value
    ensures OnSegment(Entry(p.cdf, p.value), Entry(q.cdf, q.value), OnSegment(p, q, x)) == x
  {
  }

  /** For strictly increasing tables, forward interpolation undoes sampling on [0, last cdf]. */
  lemma SampleInverted(es: seq<Entry>, x: real)
    requires es != [] && StrictlySorted(es) && 0.0 <= x <= es[|es| - 1].cdf
    ensures Sample(Transpose(es), Sample(es, x)) == x
  {
    hide OnSegment, FirstAt, Transpose;
    var i, y, ts := FirstAt(es, x), Sample(es, x), Transpose(es);
    assert i < |es|;
    SampleOnSegment(es, x);
    forall j | 0 <= j < i
      ensures ts[j].cdf < y
    {
      assert es[j].value <= Prev(es, i).value;
    }
    FirstAtIs(ts, y, i);
    assert Prev(ts, i) == Entry(Prev(es, i).cdf, Prev(es, i).value);
    SegmentInverse(Prev(es, i), es[i], x);
  }

  /** And sampling undoes forward interpolation on [0, last value]: the two are inverse bijections. */
  lemma SampleReaches(es: seq<Entry>, v: real)
    requires es != [] && StrictlySorted(es) && 0.0 <= v <= es[|es| - 1].value
    ensures Sample(es, Sample(Transpose(es), v)) == v
  {
    hide Sample, Transpose;
    var ts := Transpose(es);
    assert Transpose(ts) == es;
    assert StrictlySorted(ts);
    SampleInverted(ts, v);
  }
}
