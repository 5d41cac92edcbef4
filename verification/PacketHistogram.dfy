/** The histogram of packet sizes and the cumulative share of data packets, per size. */
module PacketHistogram {
  import opened Machine
  import opened ThresholdSearch

  const UNIT_SIZE: int := 1448
  const HEADER_SIZE: int := 52

  type Items = seq<(int, nat)>

  predicate HasKey(items: Items, k: int) {
    exists i :: 0 <= i < |items| && items[i].0 == k
  }

  ghost predicate Ascending(items: Items) {
    forall i, j :: 0 <= i < j < |items| ==> items[i].0 < items[j].0
  }

  /** sorted(dataset.items()): the items of a dictionary in the order of their keys. */
  ghost predicate IsSortedItems(items: Items, dataset: map<int, nat>) {
    && Ascending(items)
    && (forall i :: 0 <= i < |items| ==> items[i].0 in dataset && dataset[items[i].0] == items[i].1)
    && (forall k :: k in dataset ==> HasKey(items, k))
  }

  /** get_data_from_file, the counting part: how often each size occurs; keys lists the sizes in the
      order in which they were first met. */
  method CountSamples(samples: seq<int>) returns (dataset: map<int, nat>, keys: seq<int>)
    ensures forall k :: k in dataset <==> k in samples
    ensures forall k :: k in dataset ==> dataset[k] == multiset(samples)[k]
    ensures forall k :: k in dataset <==> k in keys
    ensures forall i, j :: 0 <= i < j < |keys| ==> keys[i] != keys[j]
  {
    dataset, keys := map[], [];
    var i := 0;
    while i < |samples|
      invariant 0 <= i <= |samples|
      invariant forall k :: k in dataset <==> k in multiset(samples[..i])
      invariant forall k :: k in dataset ==> dataset[k] == multiset(samples[..i])[k]
      invariant forall k :: k in dataset <==> k in keys
      invariant forall a, b :: 0 <= a < b < |keys| ==> keys[a] != keys[b]
    {
      assert samples[..i + 1] == samples[..i] + [samples[i]];
      var data := samples[i];
      if data !in dataset || dataset[data] == 0 {
        dataset, keys := dataset[data := 1], keys + [data];
      } else {
        dataset := dataset[data := dataset[data] + 1];
      }
      i := i + 1;
    }
    assert samples[..i] == samples;
  }

  /** One step of an insertion sort by key. */
  function InsertItem(items: Items, k: int, n: nat): (r: Items)
    requires Ascending(items) && !HasKey(items, k)
    ensures Ascending(r) && |r| == |items| + 1
    ensures HasKey(r, k) && forall x :: HasKey(items, x) ==> HasKey(r, x)
    ensures forall i :: 0 <= i < |r| ==> r[i] == (k, n) || r[i] in items
  {
    if items == [] then
      assert [(k, n)][0].0 == k;
      [(k, n)]
    else
      var last := items[|items| - 1];
      if last.0 < k then
        var r := items + [(k, n)];
        assert r[|items|].0 == k;
        assert forall i :: 0 <= i < |items| ==> r[i] == items[i];
        r
      else
        var before := items[..|items| - 1];
        assert forall i :: 0 <= i < |before| ==> before[i] == items[i];
        var r := InsertItem(before, k, n);
        assert items == before + [last];
        InsertLast(before, last, r, k, n);
        r + [last]
  }

  lemma HasKeySnoc(items: Items, last: (int, nat), x: int)
    ensures HasKey(items + [last], x) <==> HasKey(items, x) || last.0 == x
  {
    var all := items + [last];
    assert all[|items|] == last;
    assert forall i :: 0 <= i < |items| ==> all[i] == items[i];
  }

  lemma InsertLast(before: Items, last: (int, nat), r: Items, k: int, n: nat)
    requires Ascending(before + [last]) && last.0 > k
    requires Ascending(r) && HasKey(r, k) && forall x :: HasKey(before, x) ==> HasKey(r, x)
    requires forall i :: 0 <= i < |r| ==> r[i] == (k, n) || r[i] in before
    ensures Ascending(r + [last])
    ensures forall x :: x == k || HasKey(before + [last], x) ==> HasKey(r + [last], x)
  {
    forall x | x == k || HasKey(before + [last], x)
      ensures HasKey(r + [last], x)
    {
      HasKeySnoc(before, last, x);
      HasKeySnoc(r, last, x);
    }
    forall i | 0 <= i < |r|
      ensures r[i].0 < last.0
    {
      if r[i] != (k, n) {
        var j :| 0 <= j < |before| && before[j] == r[i];
        assert (before + [last])[j] == r[i] && (before + [last])[|before|] == last;
      }
    }
  }

  /** sorted() on the items of a dictionary whose keys are listed. */
  method SortItems(dataset: map<int, nat>, keys: seq<int>) returns (items: Items)
    requires forall k :: k in dataset <==> k in keys
    requires forall i, j :: 0 <= i < j < |keys| ==> keys[i] != keys[j]
    ensures IsSortedItems(items, dataset)
  {
    items := [];
    var i := 0;
    while i < |keys|
      invariant 0 <= i <= |keys|
      invariant Ascending(items)
      invariant forall j :: 0 <= j < |items| ==>
        items[j].0 in keys[..i] && items[j].0 in dataset && items[j].1 == dataset[items[j].0]
      invariant forall j :: 0 <= j < i ==> HasKey(items, keys[j])
    {
      assert !HasKey(items, keys[i]);
      items := InsertItem(items, keys[i], dataset[keys[i]]);
      i := i + 1;
    }
    forall k | k in dataset
      ensures HasKey(items, k)
    {
      var j :| 0 <= j < |keys| && keys[j] == k;
    }
  }

  /** Data packets counted for one packet of the given size; the division floors. */
  function Packets(size: int): int {
    (size - HEADER_SIZE + UNIT_SIZE - 1) / 1448
  }

  /** It is the payload over the unit size, rounded up. */
  lemma PacketsRoundsUp(size: int)
    ensures 1448 * (Packets(size) - 1) < size - 52 <= 1448 * Packets(size)
    ensures size >= 0 ==> Packets(size) >= 0
  {
  }

  /** Data packets of all packets of one size. */
  function Weight(size: int, count: nat): int {
    count * Packets(size)
  }

  /** The running product after the first n items. */
  function Product(items: Items, n: nat): int
    requires n <= |items|
  {
    if n == 0 then 0 else Product(items, n - 1) + Weight(items[n - 1].0, items[n - 1].1)
  }

  function Share(part: int, total: int): real
    requires total != 0
  {
    part as real / total as real
  }

  /** The share is the exact fraction, not a floored one. */
  lemma ShareIsFraction(part: int, total: int)
    requires total != 0
    ensures Share(part, total) * total as real == part as real
  {
  }

  lemma ShareMonotone(part: int, part': int, total: int)
    requires part <= part' && total > 0
    ensures Share(part, total) <= Share(part', total)
    ensures Share(total, total) == 1.0
  {
  }

  /** Each key with the rounded share of the running product at it. */
  ghost predicate IsProportion(p: Table, items: Items, round: real -> real) {
    && |p| == |items|
    && (items != [] ==> Product(items, |items|) != 0)
    && forall i :: 0 <= i < |items| ==>
      p[i] == (items[i].0, round(Share(Product(items, i + 1), Product(items, |items|))))
  }

  /** The first loop of get_proportion: the running product at every key. */
  method RunningProducts(dataset: Items) returns (tmp: seq<(int, int)>, product: int)
    ensures product == Product(dataset, |dataset|) && |tmp| == |dataset|
    ensures forall j :: 0 <= j < |dataset| ==> tmp[j] == (dataset[j].0, Product(dataset, j + 1))
  {
    hide Weight;
    tmp, product := [], 0;
    var i := 0;
    while i < |dataset|
      invariant 0 <= i <= |dataset| && |tmp| == i
      invariant product == Product(dataset, i)
      invariant forall j :: 0 <= j < i ==> tmp[j] == (dataset[j].0, Product(dataset, j + 1))
    {
      product := product + Weight(dataset[i].0, dataset[i].1);
      tmp := tmp + [(dataset[i].0, product)];
      i := i + 1;
    }
  }

  /** get_proportion. The share is rounded by a given function; a zero total is a division error. */
  method GetProportion(dataset: Items, round: real -> real) returns (r: Option<Table>)
    ensures r.None? <==> dataset != [] && Product(dataset, |dataset|) == 0
    ensures r.Some? ==> IsProportion(r.value, dataset, round)
  {
    hide Product, Share;
    var tmp, product := RunningProducts(dataset);
    if dataset != [] && product == 0 {
      return None;
    }
    var proportion: Table := [];
    var i := 0;
    while i < |tmp|
      invariant 0 <= i <= |tmp| && |proportion| == i
      invariant forall j :: 0 <= j < i ==>
        proportion[j] == (dataset[j].0, round(Share(Product(dataset, j + 1), product)))
    {
      proportion := proportion + [(tmp[i].0, round(Share(tmp[i].1, product)))];
      i := i + 1;
    }
    r := Some(proportion);
  }

  /** The data packets of all samples not larger than k, counted one by one. */
  function DirectSum(samples: seq<int>, k: int): int {
    if samples == [] then 0
    else
      var x := samples[|samples| - 1];
      DirectSum(samples[..|samples| - 1], k) + if x <= k then Packets(x) else 0
  }

  lemma AddOne(n: int, x: int)
    ensures (n + 1) * x == n * x + x
  {
  }

  /** If hi is the only sample above lo and up to hi, the sums differ by its occurrences. */
  lemma {:induction false} DirectSumStep(samples: seq<int>, lo: int, hi: int)
    requires lo < hi && forall i :: 0 <= i < |samples| ==> samples[i] <= lo || samples[i] == hi || samples[i] > hi
    ensures DirectSum(samples, hi) == DirectSum(samples, lo) + Weight(hi, multiset(samples)[hi])
  {
    hide Packets;
    if samples != [] {
      var before, x := samples[..|samples| - 1], samples[|samples| - 1];
      assert samples == before + [x];
      DirectSumStep(before, lo, hi);
      AddOne(multiset(before)[hi], Packets(hi));
    }
  }

  lemma {:induction false} DirectSumNone(samples: seq<int>, k: int)
    requires forall i :: 0 <= i < |samples| ==> samples[i] > k
    ensures DirectSum(samples, k) == 0
  {
    if samples != [] {
      DirectSumNone(samples[..|samples| - 1], k);
    }
  }

  ghost predicate IsHistogram(items: Items, samples: seq<int>) {
    && Ascending(items)
    && (forall i :: 0 <= i < |items| ==> items[i].0 in samples && items[i].1 == multiset(samples)[items[i].0])
    && (forall x :: x in samples ==> HasKey(items, x))
  }

  /** The whole of get_data_from_file, on the numbers of the lines. */
  method GetData(samples: seq<int>) returns (items: Items)
    ensures IsHistogram(items, samples)
  {
    var dataset, keys := CountSamples(samples);
    items := SortItems(dataset, keys);
  }

  /** For every list of sizes, the running product at a key is the direct sum over the raw samples
      not above that key. */
  lemma {:induction false} ProductIsDirectSum(samples: seq<int>, items: Items, n: nat)
    requires IsHistogram(items, samples) && 1 <= n <= |items|
    ensures Product(items, n) == DirectSum(samples, items[n - 1].0)
  {
    var hi := items[n - 1].0;
    var lo := if n == 1 then hi - 1 else items[n - 2].0;
    forall j | 0 <= j < |samples|
      ensures if n == 1 then samples[j] >= hi else samples[j] <= lo || samples[j] >= hi
    {
      assert HasKey(items, samples[j]);
    }
    DirectSumStep(samples, lo, hi);
    if n == 1 {
      DirectSumNone(samples, lo);
      assert Product(items, 1) == Product(items, 0) + Weight(items[0].0, items[0].1);
    } else {
      ProductIsDirectSum(samples, items, n - 1);
    }
  }

  lemma {:induction false} ProductMonotone(items: Items, m: nat, n: nat)
    requires m <= n <= |items|
    requires forall i :: 0 <= i < |items| ==> items[i].0 >= 0
    ensures 0 <= Product(items, m) <= Product(items, n)
    decreases n
  {
    if n > 0 {
      PacketsRoundsUp(items[n - 1].0);
      assert Weight(items[n - 1].0, items[n - 1].1) >= 0;
      ProductMonotone(items, if m < n then m else m - 1, n - 1);
    }
  }

  /** For non-negative sizes and a monotone rounding, the proportions never decrease, and the last is
      the rounding of 1. */
  lemma ProportionsAreCumulative(items: Items, round: real -> real, p: Table)
    requires forall i :: 0 <= i < |items| ==> items[i].0 >= 0
    requires forall x, y :: x <= y ==> round(x) <= round(y)
    requires items != [] && IsProportion(p, items, round)
    ensures forall i, j :: 0 <= i <= j < |p| ==> p[i].1 <= p[j].1
    ensures p[|p| - 1].1 == round(1.0)
  {
    hide Share, Product;
    var total := Product(items, |items|);
    ProductMonotone(items, |items|, |items|);
    forall i, j | 0 <= i <= j < |p|
      ensures p[i].1 <= p[j].1
    {
      ProductMonotone(items, i + 1, j + 1);
      ShareMonotone(Product(items, i + 1), Product(items, j + 1), total);
    }
    ShareMonotone(total, total, total);
  }

  /** Samples between two sizes do not occur: the sums agree. */
  lemma {:induction false} DirectSumFlat(samples: seq<int>, lo: int, hi: int)
    requires lo <= hi && forall i :: 0 <= i < |samples| ==> samples[i] <= lo || samples[i] > hi
    ensures DirectSum(samples, lo) == DirectSum(samples, hi)
  {
    if samples != [] {
      DirectSumFlat(samples[..|samples| - 1], lo, hi);
    }
  }

  lemma NoSampleBetween(samples: seq<int>, items: Items, n: nat, t: int)
    requires IsHistogram(items, samples) && 1 <= n <= |items|
    requires forall i :: 0 <= i < |items| ==> (items[i].0 <= t <==> i < n)
    ensures forall j :: 0 <= j < |samples| ==> samples[j] <= items[n - 1].0 || samples[j] > t
  {
    forall j | 0 <= j < |samples|
      ensures samples[j] <= items[n - 1].0 || samples[j] > t
    {
      assert HasKey(items, samples[j]);
    }
  }

  /** What the search compares: at every t not below the smallest size, the step function of a table
      is the rounded share of the data packets that come from samples of size at most t. */
  lemma AtIsShareOfSamples(samples: seq<int>, items: Items, round: real -> real, p: Table, t: int)
    requires IsHistogram(items, samples) && IsProportion(p, items, round)
    requires items != [] && items[0].0 <= t
    ensures CountUpTo(p, t) > 0
    ensures var total := DirectSum(samples, items[|items| - 1].0);
      total != 0 && At(p, t) == round(DirectSum(samples, t) as real / total as real)
  {
    hide Packets, Product, DirectSum;
    CountBounds(p, t);
    var n := CountUpTo(p, t);
    assert p[0].0 == items[0].0;
    ProductIsDirectSum(samples, items, n);
    ProductIsDirectSum(samples, items, |items|);
    forall i | 0 <= i < |items|
      ensures items[i].0 <= t <==> i < n
    {
      assert p[i].0 == items[i].0;
    }
    NoSampleBetween(samples, items, n, t);
    assert p[n - 1].0 == items[n - 1].0;
    DirectSumFlat(samples, items[n - 1].0, t);
  }
}
