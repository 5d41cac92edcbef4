/** The final statistics of the client: completed flows in groups by size, with the average and the
    99th percentile of their completion times. */
module Statistics {
  import opened Machine

  /** One slot of the flow table; fd 0 means that it is not in use. */
  datatype FlowTime = FlowTime(fd: i32, flowSize: i32, fct: i32)

  /** The first group but the last whose threshold is above the size; else the last. The size is
      compared as unsigned. */
  function GroupOf(thres: seq<u32>, flowSize: i32): (g: nat)
    requires thres != []
    ensures g < |thres|
    ensures forall j :: 0 <= j < g ==> thres[j] <= ToU32(flowSize)
    ensures g < |thres| - 1 ==> ToU32(flowSize) < thres[g]
  {
    if |thres| == 1 || ToU32(flowSize) < thres[0] then 0 else 1 + GroupOf(thres[1..], flowSize)
  }

  method GetGroupIndex(thres: seq<u32>, flowSize: i32) returns (i: nat)
    requires thres != []
    ensures i == GroupOf(thres, flowSize)
  {
    i := 0;
    while i < |thres| - 1
      invariant 0 <= i <= |thres| - 1
      invariant forall j :: 0 <= j < i ==> thres[j] <= ToU32(flowSize)
    {
      if ToU32(flowSize) < thres[i] {
        return;
      }
      i := i + 1;
    }
  }

  /** The entries in use that belong to a group, in order. */
  function Members(entries: seq<FlowTime>, thres: seq<u32>, g: nat): (m: seq<FlowTime>)
    requires thres != []
    ensures |m| <= |entries|
  {
    if entries == [] then []
    else
      var e := entries[|entries| - 1];
      Members(entries[..|entries| - 1], thres, g) +
      if e.fd != 0 && GroupOf(thres, e.flowSize) == g then [e] else []
  }

  function Fcts(m: seq<FlowTime>): (f: seq<u32>)
    ensures |f| == |m| && forall i :: 0 <= i < |m| ==> f[i] == ToU32(m[i].fct)
  {
    if m == [] then [] else Fcts(m[..|m| - 1]) + [ToU32(m[|m| - 1].fct)]
  }

  function SumFct(m: seq<FlowTime>): int {
    if m == [] then 0 else SumFct(m[..|m| - 1]) + m[|m| - 1].fct
  }

  function SumSize(m: seq<FlowTime>): int {
    if m == [] then 0 else SumSize(m[..|m| - 1]) + m[|m| - 1].flowSize
  }

  function LiveCount(entries: seq<FlowTime>): nat {
    if entries == [] then 0
    else LiveCount(entries[..|entries| - 1]) + if entries[|entries| - 1].fd != 0 then 1 else 0
  }

  /** Members of the first n groups together. */
  function CountGroups(entries: seq<FlowTime>, thres: seq<u32>, n: nat): nat
    requires thres != []
  {
    if n == 0 then 0 else CountGroups(entries, thres, n - 1) + |Members(entries, thres, n - 1)|
  }

  /** The groups below n count an entry once if it is in use and its group is one of them. */
  function InGroups(e: FlowTime, thres: seq<u32>, n: nat): nat
    requires thres != []
  {
    if e.fd != 0 && GroupOf(thres, e.flowSize) < n then 1 else 0
  }

  lemma MembersCount(before: seq<FlowTime>, e: FlowTime, thres: seq<u32>, g: nat)
    requires thres != []
    ensures |Members(before + [e], thres, g)| - |Members(before, thres, g)| ==
            InGroups(e, thres, g + 1) - InGroups(e, thres, g)
  {
    assert (before + [e])[..|before|] == before;
  }

  lemma {:induction false} CountGroupsStep(before: seq<FlowTime>, e: FlowTime, thres: seq<u32>, n: nat)
    requires thres != []
    ensures CountGroups(before + [e], thres, n) == CountGroups(before, thres, n) + InGroups(e, thres, n)
  {
    hide GroupOf, ToU32, Members;
    if n > 0 {
      hide InGroups;
      CountGroupsStep(before, e, thres, n - 1);
      MembersCount(before, e, thres, n - 1);
    }
  }

  /** The groups partition the entries in use. */
  lemma {:induction false} GroupsPartition(entries: seq<FlowTime>, thres: seq<u32>)
    requires thres != []
    ensures CountGroups(entries, thres, |thres|) == LiveCount(entries)
  {
    if entries == [] {
      CountGroupsEmpty(thres, |thres|);
    } else {
      var before, e := entries[..|entries| - 1], entries[|entries| - 1];
      GroupsPartition(before, thres);
      CountGroupsStep(before, e, thres, |thres|);
      assert entries == before + [e];
    }
  }

  lemma {:induction false} CountGroupsEmpty(thres: seq<u32>, n: nat)
    requires thres != []
    ensures CountGroups([], thres, n) == 0
  {
    if n > 0 {
      CountGroupsEmpty(thres, n - 1);
    }
  }

  lemma {:induction false} MembersAre(entries: seq<FlowTime>, thres: seq<u32>, g: nat, e: FlowTime)
    requires thres != []
    ensures multiset(Members(entries, thres, g))[e] ==
            if e.fd != 0 && GroupOf(thres, e.flowSize) == g then multiset(entries)[e] else 0
  {
    hide GroupOf;
    if entries != [] {
      var before, last := entries[..|entries| - 1], entries[|entries| - 1];
      assert entries == before + [last];
      MembersAre(before, thres, g, e);
    }
  }

  // Averages.

  /** The sums are those of the single entries. */
  lemma {:induction false} SumsAdd(a: seq<FlowTime>, e: FlowTime, b: seq<FlowTime>)
    ensures SumFct(a + [e] + b) == SumFct(a) + e.fct + SumFct(b)
    ensures SumSize(a + [e] + b) == SumSize(a) + e.flowSize + SumSize(b)
  {
    var all := a + [e] + b;
    if b == [] {
      assert all[..|a|] == a;
    } else {
      var last := |b| - 1;
      assert all[..|all| - 1] == a + [e] + b[..last];
      SumsAdd(a, e, b[..last]);
    }
  }

  /** C division, towards zero. */
  function TruncDiv(a: int, b: int): int
    requires b > 0
  {
    if a >= 0 then a / b else -(-a / b)
  }

  lemma {:induction false} SumFctBounds(m: seq<FlowTime>)
    ensures -0x8000_0000 * |m| <= SumFct(m) <= 0x7fff_ffff * |m|
    ensures (forall i :: 0 <= i < |m| ==> m[i].fct >= 0) ==> SumFct(m) >= 0
  {
    if m != [] {
      SumFctBounds(m[..|m| - 1]);
    }
  }

  lemma QuotientBounds(a: nat, b: nat)
    requires b > 0
    ensures a / b * b <= a < (a / b + 1) * b
  {
    assert a == b * (a / b) + a % b;
  }

  lemma ProductCancel(x: int, b: nat)
    requires b > 0 && x * b >= 0
    ensures x >= 0
  {
  }

  lemma QuotientAtMost(a: nat, b: nat, c: nat)
    requires b > 0 && a <= c * b
    ensures a / b <= c
  {
    QuotientBounds(a, b);
    assert (c - a / b) * b == c * b - a / b * b;
    ProductCancel(c - a / b, b);
  }

  lemma TruncDivBounds(sum: int, n: nat)
    requires n > 0 && -0x8000_0000 * n <= sum <= 0x7fff_ffff * n
    ensures -0x8000_0000 <= TruncDiv(sum, n) < 0x8000_0000
    ensures sum >= 0 ==> TruncDiv(sum, n) * n <= sum < (TruncDiv(sum, n) + 1) * n
  {
    if sum >= 0 {
      QuotientBounds(sum, n);
      QuotientAtMost(sum, n, 0x7fff_ffff);
    } else {
      QuotientAtMost(-sum, n, 0x8000_0000);
    }
  }

  /** The quotient is the exact one without its fraction, on both sides of 0. */
  lemma TruncDivIs(a: int, b: int)
    requires b > 0
    ensures var q := TruncDiv(a, b);
      if a >= 0 then q * b <= a < q * b + b else q * b - b < a <= q * b
  {
    QuotientBounds(if a >= 0 then a else -a, b);
  }

  lemma {:induction false} SumWithin(m: seq<FlowTime>, lo: int, hi: int)
    requires forall i :: 0 <= i < |m| ==> lo <= m[i].fct <= hi
    ensures lo * |m| <= SumFct(m) <= hi * |m|
  {
    if m != [] {
      SumWithin(m[..|m| - 1], lo, hi);
    }
  }

  /** An average lies between any bounds of the times of its group. */
  lemma AverageWithin(m: seq<FlowTime>, lo: int, hi: int)
    requires m != [] && forall i :: 0 <= i < |m| ==> lo <= m[i].fct <= hi
    ensures lo <= TruncDiv(SumFct(m), |m|) <= hi
  {
    SumWithin(m, lo, hi);
    TruncDivIs(SumFct(m), |m|);
    QuotientWithin(TruncDiv(SumFct(m), |m|), SumFct(m), |m|, lo, hi);
  }

  lemma ProductMonotone(x: int, y: int, n: nat)
    requires x <= y
    ensures x * n <= y * n
    ensures (x + 1) * n == x * n + n
  {
  }

  lemma QuotientWithin(q: int, sum: int, n: nat, lo: int, hi: int)
    requires n > 0 && lo * n <= sum <= hi * n
    requires if sum >= 0 then q * n <= sum < q * n + n else q * n - n < sum <= q * n
    ensures lo <= q <= hi
  {
    ProductMonotone(q, q, n);
    ProductMonotone(hi, hi, n);
    if q < lo {
      ProductMonotone(q + 1, lo, n);
    } else if q > hi {
      ProductMonotone(hi + 1, q, n);
    }
  }

  /** The average of a non-empty group fits an int, and rounds the exact mean down when the times are
      not negative. */
  lemma AverageIsMeanRoundedDown(m: seq<FlowTime>)
    requires m != []
    ensures var avg := TruncDiv(SumFct(m), |m|);
      && -0x8000_0000 <= avg < 0x8000_0000
      && ((forall i :: 0 <= i < |m| ==> m[i].fct >= 0) ==> avg * |m| <= SumFct(m) < (avg + 1) * |m|)
  {
    SumFctBounds(m);
    TruncDivBounds(SumFct(m), |m|);
  }

  // Sorting and the percentile.

  predicate Ascending(s: seq<u32>) {
    forall i, j :: 0 <= i < j < |s| ==> s[i] <= s[j]
  }

  lemma AscendingSnoc(s: seq<u32>, x: u32)
    requires Ascending(s) && forall y :: y in s ==> y <= x
    ensures Ascending(s + [x])
  {
    assert forall i :: 0 <= i < |s| ==> s[i] in s;
  }

  function InsertSorted(s: seq<u32>, x: u32): (r: seq<u32>)
    requires Ascending(s)
    ensures Ascending(r) && |r| == |s| + 1
    ensures multiset(r) == multiset(s) + multiset{x}
    ensures forall y :: y in r <==> y in s || y == x
  {
    if s == [] || s[|s| - 1] <= x then s + [x]
    else
      var before, last := s[..|s| - 1], s[|s| - 1];
      assert s == before + [last];
      assert forall i :: 0 <= i < |before| ==> before[i] == s[i] <= last;
      var r := InsertSorted(before, x);
      AscendingSnoc(r, last);
      r + [last]
  }

  /** The order that qsort is asked for: ascending as unsigned. */
  function Sorted(s: seq<u32>): (r: seq<u32>)
    ensures Ascending(r) && multiset(r) == multiset(s) && |r| == |s|
  {
    if s == [] then []
    else
      assert s == s[..|s| - 1] + [s[|s| - 1]];
      InsertSorted(Sorted(s[..|s| - 1]), s[|s| - 1])
  }

  /** The comparison handed to qsort: 1 or 0, never negative. */
  function Cmp(a: u32, b: u32): int {
    if a > b then 1 else 0
  }

  /** As a three-way comparison it is consistent on a row exactly when all its values are equal. */
  lemma CmpConsistentIff(s: seq<u32>)
    ensures (forall i, j :: 0 <= i < |s| && 0 <= j < |s| ==> Cmp(s[i], s[j]) == -Cmp(s[j], s[i]))
            <==> (forall i, j :: 0 <= i < |s| && 0 <= j < |s| ==> s[i] == s[j])
  {
    if i, j :| 0 <= i < |s| && 0 <= j < |s| && s[i] != s[j] {
      assert Cmp(s[i], s[j]) != -Cmp(s[j], s[i]);
    }
  }

  /** Still, the arrangements in which no earlier value compares above a later one are the sorted
      ones, so a qsort that ends in one of them has sorted. */
  lemma ArrangedIsSorted(s: seq<u32>, r: seq<u32>)
    requires multiset(r) == multiset(s)
    ensures (forall i, j :: 0 <= i < j < |r| ==> Cmp(r[i], r[j]) <= 0) <==> r == Sorted(s)
  {
    if forall i, j :: 0 <= i < j < |r| ==> Cmp(r[i], r[j]) <= 0 {
      SortedUnique(r, Sorted(s));
    }
  }

  lemma LastIsLargest(s: seq<u32>, x: u32)
    requires Ascending(s) && s != [] && x in multiset(s)
    ensures x <= s[|s| - 1]
  {
    assert x in s;
  }

  /** Two ascending arrangements of the same values end in the same one. */
  lemma SameLast(a: seq<u32>, x: u32, b: seq<u32>, y: u32)
    requires Ascending(a + [x]) && Ascending(b + [y]) && multiset(a + [x]) == multiset(b + [y])
    ensures x == y && multiset(a) == multiset(b)
    ensures Ascending(a) && Ascending(b)
  {
    LastIsLargest(a + [x], y);
    LastIsLargest(b + [y], x);
    assert multiset(a) == multiset(a + [x]) - multiset{x};
    assert multiset(b) == multiset(b + [y]) - multiset{y};
    assert forall i :: 0 <= i < |a| ==> (a + [x])[i] == a[i];
    assert forall i :: 0 <= i < |b| ==> (b + [y])[i] == b[i];
  }

  lemma {:induction false} SortedUnique(a: seq<u32>, b: seq<u32>)
    requires Ascending(a) && Ascending(b) && multiset(a) == multiset(b)
    ensures a == b
  {
    hide Ascending;
    assert |a| == |multiset(a)| == |multiset(b)| == |b|;
    if a != [] {
      var n := |a| - 1;
      assert a == a[..n] + [a[n]] && b == b[..n] + [b[n]];
      SameLast(a[..n], a[n], b[..n], b[n]);
      SortedUnique(a[..n], b[..n]);
    }
  }

  /** Position of the 99th percentile among n sorted values. */
  function Index99(n: nat): nat {
    n * 99 / 100
  }

  function CountBelow(s: seq<u32>, v: u32): nat {
    if s == [] then 0 else CountBelow(s[..|s| - 1], v) + if s[|s| - 1] < v then 1 else 0
  }

  function CountUpTo(s: seq<u32>, v: u32): nat {
    if s == [] then 0 else CountUpTo(s[..|s| - 1], v) + if s[|s| - 1] <= v then 1 else 0
  }

  lemma CountSnoc(s: seq<u32>, x: u32, v: u32)
    ensures CountBelow(s + [x], v) == CountBelow(s, v) + if x < v then 1 else 0
    ensures CountUpTo(s + [x], v) == CountUpTo(s, v) + if x <= v then 1 else 0
  {
    assert (s + [x])[..|s|] == s;
  }

  lemma {:induction false} InsertCounts(s: seq<u32>, x: u32, v: u32)
    requires Ascending(s)
    ensures CountBelow(InsertSorted(s, x), v) == CountBelow(s, v) + if x < v then 1 else 0
    ensures CountUpTo(InsertSorted(s, x), v) == CountUpTo(s, v) + if x <= v then 1 else 0
  {
    if s == [] || s[|s| - 1] <= x {
      CountSnoc(s, x, v);
    } else {
      var before := s[..|s| - 1];
      InsertCounts(before, x, v);
      CountSnoc(InsertSorted(before, x), s[|s| - 1], v);
    }
  }

  lemma {:induction false} SortCounts(s: seq<u32>, v: u32)
    ensures CountBelow(Sorted(s), v) == CountBelow(s, v) && CountUpTo(Sorted(s), v) == CountUpTo(s, v)
  {
    if s != [] {
      SortCounts(s[..|s| - 1], v);
      InsertCounts(Sorted(s[..|s| - 1]), s[|s| - 1], v);
    }
  }

  /** In a sorted sequence, at most i values are below the one at i, and more than i are up to it. */
  lemma {:induction false} RankInSorted(s: seq<u32>, i: nat, v: u32)
    requires Ascending(s) && i <= |s|
    ensures (forall j :: i <= j < |s| ==> v <= s[j]) ==> CountBelow(s, v) <= i
    ensures (forall j :: 0 <= j < i ==> s[j] <= v) ==> CountUpTo(s, v) >= i
  {
    if s != [] {
      RankInSorted(s[..|s| - 1], if i < |s| then i else |s| - 1, v);
    }
  }

  /** The reported percentile is a value of the group: its position is inside it, no more than 99 in a
      hundred of the values are below it, and more than 99 in a hundred are not above it. */
  lemma PercentileRank(s: seq<u32>)
    requires s != []
    ensures Index99(|s|) < |s|
    ensures var v := Sorted(s)[Index99(|s|)];
      v in s && 100 * CountBelow(s, v) <= 99 * |s| < 100 * CountUpTo(s, v)
  {
    hide Sorted, CountBelow, CountUpTo, Index99;
    Index99Bounds(|s|);
    var i := Index99(|s|);
    assert Sorted(s)[i] in multiset(Sorted(s));
    assert Sorted(s)[i] in multiset(s);
    RankOfSorted(Sorted(s), i);
    SortCounts(s, Sorted(s)[i]);
  }

  lemma RankOfSorted(r: seq<u32>, i: nat)
    requires Ascending(r) && i < |r|
    ensures CountBelow(r, r[i]) <= i < CountUpTo(r, r[i])
  {
    RankInSorted(r, i, r[i]);
    RankInSorted(r, i + 1, r[i]);
  }

  lemma Index99Bounds(n: nat)
    requires n > 0
    ensures Index99(n) < n && 100 * Index99(n) <= 99 * n < 100 * (Index99(n) + 1)
  {
  }

  // The tables.

  /** qsort on the first n values of a row. */
  method SortRow(row: array<u32>, n: nat)
    requires n <= row.Length
    modifies row
    ensures row[..n] == Sorted(old(row[..n])) && row[n..] == old(row[n..])
  {
    hide Sorted;
    var s := Sorted(row[..n]);
    var i := 0;
    while i < n
      invariant 0 <= i <= n
      invariant forall j :: 0 <= j < i ==> row[j] == s[j]
      invariant forall j :: n <= j < row.Length ==> row[j] == old(row[j])
    {
      row[i] := s[i];
      i := i + 1;
    }
  }

  /** The results of one group, and its row of completion times. */
  class Group {
    var counter: nat
    var flowSizeTmp: int
    var fctTmp: int
    var avgFlowSize: int
    var avgFct: int
    const fcts: array<u32>

    ghost predicate Holds(m: seq<FlowTime>)
      reads this, fcts
    {
      && counter == |m| <= fcts.Length
      && fcts[..counter] == Fcts(m)
      && (forall i :: counter <= i < fcts.Length ==> fcts[i] == 0)
      && fctTmp == SumFct(m) && flowSizeTmp == SumSize(m)
      && avgFct == 0 && avgFlowSize == 0
    }

    constructor (maxEntries: nat)
      ensures Holds([]) && fcts.Length == maxEntries && fresh(fcts)
    {
      counter, flowSizeTmp, fctTmp, avgFlowSize, avgFct := 0, 0, 0, 0, 0;
      fcts := new u32[maxEntries](_ => 0);
    }

    method Add(e: FlowTime, ghost m: seq<FlowTime>)
      requires Holds(m) && counter < fcts.Length
      modifies this, fcts
      ensures Holds(m + [e])
    {
      assert (m + [e])[..|m|] == m;
      fcts[counter] := ToU32(e.fct);
      counter := counter + 1;
      flowSizeTmp := flowSizeTmp + e.flowSize;
      fctTmp := fctTmp + e.fct;
    }

    /** The averages, and the row sorted in place. */
    method Finish(ghost m: seq<FlowTime>)
      requires Holds(m)
      modifies this, fcts
      ensures Finished(this, m)
    {
      hide Sorted, SumFct, SumSize, Fcts, TruncDiv;
      if counter > 0 {
        avgFlowSize := TruncDiv(flowSizeTmp, counter);
        avgFct := TruncDiv(fctTmp, counter);
      }
      SortRow(fcts, counter);
      assert forall i :: counter <= i < fcts.Length ==> fcts[i] == fcts[counter..][i - counter];
    }
  }

  lemma HoldsCount(g: Group, m: seq<FlowTime>)
    requires g.Holds(m)
    ensures g.counter == |m|
  {
  }

  /** An entry joins the members of its group only. */
  lemma MembersSnoc(entries: seq<FlowTime>, i: nat, thres: seq<u32>, g: nat)
    requires thres != [] && i < |entries|
    ensures var e := entries[i];
      Members(entries[..i + 1], thres, g) ==
      if e.fd != 0 && GroupOf(thres, e.flowSize) == g then Members(entries[..i], thres, g) + [e]
      else Members(entries[..i], thres, g)
  {
    assert entries[..i + 1][..i] == entries[..i];
  }

  ghost function Rows(groups: seq<Group>): set<object> {
    set g | g in groups :: g.fcts
  }

  ghost predicate Separate(groups: seq<Group>) {
    forall i, j :: 0 <= i < j < |groups| ==> groups[i] != groups[j] && groups[i].fcts != groups[j].fcts
  }

  /** The aggregation loop: every group ends up with exactly its members, in order. No row overflows,
      because each is as long as the table. */
  method Aggregate(entries: seq<FlowTime>, thres: seq<u32>, groups: seq<Group>)
    requires thres != [] && |groups| == |thres| && Separate(groups)
    requires forall g :: 0 <= g < |groups| ==> groups[g].Holds([]) && groups[g].fcts.Length == |entries|
    modifies groups, Rows(groups)
    ensures forall g :: 0 <= g < |groups| ==> groups[g].Holds(Members(entries, thres, g))
  {
    hide Members, GroupOf, Group.Holds;
    var i := 0;
    while i < |entries|
      invariant 0 <= i <= |entries|
      invariant forall g :: 0 <= g < |groups| ==> groups[g].Holds(Members(entries[..i], thres, g))
    {
      forall g: nat
        ensures var e := entries[i];
          Members(entries[..i + 1], thres, g) ==
          if e.fd != 0 && GroupOf(thres, e.flowSize) == g then Members(entries[..i], thres, g) + [e]
          else Members(entries[..i], thres, g)
      {
        MembersSnoc(entries, i, thres, g);
      }
      var e := entries[i];
      if e.fd != 0 {
        var index := GetGroupIndex(thres, e.flowSize);
        HoldsCount(groups[index], Members(entries[..i], thres, index));
        groups[index].Add(e, Members(entries[..i], thres, index));
      }
      i := i + 1;
    }
    assert entries[..i] == entries;
  }

  /** What print_statistics leaves in a group with the given members. */
  ghost predicate Finished(g: Group, m: seq<FlowTime>)
    reads g, g.fcts
  {
    && g.counter == |m| <= g.fcts.Length
    && g.fcts[..g.counter] == Sorted(Fcts(m))
    && (forall i :: g.counter <= i < g.fcts.Length ==> g.fcts[i] == 0)
    && g.avgFct == (if m == [] then 0 else TruncDiv(SumFct(m), |m|))
    && g.avgFlowSize == (if m == [] then 0 else TruncDiv(SumSize(m), |m|))
  }

  /** print_statistics: the aggregation, then averages and sorting group by group. */
  method PrintStatistics(entries: seq<FlowTime>, thres: seq<u32>, groups: seq<Group>)
    requires thres != [] && |groups| == |thres| && Separate(groups)
    requires forall g :: 0 <= g < |groups| ==> groups[g].Holds([]) && groups[g].fcts.Length == |entries|
    modifies groups, Rows(groups)
    ensures forall g :: 0 <= g < |groups| ==> Finished(groups[g], Members(entries, thres, g))
  {
    hide Members, Finished, Group.Holds;
    Aggregate(entries, thres, groups);
    FinishAll(groups, seq(|groups|, g requires 0 <= g => Members(entries, thres, g)));
  }

  method FinishAll(groups: seq<Group>, ghost ms: seq<seq<FlowTime>>)
    requires |groups| == |ms| && Separate(groups)
    requires forall g :: 0 <= g < |groups| ==> groups[g].Holds(ms[g])
    modifies groups, Rows(groups)
    ensures forall g :: 0 <= g < |groups| ==> Finished(groups[g], ms[g])
  {
    hide Finished, Group.Holds;
    var i := 0;
    while i < |groups|
      invariant 0 <= i <= |groups|
      invariant forall g :: 0 <= g < i ==> Finished(groups[g], ms[g])
      invariant forall g :: i <= g < |groups| ==> groups[g].Holds(ms[g])
    {
      groups[i].Finish(ms[i]);
      i := i + 1;
    }
  }

  /** The 99th percentile that print_results writes; for an empty group that is 0, as allocated. */
  method Percentile99(g: Group, ghost m: seq<FlowTime>) returns (p: u32)
    requires Finished(g, m) && g.fcts.Length > 0
    ensures m != [] ==> p in Fcts(m) && 100 * CountBelow(Fcts(m), p) <= 99 * |m| < 100 * CountUpTo(Fcts(m), p)
    ensures m == [] ==> p == 0
  {
    if g.counter > 0 {
      PercentileRank(Fcts(m));
      assert g.fcts[Index99(g.counter)] == g.fcts[..g.counter][Index99(g.counter)];
    }
    p := g.fcts[Index99(g.counter)];
  }
}
