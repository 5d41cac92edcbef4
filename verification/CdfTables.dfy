/** Loading a flow-size distribution: an array that doubles when it is full, and the extremes of the
    loaded cdf values. Numbers are exact reals. */
module CdfTables {

  const INITIAL_ENTRIES: nat := 32

  datatype Entry = Entry(value: real, cdf: real)

  /** Capacity after k doublings. */
  function Capacity(k: nat): nat {
    if k == 0 then 32 else 2 * Capacity(k - 1)
  }

  /** Smallest of 0 and the cdf values; largest of 1 and the cdf values. */
  function MinCdf(lines: seq<Entry>): real {
    if lines == [] then 0.0
    else
      var m := MinCdf(lines[..|lines| - 1]);
      if m > lines[|lines| - 1].cdf then lines[|lines| - 1].cdf else m
  }

  function MaxCdf(lines: seq<Entry>): real {
    if lines == [] then 1.0
    else
      var m := MaxCdf(lines[..|lines| - 1]);
      if m < lines[|lines| - 1].cdf then lines[|lines| - 1].cdf else m
  }

  /** They are the extremes: bounds, and attained. */
  lemma {:induction false} ExtremesAreExtremes(lines: seq<Entry>)
    ensures MinCdf(lines) <= 0.0 && forall i :: 0 <= i < |lines| ==> MinCdf(lines) <= lines[i].cdf
    ensures MaxCdf(lines) >= 1.0 && forall i :: 0 <= i < |lines| ==> lines[i].cdf <= MaxCdf(lines)
    ensures MinCdf(lines) == 0.0 || exists i :: 0 <= i < |lines| && lines[i].cdf == MinCdf(lines)
    ensures MaxCdf(lines) == 1.0 || exists i :: 0 <= i < |lines| && lines[i].cdf == MaxCdf(lines)
  {
    if lines != [] {
      var before := lines[..|lines| - 1];
      ExtremesAreExtremes(before);
      if MinCdf(lines) == MinCdf(before) && MinCdf(before) != 0.0 {
        var i :| 0 <= i < |before| && before[i].cdf == MinCdf(before);
        assert lines[i].cdf == MinCdf(lines);
      }
      if MaxCdf(lines) == MaxCdf(before) && MaxCdf(before) != 1.0 {
        var i :| 0 <= i < |before| && before[i].cdf == MaxCdf(before);
        assert lines[i].cdf == MaxCdf(lines);
      }
    }
  }

  class CdfTable {
    var entries: array<Entry>
    var numEntry: nat
    var maxEntry: nat
    var minCdf: real
    var maxCdf: real
    /** Entries moved by all resizes, and how many resizes there were. */
    ghost var copied: nat
    ghost var resizes: nat

    ghost predicate Valid()
      reads this
    {
      && numEntry <= maxEntry == entries.Length
      && maxEntry == Capacity(resizes)
      && copied == maxEntry - INITIAL_ENTRIES
      && (resizes > 0 ==> maxEntry <= 2 * numEntry)
    }

    /** The loaded entries, in order. */
    ghost function Contents(): seq<Entry>
      requires Valid()
      reads this, entries
    {
      entries[..numEntry]
    }

    constructor ()
      ensures Valid() && Contents() == []
      ensures minCdf == 0.0 && maxCdf == 1.0 && maxEntry == 32 && fresh(entries)
    {
      entries := new Entry[INITIAL_ENTRIES](_ => Entry(0.0, 0.0));
      numEntry, maxEntry, minCdf, maxCdf := 0, INITIAL_ENTRIES, 0.0, 1.0;
      copied, resizes := 0, 0;
    }

    /** Doubles the array when it is full, keeping every entry in its place. */
    method Resize()
      requires Valid()
      modifies this
      ensures Valid() && numEntry < maxEntry
      ensures Contents() == old(Contents()) && numEntry == old(numEntry)
      ensures minCdf == old(minCdf) && maxCdf == old(maxCdf)
      ensures entries == old(entries) || fresh(entries)
    {
      if numEntry >= maxEntry {
        CapacityPositive(resizes);
        maxEntry := maxEntry * 2;
        var e := new Entry[maxEntry](_ => Entry(0.0, 0.0));
        var i := 0;
        while i < numEntry
          invariant 0 <= i <= numEntry
          invariant e[..i] == old(entries[..i])
          invariant copied == old(copied) + i
          modifies e, `copied
        {
          e[i] := entries[i];
          copied := copied + 1;
          i := i + 1;
        }
        entries := e;
        resizes := resizes + 1;
      }
    }

    /** One line of load_cdf; false when the cdf is above 1, where the program ends. */
    method LoadLine(line: Entry) returns (ok: bool)
      requires Valid()
      modifies this, entries
      ensures Valid() && (entries == old(entries) || fresh(entries))
      ensures ok <==> line.cdf <= 1.0
      ensures Contents() == if ok then old(Contents()) + [line] else old(Contents())
      ensures ok ==> minCdf == if old(minCdf) > line.cdf then line.cdf else old(minCdf)
      ensures ok ==> maxCdf == if old(maxCdf) < line.cdf then line.cdf else old(maxCdf)
    {
      Resize();
      entries[numEntry] := line;
      if entries[numEntry].cdf > 1.0 {
        return false;
      }
      if minCdf > entries[numEntry].cdf {
        minCdf := entries[numEntry].cdf;
      }
      if maxCdf < entries[numEntry].cdf {
        maxCdf := entries[numEntry].cdf;
      }
      numEntry := numEntry + 1;
      ok := true;
    }

    /** load_cdf on the parsed lines. */
    method Load(lines: seq<Entry>) returns (ok: bool)
      requires Valid() && Contents() == [] && minCdf == 0.0 && maxCdf == 1.0
      modifies this, entries
      ensures Valid()
      ensures ok <==> forall i :: 0 <= i < |lines| ==> lines[i].cdf <= 1.0
      ensures ok ==> Contents() == lines
      ensures ok ==> minCdf == MinCdf(lines) && maxCdf == MaxCdf(lines) == 1.0
      ensures ok && lines != [] ==> copied < 2 * |lines|
    {
      var n := 0;
      while n < |lines|
        invariant 0 <= n <= |lines|
        invariant Valid() && Contents() == lines[..n]
        invariant entries == old(entries) || fresh(entries)
        invariant minCdf == MinCdf(lines[..n]) && maxCdf == MaxCdf(lines[..n]) == 1.0
        invariant forall i :: 0 <= i < n ==> lines[i].cdf <= 1.0
      {
        assert lines[..n + 1][..n] == lines[..n];
        var loaded := LoadLine(lines[n]);
        if !loaded {
          return false;
        }
        n := n + 1;
      }
      assert lines[..n] == lines;
      ok := true;
    }
  }

  lemma {:induction false} CapacityPositive(k: nat)
    ensures Capacity(k) >= INITIAL_ENTRIES
  {
    if k > 0 {
      CapacityPositive(k - 1);
    }
  }
}
