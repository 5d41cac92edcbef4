/** The chained hash table of flows: 256 lists, each with a cached length, and a global size.
    Records are objects, because the packet hooks update them in place through the pointer
    that a search returns. */
module FlowTables {
  import opened Machine
  import opened Flows

  class Flow {
    const key: FlowKey
    var lastCopyTime: int
    var lastUpdateTime: int
    var lastTimeoutSeq: u32
    var lastSeq: u32
    var lastAck: u32
    var bytesSent: u32
    var timeouts: u16
    var messages: u16

    function Info(): FlowInfo
      reads this
    {
      FlowInfo(lastCopyTime, lastUpdateTime, lastTimeoutSeq, lastSeq, lastAck, bytesSent, timeouts, messages)
    }

    constructor (key: FlowKey, info: FlowInfo)
      ensures this.key == key && Info() == info
    {
      this.key := key;
      lastCopyTime, lastUpdateTime := info.lastCopyTime, info.lastUpdateTime;
      lastTimeoutSeq, lastSeq, lastAck := info.lastTimeoutSeq, info.lastSeq, info.lastAck;
      bytesSent, timeouts, messages := info.bytesSent, info.timeouts, info.messages;
    }
  }

  /** The map gives each key of the sequence its only record. */
  ghost predicate Indexed(flows: seq<Flow>, entries: map<FlowKey, Flow>, pos: map<FlowKey, nat>) {
    && |flows| == |entries|
    && pos.Keys == entries.Keys
    && (forall j :: 0 <= j < |flows| ==> flows[j].key in pos && pos[flows[j].key] == j)
    && (forall k :: k in pos ==> pos[k] < |flows| && flows[pos[k]] == entries[k] && entries[k].key == k)
  }

  lemma IndexedAppend(flows: seq<Flow>, entries: map<FlowKey, Flow>, pos: map<FlowKey, nat>, f: Flow)
    requires Indexed(flows, entries, pos) && f.key !in entries
    ensures Indexed(flows + [f], entries[f.key := f], pos[f.key := |flows|])
  {
  }

  /** Positions after the record at i is removed. */
  ghost function Shifted(pos: map<FlowKey, nat>, key: FlowKey, i: nat): map<FlowKey, nat> {
    map k | k in pos && k != key :: if pos[k] <= i then pos[k] else pos[k] - 1
  }

  lemma IndexedRemove(flows: seq<Flow>, entries: map<FlowKey, Flow>, pos: map<FlowKey, nat>, i: nat)
    requires Indexed(flows, entries, pos) && i < |flows|
    ensures var key := flows[i].key;
      Indexed(flows[..i] + flows[i + 1..], Without(entries, key), Shifted(pos, key, i))
  {
    var key, rest := flows[i].key, flows[..i] + flows[i + 1..];
    var pos' := Shifted(pos, key, i);
    WithoutSize(entries, key);
    forall j | 0 <= j < |rest|
      ensures rest[j].key in pos' && pos'[rest[j].key] == j
    {
      assert rest[j] == flows[if j < i then j else j + 1];
    }
    forall k | k in pos'
      ensures pos'[k] < |rest| && rest[pos'[k]] == entries[k]
    {
      assert pos[k] != i;
    }
  }

  class FlowList {
    /** Position of this structure in the table's array. */
    ghost const at: nat
    var flows: seq<Flow>
    var len: int
    /** The record of each key, and where it stands. */
    ghost var Entries: map<FlowKey, Flow>
    ghost var Pos: map<FlowKey, nat>

    /** The cached length is the length, and keys are unique. */
    ghost predicate Valid()
      reads this
    {
      len == |flows| && Indexed(flows, Entries, Pos)
    }

    constructor (ghost at: nat)
      ensures Valid() && Entries == map[] && this.at == at
    {
      this.at := at;
      flows, len, Entries, Pos := [], 0, map[], map[];
    }

    method Search(key: FlowKey) returns (ptr: Flow?)
      requires Valid()
      ensures ptr == if key in Entries then Entries[key] else null
    {
      var i := 0;
      while i < |flows|
        invariant 0 <= i <= |flows|
        invariant key in Pos ==> i <= Pos[key]
      {
        if flows[i].key == key {
          return flows[i];
        }
        i := i + 1;
      }
      ptr := null;
    }

    /** Appends a copy of the record at the tail unless the key is present. */
    method Insert(key: FlowKey, info: FlowInfo) returns (ok: bool)
      requires Valid()
      modifies this
      ensures Valid()
      ensures ok <==> key !in old(Entries)
      ensures !ok ==> flows == old(flows) && Entries == old(Entries)
      ensures ok ==> key in Entries && Entries == old(Entries)[key := Entries[key]]
      ensures ok ==> flows == old(flows) + [Entries[key]]
      ensures ok ==> fresh(Entries[key]) && Entries[key].key == key && Entries[key].Info() == info
    {
      hide Indexed;
      var ptr := Search(key);
      if ptr != null {
        return false;
      }
      var buf := new Flow(key, info);
      IndexedAppend(flows, Entries, Pos, buf);
      Entries, Pos := Entries[key := buf], Pos[key := |flows|];
      flows := flows + [buf];
      len := len + 1;
      ok := true;
    }

    /** Unlinks the record of the key; returns its byte count, at least 1, or 0 if there is none. */
    method Delete(key: FlowKey) returns (result: u32)
      requires Valid()
      modifies this
      ensures Valid()
      ensures Entries == Without(old(Entries), key)
      ensures result == if key in old(Entries) then Reported(old(Entries)[key].bytesSent) else 0
    {
      var i := 0;
      while i < |flows|
        invariant 0 <= i <= |flows|
        invariant key in Pos ==> i <= Pos[key]
      {
        if flows[i].key == key {
          result := Reported(flows[i].bytesSent);
          Unlink(i);
          return;
        }
        i := i + 1;
      }
      WithoutSize(Entries, key);
      result := 0;
    }

    /** list_del of the record at a position. */
    method Unlink(i: nat)
      requires Valid() && i < |flows|
      modifies this
      ensures Valid()
      ensures Entries == Without(old(Entries), old(flows)[i].key)
    {
      hide Indexed;
      IndexedRemove(flows, Entries, Pos, i);
      ghost var key := flows[i].key;
      Entries, Pos := Without(Entries, key), Shifted(Pos, key, i);
      flows := flows[..i] + flows[i + 1..];
      len := len - 1;
    }

    /** Unlinks every record, but only if the cached length is positive. It is specified in every
        state, valid or not: a list whose cached length is wrongly zero is left as it is. */
    method Clear()
      modifies this
      ensures flows == if old(len) > 0 then [] else old(flows)
      ensures len == if old(len) > 0 then old(len) - |old(flows)| else old(len)
      ensures old(Valid()) ==> Valid() && Entries == map[]
    {
      if len > 0 {
        while flows != []
          invariant len == old(len) - |old(flows)| + |flows|
          decreases |flows|
        {
          flows := flows[1..];
          len := len - 1;
        }
        Entries, Pos := map[], map[];
      }
    }
  }

  /** What a deletion reports: the bytes sent, but at least 1. */
  function Reported(bytesSent: u32): u32 {
    if bytesSent > 1 then bytesSent else 1
  }

  /** Number of records in all buckets. */
  ghost function Total(parts: seq<map<FlowKey, Flow>>): nat {
    if parts == [] then 0 else |parts[0]| + Total(parts[1..])
  }

  lemma {:induction false} TotalUpdate(parts: seq<map<FlowKey, Flow>>, i: nat, p: map<FlowKey, Flow>)
    requires i < |parts|
    ensures Total(parts[i := p]) == Total(parts) - |parts[i]| + |p|
  {
    if i > 0 {
      assert parts[i := p][1..] == parts[1..][i - 1 := p];
      TotalUpdate(parts[1..], i - 1, p);
    }
  }

  lemma {:induction false} TotalZero(parts: seq<map<FlowKey, Flow>>)
    requires forall i :: 0 <= i < |parts| ==> parts[i] == map[]
    ensures Total(parts) == 0
  {
    if parts != [] {
      TotalZero(parts[1..]);
    }
  }

  /** The parts split a map by hash value. */
  ghost predicate Partition(parts: seq<map<FlowKey, Flow>>, whole: map<FlowKey, Flow>) {
    && |parts| == HASH_RANGE
    && (forall i, k :: 0 <= i < HASH_RANGE && k in parts[i] ==> HashFlow(k) == i)
    && (forall k :: k in whole <==> k in parts[HashFlow(k)])
    && (forall k :: k in whole ==> whole[k] == parts[HashFlow(k)][k])
    && |whole| == Total(parts)
  }

  /** The partition of the empty map. */
  ghost function NoParts(): (parts: seq<map<FlowKey, Flow>>)
    ensures |parts| == HASH_RANGE && forall i :: 0 <= i < HASH_RANGE ==> parts[i] == map[]
    ensures Partition(parts, map[])
  {
    var parts := seq(HASH_RANGE, _ => map[]);
    TotalZero(parts);
    parts
  }

  lemma PartitionLookup(parts: seq<map<FlowKey, Flow>>, whole: map<FlowKey, Flow>, key: FlowKey)
    requires Partition(parts, whole)
    ensures |parts| == HASH_RANGE
    ensures var part := parts[HashFlow(key)];
      (key in part <==> key in whole) && (key in whole ==> whole[key] == part[key])
  {
  }

  lemma PartitionAdd(parts: seq<map<FlowKey, Flow>>, whole: map<FlowKey, Flow>, key: FlowKey, f: Flow)
    requires Partition(parts, whole) && key !in whole
    ensures var h := HashFlow(key); Partition(parts[h := parts[h][key := f]], whole[key := f])
    ensures |whole[key := f]| == |whole| + 1
  {
    hide HashFlow;
    var h := HashFlow(key);
    TotalUpdate(parts, h, parts[h][key := f]);
  }

  lemma PartitionRemove(parts: seq<map<FlowKey, Flow>>, whole: map<FlowKey, Flow>, key: FlowKey)
    requires Partition(parts, whole)
    ensures var h := HashFlow(key); Partition(parts[h := Without(parts[h], key)], Without(whole, key))
    ensures |Without(whole, key)| == |whole| - if key in whole then 1 else 0
  {
    hide HashFlow;
    var h := HashFlow(key);
    WithoutSize(whole, key);
    WithoutSize(parts[h], key);
    TotalUpdate(parts, h, Without(parts[h], key));
  }

  /** The information stored in the given flows. */
  ghost function Infos(live: map<FlowKey, Flow>): map<FlowKey, FlowInfo>
    reads live.Values
  {
    map k | k in live :: live[k].Info()
  }

  lemma InfosWithout(live: map<FlowKey, Flow>, key: FlowKey)
    ensures Infos(Without(live, key)) == Without(Infos(live), key)
  {
  }

  lemma InfosAt(live: map<FlowKey, Flow>, key: FlowKey)
    ensures key in Infos(live) <==> key in live
    ensures key in live ==> Infos(live)[key] == live[key].Info()
  {
  }

  lemma InfosWith(live: map<FlowKey, Flow>, key: FlowKey, f: Flow)
    ensures Infos(live[key := f]) == Infos(live)[key := f.Info()]
  {
  }

  class FlowTable {
    /** The allocated array of list structures; its elements are never replaced. */
    const flowLists: seq<FlowList>
    var size: int
    /** The flow stored for each key, in all and by list. */
    ghost var Live: map<FlowKey, Flow>
    ghost var Parts: seq<map<FlowKey, Flow>>

    /** Every list is valid, every record sits in the bucket of its hash, and the size is both the
        number of keys and the sum of the list lengths. */
    ghost predicate Valid()
      reads this, flowLists
    {
      && |flowLists| == |Parts| == HASH_RANGE
      && (forall i :: 0 <= i < HASH_RANGE ==>
            flowLists[i].at == i && flowLists[i].Valid() && flowLists[i].Entries == Parts[i])
      && Partition(Parts, Live)
      && size == |Live|
    }

    /** What the table stands for. */
    ghost function Contents(): map<FlowKey, FlowInfo>
      reads this, Live.Values
    {
      Infos(Live)
    }

    constructor ()
      ensures Valid() && Live == map[] && Contents() == map[] && fresh(flowLists)
    {
      hide HashFlow, FlowList.Valid, Partition;
      var lists: seq<FlowList> := [];
      var i := 0;
      while i < HASH_RANGE
        invariant 0 <= i <= HASH_RANGE && |lists| == i
        invariant forall j :: 0 <= j < i ==> fresh(lists[j]) && lists[j].at == j && lists[j].Valid()
        invariant forall j :: 0 <= j < i ==> lists[j].Entries == map[]
      {
        var l := new FlowList(i);
        lists := lists + [l];
        i := i + 1;
      }
      flowLists, size, Live, Parts := lists, 0, map[], NoParts();
    }

    method Search(key: FlowKey) returns (ptr: Flow?)
      requires Valid()
      ensures ptr == if key in Live then Live[key] else null
    {
      hide HashFlow, FlowList.Valid, Partition;
      PartitionLookup(Parts, Live, key);
      ptr := flowLists[HashFlow(key)].Search(key);
    }

    /** Stores a copy of the record; fails exactly when the key is present. */
    method Insert(key: FlowKey, info: FlowInfo) returns (ok: bool)
      requires Valid()
      modifies this, flowLists
      ensures Valid()
      ensures ok <==> key !in old(Live)
      ensures !ok ==> Live == old(Live)
      ensures ok ==> key in Live && Live == old(Live)[key := Live[key]] && fresh(Live[key])
      ensures Contents() == if ok then old(Contents())[key := info] else old(Contents())
    {
      hide HashFlow, FlowList.Valid, Partition, Infos;
      var index := HashFlow(key);
      PartitionLookup(Parts, Live, key);
      ok := flowLists[index].Insert(key, info);
      if ok {
        size := size + 1;
        ghost var f := flowLists[index].Entries[key];
        PartitionAdd(Parts, Live, key, f);
        InfosWith(Live, key, f);
        Live, Parts := Live[key := f], Parts[index := Parts[index][key := f]];
      }
    }

    /** Removes the record of a key; returns its byte count, at least 1, or 0 if the key is absent. */
    method Delete(key: FlowKey) returns (result: u32)
      requires Valid()
      modifies this, flowLists
      ensures Valid()
      ensures Live == Without(old(Live), key)
      ensures Contents() == Without(old(Contents()), key)
      ensures result == if key in old(Contents()) then Reported(old(Contents())[key].bytesSent) else 0
    {
      hide HashFlow, FlowList.Valid, Partition, Infos, Without;
      var index := HashFlow(key);
      PartitionLookup(Parts, Live, key);
      InfosAt(Live, key);
      result := flowLists[index].Delete(key);
      InfosWithout(Live, key);
      if result > 0 {
        size := size - 1;
      }
      PartitionRemove(Parts, Live, key);
      Live, Parts := Without(Live, key), Parts[index := Without(Parts[index], key)];
    }

    /** Clears the lists one by one. Each list trusts its cached length, so this is correct
        only because the table is valid. */
    method Clear()
      requires Valid()
      modifies this, flowLists
      ensures Valid() && Live == map[] && Contents() == map[]
    {
      hide HashFlow, FlowList.Valid, Partition;
      var i := 0;
      while i < HASH_RANGE
        invariant 0 <= i <= HASH_RANGE
        invariant forall j :: 0 <= j < HASH_RANGE ==> flowLists[j].Valid()
        invariant forall j :: 0 <= j < i ==> flowLists[j].Entries == map[]
      {
        flowLists[i].Clear();
        i := i + 1;
      }
      size, Live, Parts := 0, map[], NoParts();
    }
  }

  ghost function SumLens(lists: seq<FlowList>): int
    reads lists
  {
    if lists == [] then 0 else lists[0].len + SumLens(lists[1..])
  }

  lemma {:induction false} SumLensIsTotal(lists: seq<FlowList>, parts: seq<map<FlowKey, Flow>>)
    requires |lists| == |parts|
    requires forall i :: 0 <= i < |lists| ==> lists[i].len == |parts[i]|
    ensures SumLens(lists) == Total(parts)
  {
    if lists != [] {
      SumLensIsTotal(lists[1..], parts[1..]);
    }
  }

  /** In a valid table the cached lengths are exact, and the size is their sum and the number of keys. */
  lemma SizeIsExact(t: FlowTable)
    requires t.Valid()
    ensures forall i :: 0 <= i < HASH_RANGE ==> t.flowLists[i].len == |t.flowLists[i].flows|
    ensures t.size == SumLens(t.flowLists) == |t.Contents()|
  {
    SumLensIsTotal(t.flowLists, t.Parts);
    assert t.Contents().Keys == t.Live.Keys;
  }

  /** In a valid table every record sits in the bucket of its hash, and two records at different
      places have different keys. */
  lemma PlacesAreUnique(t: FlowTable, i: nat, a: nat, j: nat, b: nat)
    requires t.Valid() && i < HASH_RANGE && j < HASH_RANGE
    requires a < |t.flowLists[i].flows| && b < |t.flowLists[j].flows|
    ensures HashFlow(t.flowLists[i].flows[a].key) == i
    ensures t.flowLists[i].flows[a].key == t.flowLists[j].flows[b].key <==> i == j && a == b
  {
    hide HashFlow;
    var f, g := t.flowLists[i].flows[a], t.flowLists[j].flows[b];
    assert f.key in t.flowLists[i].Entries && g.key in t.flowLists[j].Entries;
  }
}
