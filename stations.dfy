/** Station selection of the `GET /api/youbike` handler.
    The handler fetches one page of upstream station records, keeps those whose
    raw name is a key of a fixed table, and rewrites each kept record under the
    table's friendly name. The fetch and the JSON decoding are not modelled: the
    decoded record list is a parameter. */
module Stations {

  /** One upstream record as the handler reads it. */
  datatype UpstreamRecord = UpstreamRecord(sna: string, sbi: int, bemp: int, mday: string)

  /** One record of the handler's JSON answer. */
  datatype Station = Station(sna: string, bikesAvailable: int, parkingAvailable: int, lastUpdated: string)

  /** Raw upstream station name to friendly name. */
  const TargetStations: map<string, string> :=
    map[
      "YouBike2.0_五工二五工一路口(泰博科技)" := "泰博科技",
      "YouBike2.0_捷運新北產業園區站" := "捷運新北產業園區"
    ]

  /** The filter predicate: the raw name is one of the table's keys. */
  predicate IsTarget(table: map<string, string>, rec: UpstreamRecord) {
    rec.sna in table
  }

  /** The `filter` step: the records whose raw name is a key of the table, in input order. */
  function FilterTargets(table: map<string, string>, data: seq<UpstreamRecord>): (r: seq<UpstreamRecord>)
    ensures |r| <= |data|
    ensures forall i :: 0 <= i < |r| ==> IsTarget(table, r[i])
  {
    if data == [] then []
    else if IsTarget(table, data[0]) then [data[0]] + FilterTargets(table, data[1..])
    else FilterTargets(table, data[1..])
  }

  /** A record survives the filter if and only if it is in the input and its raw name is a key. */
  lemma {:induction false} FilterMembership(table: map<string, string>, data: seq<UpstreamRecord>, x: UpstreamRecord)
    ensures x in FilterTargets(table, data) <==> x in data && IsTarget(table, x)
  {
    if data != [] {
      FilterMembership(table, data[1..], x);
      assert x in data <==> x == data[0] || x in data[1..];
    }
  }

  /** The `map` step on one record: friendly name, counts and time copied. */
  function ToStation(table: map<string, string>, rec: UpstreamRecord): (s: Station)
    requires IsTarget(table, rec)
    ensures s.sna in table.Values
  {
    Station(table[rec.sna], rec.sbi, rec.bemp, rec.mday)
  }

  /** The `map` step over the filtered list. */
  function MapToStations(table: map<string, string>, recs: seq<UpstreamRecord>): (r: seq<Station>)
    requires forall i :: 0 <= i < |recs| ==> IsTarget(table, recs[i])
    ensures |r| == |recs|
    ensures forall i :: 0 <= i < |r| ==> r[i].sna in table.Values
  {
    if recs == [] then [] else [ToStation(table, recs[0])] + MapToStations(table, recs[1..])
  }

  /** `data.filter(...).map(...)` with an arbitrary table. */
  function Select(table: map<string, string>, data: seq<UpstreamRecord>): (r: seq<Station>)
    ensures |r| <= |data|
    ensures forall i :: 0 <= i < |r| ==> r[i].sna in table.Values
  {
    MapToStations(table, FilterTargets(table, data))
  }

  /** The pure part of `GET`: selection against the handler's own table. */
  function SelectTargets(data: seq<UpstreamRecord>): (r: seq<Station>)
    ensures |r| <= |data|
    ensures forall i :: 0 <= i < |r| ==> r[i].sna == "泰博科技" || r[i].sna == "捷運新北產業園區"
  {
    TargetValues();
    Select(TargetStations, data)
  }

  /** The table's friendly names, and that no two raw names share one. */
  lemma TargetValues()
    ensures TargetStations.Values == {"泰博科技", "捷運新北產業園區"}
    ensures forall k1, k2 :: k1 in TargetStations && k2 in TargetStations && TargetStations[k1] == TargetStations[k2] ==> k1 == k2
  {
    assert TargetStations.Keys == {"YouBike2.0_五工二五工一路口(泰博科技)", "YouBike2.0_捷運新北產業園區站"};
  }

  /** Reference definition of the selection: the positions, from `from` on, of
      the records that survive the filter, in increasing order. */
  function KeptIndices(table: map<string, string>, data: seq<UpstreamRecord>, from: nat): (k: seq<nat>)
    requires from <= |data|
    ensures |k| <= |data| - from
    ensures forall j :: 0 <= j < |k| ==> from <= k[j] < |data| && IsTarget(table, data[k[j]])
    ensures forall j1, j2 :: 0 <= j1 < j2 < |k| ==> k[j1] < k[j2]
    ensures forall i :: from <= i < |data| && IsTarget(table, data[i]) ==> i in k
    decreases |data| - from
  {
    if from == |data| then []
    else if IsTarget(table, data[from]) then [from] + KeptIndices(table, data, from + 1)
    else KeptIndices(table, data, from + 1)
  }

  /** The filter on the suffix `data[from..]` keeps as many records as there are kept positions. */
  lemma {:induction false} FilterLength(table: map<string, string>, data: seq<UpstreamRecord>, from: nat)
    requires from <= |data|
    ensures |FilterTargets(table, data[from..])| == |KeptIndices(table, data, from)|
    decreases |data| - from
  {
    if from < |data| {
      FilterLength(table, data, from + 1);
      var suffix := data[from..];
      assert suffix[0] == data[from];
      assert suffix[1..] == data[from + 1..];
    }
  }

  /** Its `j`-th record is the one at the `j`-th kept position. */
  lemma {:induction false} FilterAtIndex(table: map<string, string>, data: seq<UpstreamRecord>, from: nat, j: nat)
    requires from <= |data|
    requires j < |KeptIndices(table, data, from)|
    ensures j < |FilterTargets(table, data[from..])| && FilterTargets(table, data[from..])[j] == data[KeptIndices(table, data, from)[j]]
    decreases |data| - from
  {
    FilterLength(table, data, from);
    var suffix := data[from..];
    assert suffix[0] == data[from];
    assert suffix[1..] == data[from + 1..];
    var k' := KeptIndices(table, data, from + 1);
    var f' := FilterTargets(table, data[from + 1..]);
    FilterLength(table, data, from + 1);
    if IsTarget(table, data[from]) {
      assert KeptIndices(table, data, from) == [from] + k';
      assert FilterTargets(table, suffix) == [data[from]] + f';
      if j > 0 {
        FilterAtIndex(table, data, from + 1, j - 1);
        assert ([from] + k')[j] == k'[j - 1];
        assert ([data[from]] + f')[j] == f'[j - 1];
      }
    } else {
      assert KeptIndices(table, data, from) == k';
      assert FilterTargets(table, suffix) == f';
      FilterAtIndex(table, data, from + 1, j);
    }
  }

  /** The map step rewrites each record at the same position. */
  lemma {:induction false} MapAt(table: map<string, string>, recs: seq<UpstreamRecord>, j: nat)
    requires forall i :: 0 <= i < |recs| ==> IsTarget(table, recs[i])
    requires j < |recs|
    ensures MapToStations(table, recs)[j] == ToStation(table, recs[j])
  {
    if j > 0 {
      MapAt(table, recs[1..], j - 1);
    }
  }

  /** The selection on the suffix `data[from..]` is the kept records of that
      suffix, rewritten one by one, in order. */
  lemma SelectAt(table: map<string, string>, data: seq<UpstreamRecord>, from: nat)
    requires from <= |data|
    ensures var k := KeptIndices(table, data, from);
      var out := Select(table, data[from..]);
      |out| == |k| &&
      forall j :: 0 <= j < |k| ==> out[j] == ToStation(table, data[k[j]])
  {
    var k := KeptIndices(table, data, from);
    var f := FilterTargets(table, data[from..]);
    FilterLength(table, data, from);
    forall j | 0 <= j < |k| ensures Select(table, data[from..])[j] == ToStation(table, data[k[j]]) {
      FilterAtIndex(table, data, from, j);
      MapAt(table, f, j);
    }
  }

  /** The selection keeps exactly the records whose raw name is a table key,
      keeps their input order, and copies their fields under the friendly name. */
  lemma SelectCharacterisation(table: map<string, string>, data: seq<UpstreamRecord>)
    ensures var k := KeptIndices(table, data, 0);
      var out := Select(table, data);
      |out| == |k| &&
      (forall i :: 0 <= i < |data| ==> (i in k <==> data[i].sna in table)) &&
      (forall j1, j2 :: 0 <= j1 < j2 < |k| ==> k[j1] < k[j2]) &&
      (forall j :: 0 <= j < |out| ==>
         k[j] < |data| &&
         data[k[j]].sna in table &&
         out[j].sna == table[data[k[j]].sna] &&
         out[j].bikesAvailable == data[k[j]].sbi &&
         out[j].parkingAvailable == data[k[j]].bemp &&
         out[j].lastUpdated == data[k[j]].mday)
  {
    SelectAt(table, data, 0);
    assert data[0..] == data;
  }

  /** Empty input gives empty output. */
  lemma SelectEmpty(table: map<string, string>)
    ensures Select(table, []) == []
  {
  }

  /** Number of stations carrying the name `name`. */
  function CountNamed(out: seq<Station>, name: string): (c: nat)
    ensures c <= |out|
  {
    if out == [] then 0 else (if out[0].sna == name then 1 else 0) + CountNamed(out[1..], name)
  }

  /** Number of upstream records whose raw name the table maps to `name`. */
  function CountMappedTo(table: map<string, string>, data: seq<UpstreamRecord>, name: string): (c: nat)
    ensures c <= |data|
  {
    if data == [] then 0
    else (if data[0].sna in table && table[data[0].sna] == name then 1 else 0) + CountMappedTo(table, data[1..], name)
  }

  /** Number of upstream records with raw name `raw`. */
  function CountRaw(data: seq<UpstreamRecord>, raw: string): (c: nat)
    ensures c <= |data|
  {
    if data == [] then 0 else (if data[0].sna == raw then 1 else 0) + CountRaw(data[1..], raw)
  }

  /** No deduplication: each friendly name occurs once per upstream record that maps to it. */
  lemma {:induction false} SelectCounts(table: map<string, string>, data: seq<UpstreamRecord>, name: string)
    ensures CountNamed(Select(table, data), name) == CountMappedTo(table, data, name)
  {
    if data != [] {
      SelectCounts(table, data[1..], name);
      var rest := FilterTargets(table, data[1..]);
      if IsTarget(table, data[0]) {
        var out := MapToStations(table, [data[0]] + rest);
        assert ([data[0]] + rest)[1..] == rest;
        assert out == [ToStation(table, data[0])] + MapToStations(table, rest);
        assert out[1..] == MapToStations(table, rest);
      }
    }
  }

  /** For raw names counted against one table, the names that map to one friendly name. */
  lemma {:induction false} CountMappedInjective(table: map<string, string>, data: seq<UpstreamRecord>, raw: string)
    requires raw in table
    requires forall k :: k in table && table[k] == table[raw] ==> k == raw
    ensures CountMappedTo(table, data, table[raw]) == CountRaw(data, raw)
  {
    if data != [] {
      CountMappedInjective(table, data[1..], raw);
    }
  }

  /** For the handler's table: the number of answers named `TargetStations[raw]`
      equals the number of upstream records whose raw name is `raw`. */
  lemma SelectTargetsCounts(data: seq<UpstreamRecord>, raw: string)
    requires raw in TargetStations
    ensures CountNamed(SelectTargets(data), TargetStations[raw]) == CountRaw(data, raw)
  {
    TargetValues();
    SelectCounts(TargetStations, data, TargetStations[raw]);
    CountMappedInjective(TargetStations, data, raw);
  }
}
