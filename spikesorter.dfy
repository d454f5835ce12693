/**
 * Spike-sorter export handling: rows of an already parsed three-column
 * export (spike time in seconds, unit id, channel id) become spike ticks
 * and unit labels, and the ticks are grouped per unit in ascending unit
 * order.
 */
module SpikeSorter {
  import opened Sequences
  import opened RealDivision

  /**
   * One parsed row of the export.  The two header rows are rows too; their
   * contents are never looked at.
   */
  datatype CsvRow = CsvRow(seconds: real, unitId: int, channelId: int)

  /** Storing a float into an integer array keeps its integer part (truncation toward zero). */
  function TruncateTowardZero(x: real): (n: int)
    ensures x >= 0.0 ==> n >= 0 && n as real <= x < n as real + 1.0
    ensures x < 0.0 ==> n <= 0 && n as real - 1.0 < x <= n as real
  {
    if x >= 0.0 then x.Floor else -((-x).Floor)
  }

  /**
   * The tick of a spike: its time in seconds times the sampling frequency,
   * truncated.  With a positive sampling frequency a spike at a non-negative
   * time gets the index of the sampling period that contains it; a spike at
   * a negative time is rounded up toward 0 instead.
   */
  function Tick(seconds: real, samplingFrequency: real): (tick: int)
    ensures samplingFrequency > 0.0 && seconds >= 0.0 ==>
      tick >= 0 && tick as real / samplingFrequency <= seconds < (tick + 1) as real / samplingFrequency
    ensures samplingFrequency > 0.0 && seconds < 0.0 ==>
      tick <= 0 && (tick - 1) as real / samplingFrequency < seconds <= tick as real / samplingFrequency
  {
    var x := seconds * samplingFrequency;
    var tick := TruncateTowardZero(x);
    if samplingFrequency <= 0.0 then tick
    else
      assert x / samplingFrequency == seconds;
      if x >= 0.0 then
        QuotientBelow(tick as real, x, samplingFrequency);
        QuotientBelow(x, (tick + 1) as real, samplingFrequency);
        tick
      else
        QuotientBelow((tick - 1) as real, x, samplingFrequency);
        QuotientBelow(x, tick as real, samplingFrequency);
        tick
  }

  /** The data rows: everything after the two header rows. */
  function DataRows(rows: seq<CsvRow>): (data: seq<CsvRow>)
    ensures |data| <= |rows|
  {
    if |rows| >= 2 then rows[2..] else []
  }

  /** The tick of each data row. */
  function SpikeTicks(rows: seq<CsvRow>, samplingFrequency: real): (ticks: seq<int>)
    ensures |ticks| == |DataRows(rows)|
  {
    var data := DataRows(rows);
    seq(|data|, i requires 0 <= i < |data| => Tick(data[i].seconds, samplingFrequency))
  }

  /** The unit id of each data row. */
  function SpikeLabels(rows: seq<CsvRow>): (labels: seq<int>)
    ensures |labels| == |DataRows(rows)|
  {
    var data := DataRows(rows);
    seq(|data|, i requires 0 <= i < |data| => data[i].unitId)
  }

  /**
   * read_spikesorter_csv on parsed rows: drops the two header rows, then
   * fills a tick array and a label array with one entry per data row.
   */
  method ReadSpikesorterCsv(rows: seq<CsvRow>, samplingFrequency: real)
    returns (spikeTimes: seq<int>, spikeLabels: seq<int>)
    ensures spikeTimes == SpikeTicks(rows, samplingFrequency)
    ensures spikeLabels == SpikeLabels(rows)
  {
    var unitList := rows;
    unitList := if |unitList| >= 2 then unitList[2..] else [];
    assert unitList == DataRows(rows);
    ghost var ticks, ids := SpikeTicks(rows, samplingFrequency), SpikeLabels(rows);
    var times := new int[|unitList|](i => 0);
    var labels := new int[|unitList|](i => 0);
    for i := 0 to |unitList|
      invariant forall j :: 0 <= j < i ==> times[j] == ticks[j]
      invariant forall j :: 0 <= j < i ==> labels[j] == ids[j]
    {
      times[i] := Tick(unitList[i].seconds, samplingFrequency);
      labels[i] := unitList[i].unitId;
    }
    spikeTimes, spikeLabels := times[..], labels[..];
  }

  // ---------------------------------------------------------------------
  // Units

  function InsertSorted(ids: seq<int>, v: int): (r: seq<int>)
    requires StrictlyIncreasing(ids)
    ensures StrictlyIncreasing(r)
    ensures forall x :: x in r <==> x in ids || x == v
  {
    if ids == [] then [v]
    else if v < ids[0] then [v] + ids
    else if v == ids[0] then ids
    else
      var rest := InsertSorted(ids[1..], v);
      assert forall k :: 0 <= k < |rest| ==> rest[k] in rest;
      assert forall k :: 0 < k < |ids| ==> ids[0] < ids[k];
      assert forall x :: x in ids[1..] ==> ids[0] < x;
      [ids[0]] + rest
  }

  /** np.unique: the distinct labels in ascending order. */
  function Unique(labels: seq<int>): (ids: seq<int>)
    ensures StrictlyIncreasing(ids)
    ensures forall x :: x in ids <==> x in labels
  {
    if labels == [] then []
    else
      var n := |labels| - 1;
      assert labels == labels[..n] + [labels[n]];
      InsertSorted(Unique(labels[..n]), labels[n])
  }

  /** `spike_times[spike_labels == id]`: the ticks carrying a label, in their original order. */
  function SpikesOfUnit(times: seq<int>, labels: seq<int>, id: int): (group: seq<int>)
    requires |times| == |labels|
    ensures |group| <= |times|
    ensures |group| > 0 <==> id in labels
  {
    if times == [] then []
    else (if labels[0] == id then [times[0]] else []) + SpikesOfUnit(times[1..], labels[1..], id)
  }

  /** Some row carries label `id` and tick `x`. */
  predicate LabelledTick(times: seq<int>, labels: seq<int>, id: int, x: int)
    requires |times| == |labels|
  {
    exists i :: 0 <= i < |times| && labels[i] == id && times[i] == x
  }

  /** A unit's group holds exactly the ticks whose label is that unit's id. */
  lemma {:induction false} SpikesOfUnitMembers(times: seq<int>, labels: seq<int>, id: int)
    requires |times| == |labels|
    ensures forall x :: x in SpikesOfUnit(times, labels, id) <==> LabelledTick(times, labels, id, x)
  {
    if times != [] {
      SpikesOfUnitMembers(times[1..], labels[1..], id);
      forall x
        ensures LabelledTick(times, labels, id, x) <==>
          (labels[0] == id && times[0] == x) || LabelledTick(times[1..], labels[1..], id, x)
      {
        if LabelledTick(times, labels, id, x) {
          var i :| 0 <= i < |times| && labels[i] == id && times[i] == x;
          if i > 0 {
            assert labels[1..][i - 1] == id && times[1..][i - 1] == x;
          }
        }
        if LabelledTick(times[1..], labels[1..], id, x) {
          var i :| 0 <= i < |times| - 1 && labels[1..][i] == id && times[1..][i] == x;
          assert labels[i + 1] == id && times[i + 1] == x;
        }
      }
    }
  }

  /**
   * Selection commutes with concatenation: the ticks of a unit stay in the
   * order they have in the file.
   */
  lemma {:induction false} SpikesOfUnitKeepsOrder(times: seq<int>, labels: seq<int>, times': seq<int>, labels': seq<int>, id: int)
    requires |times| == |labels| && |times'| == |labels'|
    ensures SpikesOfUnit(times + times', labels + labels', id)
         == SpikesOfUnit(times, labels, id) + SpikesOfUnit(times', labels', id)
  {
    if times == [] {
      assert times + times' == times' && labels + labels' == labels';
    } else {
      var head := if labels[0] == id then [times[0]] else [];
      assert (times + times')[1..] == times[1..] + times';
      assert (labels + labels')[1..] == labels[1..] + labels';
      assert SpikesOfUnit(times + times', labels + labels', id)
          == head + SpikesOfUnit(times[1..] + times', labels[1..] + labels', id);
      SpikesOfUnitKeepsOrder(times[1..], labels[1..], times', labels', id);
      assert SpikesOfUnit(times, labels, id) == head + SpikesOfUnit(times[1..], labels[1..], id);
    }
  }

  /** One group per id, in the order of the ids. */
  function GroupsOf(times: seq<int>, labels: seq<int>, ids: seq<int>): (groups: seq<seq<int>>)
    requires |times| == |labels|
    ensures |groups| == |ids|
  {
    seq(|ids|, k requires 0 <= k < |ids| => SpikesOfUnit(times, labels, ids[k]))
  }

  function Flatten(groups: seq<seq<int>>): seq<int>
  {
    if groups == [] then [] else groups[0] + Flatten(groups[1..])
  }

  lemma {:induction false} GroupsOfNoSpikes(ids: seq<int>)
    ensures Flatten(GroupsOf([], [], ids)) == []
  {
    if ids != [] {
      assert GroupsOf([], [], ids)[1..] == GroupsOf([], [], ids[1..]);
      GroupsOfNoSpikes(ids[1..]);
    }
  }

  /** The first spike lands in the group of its own label and in no other. */
  lemma {:induction false} GroupsOfFirstSpike(times: seq<int>, labels: seq<int>, ids: seq<int>)
    requires |times| == |labels| > 0 && StrictlyIncreasing(ids)
    ensures multiset(Flatten(GroupsOf(times, labels, ids)))
         == (if labels[0] in ids then multiset{times[0]} else multiset{})
            + multiset(Flatten(GroupsOf(times[1..], labels[1..], ids)))
  {
    if ids != [] {
      var groups := GroupsOf(times, labels, ids);
      var tail := GroupsOf(times[1..], labels[1..], ids);
      assert groups[1..] == GroupsOf(times, labels, ids[1..]);
      assert tail[1..] == GroupsOf(times[1..], labels[1..], ids[1..]);
      GroupsOfFirstSpike(times, labels, ids[1..]);
      assert labels[0] in ids <==> labels[0] == ids[0] || labels[0] in ids[1..];
      assert labels[0] == ids[0] ==> labels[0] !in ids[1..];
    }
  }

  /**
   * Grouping by any strictly increasing list of ids that covers every label
   * is a partition: each spike lands in exactly one group.
   */
  lemma {:induction false} GroupsPartitionSpikes(times: seq<int>, labels: seq<int>, ids: seq<int>)
    requires |times| == |labels| && StrictlyIncreasing(ids)
    requires forall x :: x in labels ==> x in ids
    ensures multiset(Flatten(GroupsOf(times, labels, ids))) == multiset(times)
  {
    if times == [] {
      GroupsOfNoSpikes(ids);
    } else {
      assert labels[0] in labels;
      forall x | x in labels[1..]
        ensures x in ids
      {
        assert x in labels;
      }
      var groups, later := GroupsOf(times, labels, ids), GroupsOf(times[1..], labels[1..], ids);
      GroupsOfFirstSpike(times, labels, ids);
      assert multiset(Flatten(groups)) == multiset{times[0]} + multiset(Flatten(later));
      GroupsPartitionSpikes(times[1..], labels[1..], ids);
      assert times == [times[0]] + times[1..];
      assert multiset(times) == multiset{times[0]} + multiset(times[1..]);
    }
  }

  /** The groups get_spikes returns for an export: one per distinct unit id. */
  function UnitGroups(rows: seq<CsvRow>, samplingFrequency: real): (groups: seq<seq<int>>)
    ensures |groups| == |Unique(SpikeLabels(rows))|
  {
    var labels := SpikeLabels(rows);
    GroupsOf(SpikeTicks(rows, samplingFrequency), labels, Unique(labels))
  }

  /**
   * Group k of an export holds the tick of every data row labelled with the
   * k-th smallest unit id, and no other tick.
   */
  lemma UnitGroupMembers(rows: seq<CsvRow>, samplingFrequency: real, k: nat)
    requires k < |UnitGroups(rows, samplingFrequency)|
    ensures forall x :: x in UnitGroups(rows, samplingFrequency)[k] <==>
      LabelledTick(SpikeTicks(rows, samplingFrequency), SpikeLabels(rows), Unique(SpikeLabels(rows))[k], x)
  {
    var labels := SpikeLabels(rows);
    var ticks := SpikeTicks(rows, samplingFrequency);
    var ids := Unique(labels);
    assert UnitGroups(rows, samplingFrequency)[k] == SpikesOfUnit(ticks, labels, ids[k]);
    SpikesOfUnitMembers(ticks, labels, ids[k]);
  }

  /**
   * get_spikes partitions the spikes: together the groups hold every spike
   * tick exactly once, so their sizes add up to the number of data rows;
   * and no group is empty.
   */
  lemma UnitGroupsPartitionSpikes(rows: seq<CsvRow>, samplingFrequency: real)
    ensures multiset(Flatten(UnitGroups(rows, samplingFrequency))) == multiset(SpikeTicks(rows, samplingFrequency))
    ensures |Flatten(UnitGroups(rows, samplingFrequency))| == |DataRows(rows)|
    ensures forall k :: 0 <= k < |UnitGroups(rows, samplingFrequency)| ==> |UnitGroups(rows, samplingFrequency)[k]| > 0
  {
    var labels := SpikeLabels(rows);
    var ticks := SpikeTicks(rows, samplingFrequency);
    GroupsPartitionSpikes(ticks, labels, Unique(labels));
    var flat := Flatten(UnitGroups(rows, samplingFrequency));
    assert |flat| == |multiset(flat)| == |multiset(ticks)| == |ticks|;
    var ids := Unique(labels);
    forall k | 0 <= k < |ids|
      ensures |SpikesOfUnit(ticks, labels, ids[k])| > 0
    {
      assert ids[k] in ids;
    }
  }

  /**
   * get_spikes: one group per distinct unit id, in ascending id order,
   * each holding exactly the ticks labelled with that id in file order.
   */
  method GetSpikes(rows: seq<CsvRow>, samplingFrequency: real) returns (spikeTimesForEachNeuron: seq<seq<int>>)
    ensures spikeTimesForEachNeuron == UnitGroups(rows, samplingFrequency)
  {
    var spikeTimes, spikeLabels := ReadSpikesorterCsv(rows, samplingFrequency);
    var neuronIds := Unique(spikeLabels);
    ghost var groups := GroupsOf(spikeTimes, spikeLabels, neuronIds);
    spikeTimesForEachNeuron := [];
    for k := 0 to |neuronIds|
      invariant |spikeTimesForEachNeuron| == k
      invariant forall l :: 0 <= l < k ==> spikeTimesForEachNeuron[l] == groups[l]
    {
      var id := neuronIds[k];
      assert groups[k] == SpikesOfUnit(spikeTimes, spikeLabels, id);
      spikeTimesForEachNeuron := spikeTimesForEachNeuron + [SpikesOfUnit(spikeTimes, spikeLabels, id)];
    }
    assert spikeTimesForEachNeuron == groups;
  }
}
