/**
 * Peri-event spike selection: the spikes within a window around each event,
 * the order of trials by latency to their first spike, and the removal of
 * the spikes at or after a per-trial event.  Times are real numbers.
 */
module SpikeTimes {
  import opened Wrappers
  import opened Sequences
  import opened RealDivision

  // ---------------------------------------------------------------------
  // get_spikes_at_events

  /** The spike ticks strictly between the two bounds, in their original order. */
  function SpikesBetween(spikeTicks: seq<int>, lowerTick: int, upperTick: int): (kept: seq<int>)
    ensures |kept| <= |spikeTicks|
    ensures forall x :: x in kept <==> x in spikeTicks && lowerTick < x < upperTick
  {
    if spikeTicks == [] then []
    else
      (if lowerTick < spikeTicks[0] < upperTick then [spikeTicks[0]] else [])
        + SpikesBetween(spikeTicks[1..], lowerTick, upperTick)
  }

  /**
   * Selection commutes with concatenation: spikes that are kept stay in the
   * order they had in the input.
   */
  lemma {:induction false} SpikesBetweenKeepsOrder(a: seq<int>, b: seq<int>, lowerTick: int, upperTick: int)
    ensures SpikesBetween(a + b, lowerTick, upperTick)
         == SpikesBetween(a, lowerTick, upperTick) + SpikesBetween(b, lowerTick, upperTick)
  {
    if a != [] {
      assert (a + b)[1..] == a[1..] + b;
      SpikesBetweenKeepsOrder(a[1..], b, lowerTick, upperTick);
    } else {
      assert a + b == b;
    }
  }

  /**
   * Ticks converted to seconds relative to the event, as `ticks / rate -
   * event / rate`: each entry is the latency of its tick after the event.
   */
  function RelativeSeconds(ticks: seq<int>, eventTick: int, samplingRateHz: int): (seconds: seq<real>)
    requires samplingRateHz != 0
    ensures |seconds| == |ticks|
    ensures forall i :: 0 <= i < |ticks| ==> seconds[i] == (ticks[i] - eventTick) as real / samplingRateHz as real
  {
    seq(|ticks|, i requires 0 <= i < |ticks| =>
      ticks[i] as real / samplingRateHz as real - eventTick as real / samplingRateHz as real)
  }

  /** The entry get_spikes_at_events produces for one event: at most one latency per spike. */
  function SpikesAtEvent(spikeTicks: seq<int>, eventTick: int, winTicks: int, samplingRateHz: int): (latencies: seq<real>)
    requires samplingRateHz != 0
    ensures |latencies| <= |spikeTicks|
  {
    RelativeSeconds(SpikesBetween(spikeTicks, eventTick - winTicks, eventTick + winTicks), eventTick, samplingRateHz)
  }

  /**
   * What an entry means: x is reported for the event exactly when some spike
   * s lies strictly inside the window and x is its latency (s - event) / rate.
   */
  lemma SpikesAtEventMeaning(spikeTicks: seq<int>, eventTick: int, winTicks: int, samplingRateHz: int)
    requires samplingRateHz != 0
    ensures forall x :: x in SpikesAtEvent(spikeTicks, eventTick, winTicks, samplingRateHz) <==>
      exists s :: s in spikeTicks && eventTick - winTicks < s < eventTick + winTicks &&
                  x == (s - eventTick) as real / samplingRateHz as real
  {
    var r := samplingRateHz as real;
    var kept := SpikesBetween(spikeTicks, eventTick - winTicks, eventTick + winTicks);
    var out := SpikesAtEvent(spikeTicks, eventTick, winTicks, samplingRateHz);
    forall x
      ensures x in out <==> exists s :: s in spikeTicks && eventTick - winTicks < s < eventTick + winTicks &&
                                     x == (s - eventTick) as real / r
    {
      if x in out {
        var i :| 0 <= i < |out| && out[i] == x;
        assert kept[i] in kept;
      }
      if exists s :: s in spikeTicks && eventTick - winTicks < s < eventTick + winTicks &&
                     x == (s - eventTick) as real / r {
        var s :| s in spikeTicks && eventTick - winTicks < s < eventTick + winTicks &&
                 x == (s - eventTick) as real / r;
        assert s in kept;
        var i :| 0 <= i < |kept| && kept[i] == s;
        assert out[i] == x;
      }
    }
  }

  /** With a positive rate every latency lies strictly inside (-win/rate, win/rate). */
  lemma SpikesAtEventWithinWindow(spikeTicks: seq<int>, eventTick: int, winTicks: int, samplingRateHz: int)
    requires samplingRateHz > 0
    ensures forall x :: x in SpikesAtEvent(spikeTicks, eventTick, winTicks, samplingRateHz) ==>
      -(winTicks as real) / samplingRateHz as real < x < winTicks as real / samplingRateHz as real
  {
    var r := samplingRateHz as real;
    var kept := SpikesBetween(spikeTicks, eventTick - winTicks, eventTick + winTicks);
    var out := SpikesAtEvent(spikeTicks, eventTick, winTicks, samplingRateHz);
    forall x | x in out
      ensures -(winTicks as real) / r < x < winTicks as real / r
    {
      var i :| 0 <= i < |out| && out[i] == x;
      assert kept[i] in kept;
      QuotientBelow((kept[i] - eventTick) as real, winTicks as real, r);
      QuotientBelow(-(winTicks as real), (kept[i] - eventTick) as real, r);
    }
  }

  /**
   * get_spikes_at_events: for each event, in event order, the latencies in
   * seconds of the spikes strictly inside (event - win, event + win).
   */
  method GetSpikesAtEvents(spikeTimesTicks: seq<int>, eventTicks: seq<int>, winTicks: int, samplingRateHz: int)
    returns (spikesInRangeS: seq<seq<real>>)
    requires samplingRateHz != 0
    ensures |spikesInRangeS| == |eventTicks|
    ensures forall k :: 0 <= k < |eventTicks| ==>
      spikesInRangeS[k] == SpikesAtEvent(spikeTimesTicks, eventTicks[k], winTicks, samplingRateHz)
  {
    spikesInRangeS := [];
    for k := 0 to |eventTicks|
      invariant |spikesInRangeS| == k
      invariant forall j :: 0 <= j < k ==>
        spikesInRangeS[j] == SpikesAtEvent(spikeTimesTicks, eventTicks[j], winTicks, samplingRateHz)
    {
      var eventTick := eventTicks[k];
      var eventLowerBoundTick := eventTick - winTicks;
      var eventUpperBoundTick := eventTick + winTicks;
      var spikesInRangeTicks := SpikesBetween(spikeTimesTicks, eventLowerBoundTick, eventUpperBoundTick);
      spikesInRangeS := spikesInRangeS + [RelativeSeconds(spikesInRangeTicks, eventTick, samplingRateHz)];
    }
  }

  // ---------------------------------------------------------------------
  // sort_by_spike_times

  /** The indices below n of the positive entries of a trial, in increasing order. */
  function PositiveIndicesBelow(trial: seq<real>, n: nat): (indices: seq<int>)
    requires n <= |trial|
    ensures forall k :: 0 <= k < |indices| ==> 0 <= indices[k] < n && trial[indices[k]] > 0.0
    ensures forall i :: 0 <= i < n && trial[i] > 0.0 ==> i in indices
    ensures forall k, l :: 0 <= k < l < |indices| ==> indices[k] < indices[l]
  {
    if n == 0 then []
    else PositiveIndicesBelow(trial, n - 1) + (if trial[n - 1] > 0.0 then [n - 1] else [])
  }

  /** The indices of the positive entries of a trial, in increasing order (`np.where(trial > 0)[0]`). */
  function PositiveIndices(trial: seq<real>): (indices: seq<int>)
    ensures forall k :: 0 <= k < |indices| ==> 0 <= indices[k] < |trial| && trial[indices[k]] > 0.0
    ensures forall i :: 0 <= i < |trial| && trial[i] > 0.0 ==> i in indices
    ensures forall k, l :: 0 <= k < l < |indices| ==> indices[k] < indices[l]
  {
    PositiveIndicesBelow(trial, |trial|)
  }

  /** The sort key of a trial: its first positive spike time, or 0.0 when it has none. */
  function FirstPositiveSpike(trial: seq<real>): (key: real)
    ensures key >= 0.0
  {
    var firstSpikeTime := PositiveIndices(trial);
    if |firstSpikeTime| > 0 then trial[firstSpikeTime[0]] else 0.0
  }

  /**
   * The key is 0.0 exactly for a trial with no positive spike; otherwise it
   * is a spike of the trial and every spike before it is at or below zero.
   */
  lemma FirstPositiveSpikeMeaning(trial: seq<real>)
    ensures FirstPositiveSpike(trial) == 0.0 <==> forall i :: 0 <= i < |trial| ==> trial[i] <= 0.0
    ensures FirstPositiveSpike(trial) > 0.0 ==>
      exists i :: 0 <= i < |trial| && trial[i] == FirstPositiveSpike(trial) &&
                  forall j :: 0 <= j < i ==> trial[j] <= 0.0
  {
    var firstSpikeTime := PositiveIndices(trial);
    forall i | 0 <= i < |trial| && trial[i] > 0.0
      ensures |firstSpikeTime| > 0 && firstSpikeTime[0] <= i
    {
      assert i in firstSpikeTime;
      var m :| 0 <= m < |firstSpikeTime| && firstSpikeTime[m] == i;
      if m > 0 {
        assert firstSpikeTime[0] < firstSpikeTime[m];
      }
    }
    if |firstSpikeTime| > 0 {
      assert trial[firstSpikeTime[0]] == FirstPositiveSpike(trial);
    }
  }

  /** `order` lists each of 0 .. n-1 exactly once. */
  predicate IsPermutation(order: seq<int>, n: nat)
  {
    && |order| == n
    && (forall i :: 0 <= i < n ==> 0 <= order[i] < n)
    && (forall i, j :: 0 <= i < j < n ==> order[i] != order[j])
    && (forall t :: 0 <= t < n ==> t in order)
  }

  /** Listing `keys` in the order `order` gives non-decreasing keys. */
  predicate SortedBy(keys: seq<real>, order: seq<int>)
    requires forall i :: 0 <= i < |order| ==> 0 <= order[i] < |keys|
  {
    forall i, j :: 0 <= i < j < |order| ==> keys[order[i]] <= keys[order[j]]
  }

  /** Inserting the next index into a permutation of 0 .. k-1 gives one of 0 .. k. */
  lemma InsertExtendsPermutation(order: seq<int>, k: nat, p: nat)
    requires IsPermutation(order, k) && p <= k
    ensures IsPermutation(order[..p] + [k] + order[p..], k + 1)
  {
    var inserted := order[..p] + [k] + order[p..];
    assert inserted[p] == k;
    assert forall i :: 0 <= i < p ==> inserted[i] == order[i];
    assert forall i :: p < i <= k ==> inserted[i] == order[i - 1];
    forall t | 0 <= t < k
      ensures t in inserted
    {
      assert t in order;
      var m :| 0 <= m < |order| && order[m] == t;
      if m < p {
        assert inserted[m] == t;
      } else {
        assert inserted[m + 1] == t;
      }
    }
  }

  /**
   * Inserting index k after every entry whose key is at most keys[k] and
   * before every entry whose key is larger keeps the order sorted.
   */
  lemma InsertKeepsSorted(keys: seq<real>, order: seq<int>, k: nat, p: nat)
    requires k < |keys| && p <= |order|
    requires forall i :: 0 <= i < |order| ==> 0 <= order[i] < |keys|
    requires SortedBy(keys, order)
    requires forall i :: 0 <= i < p ==> keys[order[i]] <= keys[k]
    requires forall i :: p <= i < |order| ==> keys[k] < keys[order[i]]
    ensures var inserted := order[..p] + [k] + order[p..];
      (forall i :: 0 <= i < |inserted| ==> 0 <= inserted[i] < |keys|) && SortedBy(keys, inserted)
  {
    var inserted := order[..p] + [k] + order[p..];
    assert inserted[p] == k;
    assert forall i :: 0 <= i < p ==> inserted[i] == order[i];
    assert forall i :: p < i < |inserted| ==> inserted[i] == order[i - 1];
  }

  /**
   * np.argsort: the indices of `keys` in an order of non-decreasing key.
   * The order among equal keys is not specified (the source's sort is not
   * stable), so the contract says nothing about it.
   */
  method ArgSort(keys: seq<real>) returns (order: seq<int>)
    ensures IsPermutation(order, |keys|)
    ensures SortedBy(keys, order)
  {
    order := [];
    for k := 0 to |keys|
      invariant IsPermutation(order, k)
      invariant SortedBy(keys, order)
    {
      var p := 0;
      while p < |order| && keys[order[p]] <= keys[k]
        invariant 0 <= p <= |order|
        invariant forall i :: 0 <= i < p ==> keys[order[i]] <= keys[k]
      {
        p := p + 1;
      }
      InsertExtendsPermutation(order, k, p);
      InsertKeepsSorted(keys, order, k, p);
      order := order[..p] + [k] + order[p..];
    }
  }

  /** The sort key of every trial, in trial order. */
  function TrialKeys(spikeTimes: seq<seq<real>>): (keys: seq<real>)
    ensures |keys| == |spikeTimes|
    ensures forall j :: 0 <= j < |keys| ==> keys[j] >= 0.0
  {
    seq(|spikeTimes|, j requires 0 <= j < |spikeTimes| => FirstPositiveSpike(spikeTimes[j]))
  }

  /**
   * sort_by_spike_times: the trial indices ordered by latency to each
   * trial's first positive spike (0.0 for a trial with none).
   */
  method SortBySpikeTimes(spikeTimes: seq<seq<real>>) returns (sortedOrder: seq<int>)
    ensures IsPermutation(sortedOrder, |spikeTimes|)
    ensures SortedBy(TrialKeys(spikeTimes), sortedOrder)
  {
    var sortedSpikeTimes: seq<real> := [];
    for i := 0 to |spikeTimes|
      invariant |sortedSpikeTimes| == i
      invariant forall j :: 0 <= j < i ==> sortedSpikeTimes[j] == TrialKeys(spikeTimes)[j]
    {
      var key := FirstPositiveSpike(spikeTimes[i]);
      assert key == TrialKeys(spikeTimes)[i];
      sortedSpikeTimes := sortedSpikeTimes + [key];
    }
    assert sortedSpikeTimes == TrialKeys(spikeTimes);
    sortedOrder := ArgSort(sortedSpikeTimes);
  }

  // ---------------------------------------------------------------------
  // remove_spike_times_after_event

  /** The spikes of a trial strictly before the event, in their original order. */
  function SpikesBefore(trial: seq<real>, eventS: real): (kept: seq<real>)
    ensures |kept| <= |trial|
    ensures forall x :: x in kept <==> x in trial && x < eventS
  {
    if trial == [] then []
    else (if trial[0] < eventS then [trial[0]] else []) + SpikesBefore(trial[1..], eventS)
  }

  /**
   * Removal commutes with concatenation: every spike before the event is
   * kept, repeats included, in the order it has in the trial.
   */
  lemma {:induction false} SpikesBeforeKeepsOrder(a: seq<real>, b: seq<real>, eventS: real)
    ensures SpikesBefore(a + b, eventS) == SpikesBefore(a, eventS) + SpikesBefore(b, eventS)
  {
    if a != [] {
      assert (a + b)[1..] == a[1..] + b;
      SpikesBeforeKeepsOrder(a[1..], b, eventS);
    } else {
      assert a + b == b;
    }
  }

  /** On a sorted trial, removing the spikes at or after the event truncates it. */
  lemma {:induction false} SpikesBeforeSortedIsPrefix(trial: seq<real>, eventS: real)
    requires NonDecreasing(trial)
    ensures var kept := SpikesBefore(trial, eventS); kept == trial[..|kept|]
  {
    if trial != [] {
      SpikesBeforeSortedIsPrefix(trial[1..], eventS);
      if trial[0] >= eventS {
        assert forall x :: x in trial[1..] ==> x >= eventS;
        assert SpikesBefore(trial[1..], eventS) == [] by {
          var rest := SpikesBefore(trial[1..], eventS);
          assert forall i :: 0 <= i < |rest| ==> rest[i] in rest;
        }
      }
    }
  }

  /**
   * Removing at a later event and then at an earlier one is removing at the
   * earlier one; in particular the removal is idempotent.
   */
  lemma {:induction false} SpikesBeforeNested(trial: seq<real>, earlier: real, later: real)
    requires earlier <= later
    ensures SpikesBefore(SpikesBefore(trial, later), earlier) == SpikesBefore(trial, earlier)
  {
    if trial != [] {
      SpikesBeforeNested(trial[1..], earlier, later);
      var rest := SpikesBefore(trial[1..], later);
      if trial[0] < later {
        var outer := [trial[0]] + rest;
        assert SpikesBefore(trial, later) == outer;
        assert outer[0] == trial[0] && outer[1..] == rest;
        assert SpikesBefore(outer, earlier)
            == (if trial[0] < earlier then [trial[0]] else []) + SpikesBefore(rest, earlier);
      } else {
        assert SpikesBefore(trial, later) == rest;
      }
    }
  }

  /** The length check of remove_spike_times_after_event. */
  datatype SpikeTimesError = MismatchedTrialCount

  /**
   * remove_spike_times_after_event: when there are as many event times as
   * trials, trial i keeps exactly its spikes before event i, in order; the
   * caller's trials are copied, never changed.  Otherwise it fails.
   */
  method RemoveSpikeTimesAfterEvent(spiketimesS: seq<seq<real>>, eventS: seq<real>)
    returns (r: Result<seq<seq<real>>, SpikeTimesError>)
    ensures r.Failure? <==> |spiketimesS| != |eventS|
    ensures r.Success? ==> |r.value| == |spiketimesS|
    ensures r.Success? ==>
      forall i :: 0 <= i < |spiketimesS| ==> r.value[i] == SpikesBefore(spiketimesS[i], eventS[i])
  {
    if |spiketimesS| != |eventS| {
      return Failure(MismatchedTrialCount);
    }
    var spiketimesSCopy := new seq<real>[|spiketimesS|](i requires 0 <= i < |spiketimesS| => spiketimesS[i]);
    for i := 0 to spiketimesSCopy.Length
      invariant forall j :: 0 <= j < i ==> spiketimesSCopy[j] == SpikesBefore(spiketimesS[j], eventS[j])
      invariant forall j :: i <= j < spiketimesSCopy.Length ==> spiketimesSCopy[j] == spiketimesS[j]
    {
      spiketimesSCopy[i] := SpikesBefore(spiketimesSCopy[i], eventS[i]);
    }
    return Success(spiketimesSCopy[..]);
  }
}
