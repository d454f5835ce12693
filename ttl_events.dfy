/**
 * Edge detection, polarity, onset/offset pairing and cross-stream
 * nearest-index mapping for one TTL channel.  The TTL module defines only
 * the channel extraction; these operations, which the TTL tests import
 * from it, are not in that file, so what is modelled here is what the
 * tests pin down: an edge is reported at the first tick in the new level
 * (`np.where(np.diff(levels) > 0)[0] + 1`), onsets and offsets are the two
 * edge lists in the role chosen by the polarity, and a query maps to the
 * first reference tick of least absolute distance (an argmin).  The repair
 * of recordings that start or end mid-pulse is not modelled.
 */
module TtlEvents {
  import opened Wrappers
  import opened Ttls
  import opened Sequences

  /** Every sample is a logic level, 0 or 1. */
  predicate IsLevels(levels: seq<int>)
  {
    forall i :: 0 <= i < |levels| ==> levels[i] == 0 || levels[i] == 1
  }

  /** The first difference is positive just before tick t. */
  predicate RisesAt(levels: seq<int>, t: int)
  {
    1 <= t < |levels| && levels[t] - levels[t - 1] > 0
  }

  /** The first difference is negative just before tick t. */
  predicate FallsAt(levels: seq<int>, t: int)
  {
    1 <= t < |levels| && levels[t] - levels[t - 1] < 0
  }

  /** Ticks t with levels[t] - levels[t-1] > 0: the first tick of each high phase. */
  function LowToHighTransitionTimestamps(levels: seq<int>): (ticks: seq<int>)
    ensures StrictlyIncreasing(ticks)
    ensures forall k :: 0 <= k < |ticks| ==> 1 <= ticks[k] < |levels|
    ensures forall t :: t in ticks <==> RisesAt(levels, t)
    decreases |levels|
  {
    if |levels| < 2 then []
    else
      var n := |levels| - 1;
      LowToHighTransitionTimestamps(levels[..n]) + (if levels[n] - levels[n - 1] > 0 then [n] else [])
  }

  /** Ticks t with levels[t] - levels[t-1] < 0: the first tick of each low phase. */
  function HighToLowTransitionTimestamps(levels: seq<int>): (ticks: seq<int>)
    ensures StrictlyIncreasing(ticks)
    ensures forall k :: 0 <= k < |ticks| ==> 1 <= ticks[k] < |levels|
    ensures forall t :: t in ticks <==> FallsAt(levels, t)
    decreases |levels|
  {
    if |levels| < 2 then []
    else
      var n := |levels| - 1;
      HighToLowTransitionTimestamps(levels[..n]) + (if levels[n] - levels[n - 1] < 0 then [n] else [])
  }

  /** On a 0/1 signal a rising edge is a 0 followed by a 1, a falling edge a 1 followed by a 0. */
  lemma EdgesOfLevels(levels: seq<int>)
    requires IsLevels(levels)
    ensures forall t :: t in LowToHighTransitionTimestamps(levels) <==> 1 <= t < |levels| && levels[t - 1] == 0 && levels[t] == 1
    ensures forall t :: t in HighToLowTransitionTimestamps(levels) <==> 1 <= t < |levels| && levels[t - 1] == 1 && levels[t] == 0
  {
    var rising, falling := LowToHighTransitionTimestamps(levels), HighToLowTransitionTimestamps(levels);
    forall t
      ensures t in rising <==> 1 <= t < |levels| && levels[t - 1] == 0 && levels[t] == 1
      ensures t in falling <==> 1 <= t < |levels| && levels[t - 1] == 1 && levels[t] == 0
    {
      if 1 <= t < |levels| {
        assert levels[t - 1] == 0 || levels[t - 1] == 1;
        assert levels[t] == 0 || levels[t] == 1;
      }
    }
  }

  /** The number of ticks at level v; none exactly when the signal never takes it. */
  function CountLevel(levels: seq<int>, v: int): (k: nat)
    ensures k <= |levels|
    ensures k == 0 <==> v !in levels
  {
    if levels == [] then 0
    else
      assert levels == levels[..|levels| - 1] + [levels[|levels| - 1]];
      CountLevel(levels[..|levels| - 1], v) + (if levels[|levels| - 1] == v then 1 else 0)
  }

  /** On a 0/1 signal every tick is counted once, as high or as low. */
  lemma {:induction false} CountLevelsCoverSignal(levels: seq<int>)
    requires IsLevels(levels)
    ensures CountLevel(levels, 1) + CountLevel(levels, 0) == |levels|
  {
    if levels != [] {
      CountLevelsCoverSignal(levels[..|levels| - 1]);
    }
  }

  /**
   * The polarity heuristic: when the channel is high on more ticks than it
   * is low, high is taken to be its rest level and events are high-to-low.
   */
  function IsTransitionLowToHigh(levels: seq<int>): (lowToHigh: bool)
    ensures IsLevels(levels) ==> (lowToHigh <==> 2 * CountLevel(levels, 1) <= |levels|)
  {
    if IsLevels(levels) then
      CountLevelsCoverSignal(levels);
      !(CountLevel(levels, 1) > CountLevel(levels, 0))
    else
      !(CountLevel(levels, 1) > CountLevel(levels, 0))
  }

  /**
   * The polarity used: the caller's override, or else the heuristic, which
   * makes the rest level a level the signal holds on at least half its ticks
   * and reads a tie as low-to-high.
   */
  function ResolvedLowToHigh(levels: seq<int>, isTransitionLowToHigh: Option<bool>): (lowToHigh: bool)
    ensures isTransitionLowToHigh.Some? ==> lowToHigh == isTransitionLowToHigh.value
    ensures isTransitionLowToHigh.None? ==> lowToHigh == IsTransitionLowToHigh(levels)
    ensures isTransitionLowToHigh.None? && IsLevels(levels) ==> 2 * CountLevel(levels, RestLevel(lowToHigh)) >= |levels|
    ensures isTransitionLowToHigh.None? && IsLevels(levels) ==> (lowToHigh <==> 2 * CountLevel(levels, 1) <= |levels|)
  {
    if isTransitionLowToHigh.Some? then isTransitionLowToHigh.value
    else if IsLevels(levels) then
      CountLevelsCoverSignal(levels);
      IsTransitionLowToHigh(levels)
    else
      IsTransitionLowToHigh(levels)
  }

  /** The level of the channel between events. */
  function RestLevel(lowToHigh: bool): int
  {
    if lowToHigh then 0 else 1
  }

  /**
   * Onset and offset ticks of the events on channel `ttlIndex`: the edges
   * into the non-rest level are onsets, the edges back into it offsets.
   */
  function GetTtlTimestamps16bit(digitalInputs: seq<Word>, ttlIndex: int, isTransitionLowToHigh: Option<bool>)
    : (events: (seq<int>, seq<int>))
    requires 0 <= ttlIndex <= 15
    ensures StrictlyIncreasing(events.0) && StrictlyIncreasing(events.1)
  {
    var levels := FindHighTtlsAtSingleChannel(digitalInputs, ttlIndex);
    var rising := LowToHighTransitionTimestamps(levels);
    var falling := HighToLowTransitionTimestamps(levels);
    if ResolvedLowToHigh(levels, isTransitionLowToHigh) then (rising, falling) else (falling, rising)
  }

  /**
   * Onsets are exactly the ticks where the channel leaves its rest level,
   * offsets exactly those where it returns to it.
   */
  lemma OnsetsLeaveRestOffsetsReturn(digitalInputs: seq<Word>, ttlIndex: int, isTransitionLowToHigh: Option<bool>)
    requires 0 <= ttlIndex <= 15
    ensures var levels := FindHighTtlsAtSingleChannel(digitalInputs, ttlIndex);
            var rest := RestLevel(ResolvedLowToHigh(levels, isTransitionLowToHigh));
            var events := GetTtlTimestamps16bit(digitalInputs, ttlIndex, isTransitionLowToHigh);
            (forall t :: t in events.0 <==> 1 <= t < |levels| && levels[t - 1] == rest && levels[t] != rest) &&
            (forall t :: t in events.1 <==> 1 <= t < |levels| && levels[t - 1] != rest && levels[t] == rest)
  {
    var levels := FindHighTtlsAtSingleChannel(digitalInputs, ttlIndex);
    EdgesOfLevels(levels);
  }

  /**
   * `a` and `b` interleave, starting with `a`: a[0] < b[0] < a[1] < b[1] ...,
   * and `a` has one extra element exactly when `extra` holds.
   */
  predicate Alternate(a: seq<int>, b: seq<int>, extra: bool)
  {
    && |a| == |b| + (if extra then 1 else 0)
    && (forall k :: 0 <= k < |b| ==> a[k] < b[k])
    && (forall k :: 0 <= k < |b| && k + 1 < |a| ==> b[k] < a[k + 1])
  }

  /** Appending a tick later than all others to the list whose turn it is keeps the interleaving. */
  lemma AlternateExtend(a: seq<int>, b: seq<int>, extra: bool, n: int)
    requires Alternate(a, b, extra)
    requires forall k :: 0 <= k < |a| ==> a[k] < n
    requires forall k :: 0 <= k < |b| ==> b[k] < n
    ensures !extra ==> Alternate(a + [n], b, true)
    ensures extra ==> Alternate(a, b + [n], false)
  {
  }

  /**
   * On a 0/1 signal the edges away from the initial level and the edges back
   * to it alternate, starting with an edge away from it; there is one more of
   * the first kind exactly when the signal ends away from its initial level.
   */
  lemma {:induction false} EdgesAlternate(levels: seq<int>)
    requires IsLevels(levels) && |levels| >= 1
    ensures levels[0] == 0 ==>
      Alternate(LowToHighTransitionTimestamps(levels), HighToLowTransitionTimestamps(levels), levels[|levels| - 1] == 1)
    ensures levels[0] == 1 ==>
      Alternate(HighToLowTransitionTimestamps(levels), LowToHighTransitionTimestamps(levels), levels[|levels| - 1] == 0)
  {
    if |levels| > 1 {
      var n := |levels| - 1;
      var p := levels[..n];
      assert IsLevels(p);
      assert p[0] == levels[0] && p[n - 1] == levels[n - 1];
      EdgesAlternate(p);
      var r, f := LowToHighTransitionTimestamps(p), HighToLowTransitionTimestamps(p);
      var rising, falling := LowToHighTransitionTimestamps(levels), HighToLowTransitionTimestamps(levels);
      if levels[n] == levels[n - 1] {
        assert rising == r && falling == f;
      } else if levels[n] == 1 {
        assert rising == r + [n] && falling == f;
        if levels[0] == 0 {
          AlternateExtend(r, f, false, n);
        } else {
          AlternateExtend(f, r, true, n);
        }
      } else {
        assert rising == r && falling == f + [n];
        if levels[0] == 0 {
          AlternateExtend(r, f, true, n);
        } else {
          AlternateExtend(f, r, false, n);
        }
      }
    }
  }

  /**
   * When the recording starts and ends at the rest level, the onset and
   * offset lists pair up: equally many, and each onset is before its offset
   * and after the previous offset.
   */
  lemma EventsPairUpOnCleanRecording(digitalInputs: seq<Word>, ttlIndex: int, isTransitionLowToHigh: Option<bool>)
    requires 0 <= ttlIndex <= 15 && |digitalInputs| >= 1
    requires var levels := FindHighTtlsAtSingleChannel(digitalInputs, ttlIndex);
             var rest := RestLevel(ResolvedLowToHigh(levels, isTransitionLowToHigh));
             levels[0] == rest && levels[|levels| - 1] == rest
    ensures var (onsets, offsets) := GetTtlTimestamps16bit(digitalInputs, ttlIndex, isTransitionLowToHigh);
            |onsets| == |offsets| &&
            (forall k :: 0 <= k < |onsets| ==> onsets[k] < offsets[k]) &&
            (forall k :: 0 <= k < |onsets| - 1 ==> offsets[k] < onsets[k + 1])
  {
    var levels := FindHighTtlsAtSingleChannel(digitalInputs, ttlIndex);
    EdgesAlternate(levels);
  }

  function Distance(a: int, b: int): nat
  {
    if a >= b then a - b else b - a
  }

  /** k is the first index of a reference tick of least distance from `query`. */
  predicate IsNearestIndex(reference: seq<int>, query: int, k: int)
  {
    && 0 <= k < |reference|
    && (forall j :: 0 <= j < |reference| ==> Distance(reference[k], query) <= Distance(reference[j], query))
    && (forall j :: 0 <= j < k ==> Distance(reference[k], query) < Distance(reference[j], query))
  }

  /** The index of the reference tick nearest to `query`, the first one on a tie (an argmin). */
  function NearestIndex(reference: seq<int>, query: int): (k: nat)
    requires |reference| > 0
    ensures k < |reference|
    ensures forall j :: 0 <= j < |reference| ==> Distance(reference[k], query) <= Distance(reference[j], query)
    ensures forall j :: 0 <= j < k ==> Distance(reference[k], query) < Distance(reference[j], query)
    decreases |reference|
  {
    if |reference| == 1 then 0
    else
      var n := |reference| - 1;
      var best := NearestIndex(reference[..n], query);
      if Distance(reference[n], query) < Distance(reference[best], query) then n else best
  }

  /**
   * For each query tick, in query order, the index of the nearest reference
   * tick; an empty reference has no argmin.
   */
  function FindIndexOfTtlEventFromAnother(reference: seq<int>, queries: seq<int>): (frames: Option<seq<nat>>)
    ensures frames.None? <==> |reference| == 0
    ensures frames.Some? ==> |frames.value| == |queries|
    ensures frames.Some? ==> forall i :: 0 <= i < |queries| ==> IsNearestIndex(reference, queries[i], frames.value[i])
  {
    if |reference| == 0 then None
    else Some(seq(|queries|, i requires 0 <= i < |queries| => NearestIndex(reference, queries[i])))
  }
}
