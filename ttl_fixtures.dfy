/**
 * The TTL test helpers (generate_digital_inputs_with_transitions and
 * generate_alternating_transitions), each as the imperative method the test
 * file runs and the function it is proved against, and the assertions of
 * the TTL tests as lemmas about the edge, pairing and nearest-index model.
 */
module TtlFixtures {
  import opened Wrappers
  import opened Ttls
  import opened TtlEvents
  import opened Sequences

  const LowToHigh: string := "low_to_high"
  const HighToLow: string := "high_to_low"

  /** An (index, transition_type) pair; any other type string is ignored by the generator. */
  datatype Transition = Transition(index: int, kind: string)

  /** The first index of the Python slice `a[index:]` of a sequence of the given length. */
  function SliceStart(index: int, length: nat): (start: nat)
    ensures start <= length
  {
    if index < 0 then (if length + index < 0 then 0 else length + index)
    else if index > length then length
    else index
  }

  /** Transition t rewrites sample i: its type is recognised and its slice reaches i. */
  predicate Overwrites(t: Transition, i: int, length: nat)
  {
    (t.kind == LowToHigh || t.kind == HighToLow) && SliceStart(t.index, length) <= i
  }

  /**
   * One pass of the generator's loop: `digital_inputs[index:] = 1` or `= 0`.
   * Exactly the samples the transition overwrites change, to the level its
   * type names; the rest keep their value.
   */
  function Apply(samples: seq<Word>, t: Transition): (updated: seq<Word>)
    ensures |updated| == |samples|
    ensures forall i :: 0 <= i < |samples| ==>
      updated[i] == if Overwrites(t, i, |samples|) then (if t.kind == LowToHigh then 1 else 0) else samples[i]
  {
    var start := SliceStart(t.index, |samples|);
    if t.kind == LowToHigh then
      seq(|samples|, i requires 0 <= i < |samples| => if i >= start then 1 else samples[i])
    else if t.kind == HighToLow then
      seq(|samples|, i requires 0 <= i < |samples| => if i >= start then 0 else samples[i])
    else samples
  }

  /** The array the generator returns, as a function of its arguments. */
  function DigitalInputsWithTransitions(length: nat, transitions: seq<Transition>): (samples: seq<Word>)
    ensures |samples| == length
    ensures forall i :: 0 <= i < length ==> samples[i] == 0 || samples[i] == 1
    ensures transitions == [] ==> forall i :: 0 <= i < length ==> samples[i] == 0
  {
    if transitions == [] then seq(length, i => 0)
    else
      Apply(DigitalInputsWithTransitions(length, transitions[..|transitions| - 1]), transitions[|transitions| - 1])
  }

  /** Transition k is the last one that rewrites sample i. */
  predicate LastToOverwrite(transitions: seq<Transition>, k: int, i: int, length: nat)
  {
    && 0 <= k < |transitions|
    && Overwrites(transitions[k], i, length)
    && forall k' :: k < k' < |transitions| ==> !Overwrites(transitions[k'], i, length)
  }

  /**
   * Sample i is high exactly when the last transition that reaches it is
   * low-to-high: later transitions overwrite earlier ones from their index
   * to the end, and a sample no transition reaches stays 0.
   */
  lemma {:induction false} SampleIsSetByLastTransition(length: nat, transitions: seq<Transition>, i: int)
    requires 0 <= i < length
    ensures DigitalInputsWithTransitions(length, transitions)[i] == 1 <==>
      exists k :: LastToOverwrite(transitions, k, i, length) && transitions[k].kind == LowToHigh
  {
    if transitions == [] {
    } else {
      var m := |transitions| - 1;
      var front := transitions[..m];
      var last := transitions[m];
      SampleIsSetByLastTransition(length, front, i);
      if Overwrites(last, i, length) {
        assert LastToOverwrite(transitions, m, i, length);
        forall k | LastToOverwrite(transitions, k, i, length)
          ensures k == m
        {
        }
      } else {
        forall k
          ensures LastToOverwrite(transitions, k, i, length) <==> LastToOverwrite(front, k, i, length)
        {
          if 0 <= k < m {
            assert transitions[k] == front[k];
            assert forall k' :: k < k' < m ==> transitions[k'] == front[k'];
          }
        }
        if DigitalInputsWithTransitions(length, transitions)[i] == 1 {
          var k :| LastToOverwrite(front, k, i, length) && front[k].kind == LowToHigh;
          assert transitions[k] == front[k];
        }
        if exists k :: LastToOverwrite(transitions, k, i, length) && transitions[k].kind == LowToHigh {
          var k :| LastToOverwrite(transitions, k, i, length) && transitions[k].kind == LowToHigh;
          assert front[k] == transitions[k];
        }
      }
    }
  }

  /** generate_digital_inputs_with_transitions: a zero array whose suffixes are overwritten in turn. */
  method GenerateDigitalInputsWithTransitions(length: nat, transitions: seq<Transition>)
    returns (digitalInputs: array<Word>)
    ensures fresh(digitalInputs)
    ensures digitalInputs[..] == DigitalInputsWithTransitions(length, transitions)
  {
    digitalInputs := new Word[length](i => 0);
    assert digitalInputs[..] == DigitalInputsWithTransitions(length, transitions[..0]);
    for k := 0 to |transitions|
      invariant digitalInputs[..] == DigitalInputsWithTransitions(length, transitions[..k])
    {
      var t := transitions[k];
      var start := SliceStart(t.index, length);
      if t.kind == LowToHigh {
        forall i | start <= i < length {
          digitalInputs[i] := 1;
        }
      } else if t.kind == HighToLow {
        forall i | start <= i < length {
          digitalInputs[i] := 0;
        }
      }
      assert transitions[..k + 1][..k] == transitions[..k];
    }
    assert transitions[..|transitions|] == transitions;
  }

  /** The transition type that follows `kind` in generate_alternating_transitions. */
  function Toggle(kind: string): string
  {
    if kind == LowToHigh then HighToLow else LowToHigh
  }

  /** The transitions the generator's loop appends from tick i on, starting with type `kind`. */
  function AlternatingFrom(length: nat, step: nat, i: nat, kind: string): (transitions: seq<Transition>)
    requires step > 0
    ensures |transitions| == if i >= length then 0 else (length - i + step - 1) / step
    decreases length - i
  {
    if i >= length then []
    else
      var rest := AlternatingFrom(length, step, i + step, Toggle(kind));
      ShiftQuotient(length - i - 1, step);
      [Transition(i, kind)] + rest
  }

  /** Adding the divisor once adds one to the quotient; below the divisor the quotient is 0. */
  lemma ShiftQuotient(a: nat, step: nat)
    requires step > 0
    ensures (a + step) / step == a / step + 1
    ensures a < step ==> a / step == 0
  {
    DivUnique(a + step, step, a / step + 1, a % step);
    if a < step {
      DivUnique(a, step, 0, a);
    }
  }

  /**
   * The list generate_alternating_transitions returns for a positive step:
   * as many transitions as `range(0, length, step)` has elements, the first
   * one a low-to-high transition at index 0.
   */
  function AlternatingTransitions(length: nat, step: nat): (transitions: seq<Transition>)
    requires step > 0
    ensures |transitions| == (length + step - 1) / step
    ensures |transitions| > 0 ==> transitions[0] == Transition(0, LowToHigh)
  {
    if length == 0 then
      ShiftQuotient(step - 1, step);
      AlternatingFrom(length, step, 0, LowToHigh)
    else
      AlternatingFrom(length, step, 0, LowToHigh)
  }

  /** The j-th transition from tick i is at i + j*step, and the list stops once the next tick reaches `length`. */
  lemma {:induction false} AlternatingFromIndices(length: nat, step: nat, i: nat, kind: string)
    requires step > 0
    ensures var r := AlternatingFrom(length, step, i, kind);
      && (forall j :: 0 <= j < |r| ==> r[j].index == i + j * step && r[j].index < length)
      && i + |r| * step >= length
    decreases length - i
  {
    if i < length {
      var rest := AlternatingFrom(length, step, i + step, Toggle(kind));
      AlternatingFromIndices(length, step, i + step, Toggle(kind));
      var r := AlternatingFrom(length, step, i, kind);
      assert r == [Transition(i, kind)] + rest;
      forall j | 1 <= j < |r|
        ensures r[j].index == i + j * step
      {
        assert r[j] == rest[j - 1];
        StepMultiple(j, step);
      }
      StepMultiple(|r|, step);
    }
  }

  /** The types alternate, starting from `kind`. */
  lemma {:induction false} AlternatingFromKinds(length: nat, step: nat, i: nat, kind: string)
    requires step > 0 && (kind == LowToHigh || kind == HighToLow)
    ensures forall j :: 0 <= j < |AlternatingFrom(length, step, i, kind)| ==>
      AlternatingFrom(length, step, i, kind)[j].kind == if j % 2 == 0 then kind else Toggle(kind)
    decreases length - i
  {
    if i < length {
      var rest := AlternatingFrom(length, step, i + step, Toggle(kind));
      assert LowToHigh[0] != HighToLow[0];
      assert Toggle(Toggle(kind)) == kind;
      AlternatingFromKinds(length, step, i + step, Toggle(kind));
      var r := AlternatingFrom(length, step, i, kind);
      assert r == [Transition(i, kind)] + rest;
      forall j | 1 <= j < |r|
        ensures r[j].kind == if j % 2 == 0 then kind else Toggle(kind)
      {
        assert r[j] == rest[j - 1];
        if j % 2 == 0 {
          assert (j - 1) % 2 == 1;
          assert rest[j - 1].kind == Toggle(Toggle(kind));
        } else {
          assert (j - 1) % 2 == 0;
          assert rest[j - 1].kind == Toggle(kind);
        }
      }
    }
  }

  /**
   * The j-th transition from tick i is at i + j*step, below `length`, with a
   * type that alternates starting from `kind`; and no multiple of the step
   * below `length` is skipped.
   */
  lemma AlternatingFromShape(length: nat, step: nat, i: nat, kind: string)
    requires step > 0 && (kind == LowToHigh || kind == HighToLow)
    ensures var r := AlternatingFrom(length, step, i, kind);
      && (forall j :: 0 <= j < |r| ==> r[j].index == i + j * step && r[j].index < length)
      && (forall j :: 0 <= j < |r| ==> r[j].kind == if j % 2 == 0 then kind else Toggle(kind))
      && i + |r| * step >= length
  {
    AlternatingFromIndices(length, step, i, kind);
    AlternatingFromKinds(length, step, i, kind);
  }

  lemma StepMultiple(j: int, step: int)
    ensures (j - 1) * step + step == j * step
  {
  }

  /** The error `range` raises for a zero step. */
  datatype RangeError = ZeroStep

  /**
   * generate_alternating_transitions: `for i in range(0, length, step)`
   * appends (i, type) and toggles the type.  A zero step is the error
   * `range` raises; a negative step gives an empty range.
   */
  method GenerateAlternatingTransitions(length: nat, step: int) returns (r: Result<seq<Transition>, RangeError>)
    ensures r.Failure? <==> step == 0
    ensures step < 0 ==> r == Success([])
    ensures step > 0 ==> r == Success(AlternatingTransitions(length, step))
  {
    if step == 0 {
      return Failure(ZeroStep);
    }
    var transitions: seq<Transition> := [];
    if step < 0 {
      return Success(transitions);
    }
    var transitionType := LowToHigh;
    var i: nat := 0;
    while i < length
      invariant transitions + AlternatingFrom(length, step, i, transitionType) == AlternatingTransitions(length, step)
      decreases length - i
    {
      transitions := transitions + [Transition(i, transitionType)];
      transitionType := if transitionType == LowToHigh then HighToLow else LowToHigh;
      i := i + step;
    }
    assert AlternatingFrom(length, step, i, transitionType) == [];
    assert transitions + [] == transitions;
    return Success(transitions);
  }

  /** On words that are 0 or 1, channel 0 is the word itself. */
  lemma ChannelZeroOfBinaryWords(words: seq<Word>)
    requires forall i :: 0 <= i < |words| ==> words[i] == 0 || words[i] == 1
    ensures FindHighTtlsAtSingleChannel(words, 0) == words
  {
    var levels := FindHighTtlsAtSingleChannel(words, 0);
    assert Pow2(0) == 1;
    assert forall i :: 0 <= i < |words| ==> levels[i] == words[i];
  }

  /** Clamp(m, lo, hi) counts the ticks of [lo, hi) below m. */
  function Clamp(m: int, lo: int, hi: int): int
  {
    if m <= lo then 0 else if m >= hi then hi - lo else m - lo
  }

  // ---------------------------------------------------------------------
  // The laser fixture: 100 ticks, rising at 10 and 30, falling at 20 and 40.

  function LaserTransitions(): seq<Transition>
  {
    [Transition(10, LowToHigh), Transition(20, HighToLow), Transition(30, LowToHigh), Transition(40, HighToLow)]
  }

  function LaserInputs(): seq<Word>
  {
    DigitalInputsWithTransitions(100, LaserTransitions())
  }

  lemma LaserInputsShape()
    ensures |LaserInputs()| == 100
    ensures forall i :: 0 <= i < 100 ==> LaserInputs()[i] == if 10 <= i < 20 || 30 <= i < 40 then 1 else 0
  {
    var ts := LaserTransitions();
    assert ts[..3][..2][..1][..0] == [];
    assert ts[..3][..2][..1] == [ts[0]] && ts[..3][..2] == [ts[0], ts[1]] && ts[..3] == [ts[0], ts[1], ts[2]];
    var s1 := DigitalInputsWithTransitions(100, [ts[0]]);
    var s2 := DigitalInputsWithTransitions(100, [ts[0], ts[1]]);
    var s3 := DigitalInputsWithTransitions(100, [ts[0], ts[1], ts[2]]);
    assert forall i :: 0 <= i < 100 ==> s1[i] == if i >= 10 then 1 else 0;
    assert forall i :: 0 <= i < 100 ==> s2[i] == if 10 <= i < 20 then 1 else 0;
    assert forall i :: 0 <= i < 100 ==> s3[i] == if 10 <= i < 20 || i >= 30 then 1 else 0;
  }

  lemma {:induction false} LaserHighCount(m: nat)
    requires m <= 100
    ensures CountLevel(LaserInputs()[..m], 1) == Clamp(m, 10, 20) + Clamp(m, 30, 40)
  {
    if m > 0 {
      LaserHighCount(m - 1);
      LaserInputsShape();
      assert LaserInputs()[..m][..m - 1] == LaserInputs()[..m - 1];
    }
  }

  /** test_get_low_to_high_transition_timestamps and test_get_high_to_low_transition_timestamps. */
  lemma LaserEdges()
    ensures LowToHighTransitionTimestamps(LaserInputs()) == [10, 30]
    ensures HighToLowTransitionTimestamps(LaserInputs()) == [20, 40]
  {
    LaserInputsShape();
    var l := LaserInputs();
    var rising, falling := LowToHighTransitionTimestamps(l), HighToLowTransitionTimestamps(l);
    forall t
      ensures t in rising <==> t in [10, 30]
      ensures t in falling <==> t in [20, 40]
    {
      if 1 <= t < 100 {
        assert l[t] == (if 10 <= t < 20 || 30 <= t < 40 then 1 else 0);
        assert l[t - 1] == (if 10 <= t - 1 < 20 || 30 <= t - 1 < 40 then 1 else 0);
      }
    }
    IncreasingDeterminedByElements(rising, [10, 30]);
    IncreasingDeterminedByElements(falling, [20, 40]);
  }

  /**
   * test_get_ttl_timestamps_16bit: the laser channel is high on 20 of 100
   * ticks, so its events are low-to-high, with onsets [10, 30] and offsets
   * [20, 40], equally many and each onset before its offset.
   */
  lemma LaserTimestamps()
    ensures GetTtlTimestamps16bit(LaserInputs(), 0, None) == ([10, 30], [20, 40])
  {
    var l := LaserInputs();
    LaserInputsShape();
    ChannelZeroOfBinaryWords(l);
    LaserHighCount(100);
    assert l[..100] == l;
    CountLevelsCoverSignal(l);
    assert IsTransitionLowToHigh(l);
    LaserEdges();
  }

  // ---------------------------------------------------------------------
  // The camera fixture: 102 ticks, a transition every 2 ticks starting
  // low-to-high at tick 0.

  function CameraInputs(): seq<Word>
  {
    DigitalInputsWithTransitions(102, AlternatingTransitions(102, 2))
  }

  lemma CameraTransitionsShape()
    ensures var ts := AlternatingTransitions(102, 2);
      |ts| == 51 && forall j :: 0 <= j < 51 ==> ts[j] == Transition(2 * j, if j % 2 == 0 then LowToHigh else HighToLow)
  {
    var ts := AlternatingTransitions(102, 2);
    AlternatingFromShape(102, 2, 0, LowToHigh);
    if |ts| > 0 {
      assert ts[|ts| - 1].index == 2 * (|ts| - 1);
    }
    assert Toggle(LowToHigh) == HighToLow;
  }

  /** Camera transition j rewrites exactly the samples from tick 2j on. */
  lemma CameraTransitionReach(j: int, i: int)
    requires 0 <= j < 51
    ensures var ts := AlternatingTransitions(102, 2);
      j < |ts| && (Overwrites(ts[j], i, 102) <==> 2 * j <= i)
  {
    CameraTransitionsShape();
    assert LowToHigh[0] != HighToLow[0];
  }

  /** The camera channel is high on ticks 0-1, 4-5, 8-9, ..., 100-101. */
  lemma CameraInputsShape()
    ensures |CameraInputs()| == 102
    ensures forall i :: 0 <= i < 102 ==> CameraInputs()[i] == if (i / 2) % 2 == 0 then 1 else 0
  {
    var ts := AlternatingTransitions(102, 2);
    CameraTransitionsShape();
    forall i | 0 <= i < 102
      ensures CameraInputs()[i] == if (i / 2) % 2 == 0 then 1 else 0
    {
      SampleIsSetByLastTransition(102, ts, i);
      var k := i / 2;
      CameraTransitionReach(k, i);
      forall k' | k < k' < 51
        ensures !Overwrites(ts[k'], i, 102)
      {
        CameraTransitionReach(k', i);
      }
      assert LastToOverwrite(ts, k, i, 102);
      forall k' | LastToOverwrite(ts, k', i, 102)
        ensures k' == k
      {
        CameraTransitionReach(k', i);
      }
      assert ts[k].kind == LowToHigh <==> k % 2 == 0;
    }
  }

  /**
   * Arithmetic of the period-4 camera pattern: a tick is in the high half of
   * its period exactly when its remainder mod 4 is below 2, and one more
   * tick adds one high tick exactly in the high half.
   */
  lemma CameraPhase(n: nat)
    ensures (n / 2) % 2 == 0 <==> n % 4 < 2
    ensures ((n + 1) / 2) % 2 == 0 <==> (n + 1) % 4 < 2
    ensures (n + 1) % 4 == if n % 4 == 3 then 0 else n % 4 + 1
    ensures 2 * ((n + 1) / 4) + (if (n + 1) % 4 < 2 then (n + 1) % 4 else 2)
         == 2 * (n / 4) + (if n % 4 < 2 then n % 4 else 2) + (if n % 4 < 2 then 1 else 0)
  {
    var q, r := n / 4, n % 4;
    assert n == 4 * q + r && 0 <= r < 4;
    assert n / 2 == 2 * q + r / 2;
    if r < 3 {
      assert (n + 1) / 4 == q && (n + 1) % 4 == r + 1;
      assert (n + 1) / 2 == 2 * q + (r + 1) / 2;
    } else {
      assert (n + 1) / 4 == q + 1 && (n + 1) % 4 == 0;
      assert (n + 1) / 2 == 2 * q + 2;
    }
  }

  lemma {:induction false} CameraHighCount(m: nat)
    requires m <= 102
    ensures CountLevel(CameraInputs()[..m], 1) == 2 * (m / 4) + (if m % 4 < 2 then m % 4 else 2)
  {
    if m > 0 {
      CameraHighCount(m - 1);
      CameraInputsShape();
      CameraPhase(m - 1);
      var prefix := CameraInputs()[..m];
      assert prefix[..m - 1] == CameraInputs()[..m - 1];
      assert prefix[m - 1] == if (m - 1) % 4 < 2 then 1 else 0;
    }
  }

  /** Camera onsets: the ticks 2, 6, 10, ..., 98 where it falls. */
  function CameraOnsets(): seq<int>
  {
    seq(25, k => 4 * k + 2)
  }

  /** Camera offsets: the ticks 4, 8, ..., 100 where it rises again. */
  function CameraOffsets(): seq<int>
  {
    seq(25, k => 4 * k + 4)
  }

  /** The camera channel falls at ticks 4q+2 and rises at ticks 4q+4. */
  lemma CameraEdgeAt(t: int)
    ensures FallsAt(CameraInputs(), t) <==> 1 <= t < 102 && t % 4 == 2
    ensures RisesAt(CameraInputs(), t) <==> 1 <= t < 102 && t % 4 == 0
  {
    var l := CameraInputs();
    CameraInputsShape();
    if 1 <= t < 102 {
      CameraPhase(t - 1);
      assert l[t] == (if t % 4 < 2 then 1 else 0);
      assert l[t - 1] == (if (t - 1) % 4 < 2 then 1 else 0);
    }
  }

  lemma CameraOnsetMembers(t: int)
    ensures t in CameraOnsets() <==> 1 <= t < 102 && t % 4 == 2
  {
    var onsets := CameraOnsets();
    if t in onsets {
      var k :| 0 <= k < 25 && onsets[k] == t;
    }
    if 1 <= t < 102 && t % 4 == 2 {
      assert onsets[t / 4] == t;
    }
  }

  lemma CameraOffsetMembers(t: int)
    ensures t in CameraOffsets() <==> 1 <= t < 102 && t % 4 == 0
  {
    var offsets := CameraOffsets();
    if t in offsets {
      var k :| 0 <= k < 25 && offsets[k] == t;
    }
    if 1 <= t < 102 && t % 4 == 0 {
      assert offsets[t / 4 - 1] == t;
    }
  }

  lemma CameraEdges()
    ensures HighToLowTransitionTimestamps(CameraInputs()) == CameraOnsets()
    ensures LowToHighTransitionTimestamps(CameraInputs()) == CameraOffsets()
  {
    var l := CameraInputs();
    var rising, falling := LowToHighTransitionTimestamps(l), HighToLowTransitionTimestamps(l);
    forall t
      ensures t in falling <==> t in CameraOnsets()
      ensures t in rising <==> t in CameraOffsets()
    {
      CameraEdgeAt(t);
      CameraOnsetMembers(t);
      CameraOffsetMembers(t);
    }
    IncreasingDeterminedByElements(falling, CameraOnsets());
    IncreasingDeterminedByElements(rising, CameraOffsets());
  }

  /**
   * The camera channel is high on 52 of 102 ticks, so high is its rest level
   * and its events are high-to-low: onsets are its falling edges.
   */
  lemma CameraTimestamps()
    ensures GetTtlTimestamps16bit(CameraInputs(), 0, None) == (CameraOnsets(), CameraOffsets())
  {
    var l := CameraInputs();
    CameraInputsShape();
    ChannelZeroOfBinaryWords(l);
    CameraHighCount(102);
    assert l[..102] == l;
    CountLevelsCoverSignal(l);
    assert !IsTransitionLowToHigh(l);
    CameraEdges();
  }

  // ---------------------------------------------------------------------
  // test_find_index_of_ttl_event_from_another

  /** Nearest camera onsets of single ticks: exact hits, and the earlier of two ties. */
  lemma NearestCameraFrames()
    ensures NearestIndex(CameraOnsets(), 10) == 2
    ensures NearestIndex(CameraOnsets(), 30) == 7
    ensures NearestIndex(CameraOnsets(), 20) == 4
    ensures NearestIndex(CameraOnsets(), 40) == 9
  {
    var ref := CameraOnsets();
    var a := NearestIndex(ref, 10);
    assert Distance(ref[a], 10) <= Distance(ref[2], 10);
    var b := NearestIndex(ref, 30);
    assert Distance(ref[b], 30) <= Distance(ref[7], 30);
    var c := NearestIndex(ref, 20);
    assert Distance(ref[c], 20) <= Distance(ref[4], 20);
    var d := NearestIndex(ref, 40);
    assert Distance(ref[d], 40) <= Distance(ref[9], 40);
  }

  /**
   * Laser onsets map to camera frames [2, 7] and laser offsets to [4, 9]:
   * one frame per laser event, in event order, each the nearest camera onset
   * (offsets 20 and 40 lie midway between two onsets and take the earlier).
   */
  lemma LaserFramesOnCameraClock()
    ensures var cameraOnsets := GetTtlTimestamps16bit(CameraInputs(), 0, None).0;
            var laser := GetTtlTimestamps16bit(LaserInputs(), 0, None);
            FindIndexOfTtlEventFromAnother(cameraOnsets, laser.0) == Some([2, 7]) &&
            FindIndexOfTtlEventFromAnother(cameraOnsets, laser.1) == Some([4, 9])
  {
    CameraTimestamps();
    LaserTimestamps();
    CameraFramesOfLaserEvents();
  }

  lemma CameraFramesOfLaserEvents()
    ensures FindIndexOfTtlEventFromAnother(CameraOnsets(), [10, 30]) == Some([2, 7])
    ensures FindIndexOfTtlEventFromAnother(CameraOnsets(), [20, 40]) == Some([4, 9])
  {
    NearestCameraFrames();
    var ref := CameraOnsets();
    var on, off := FindIndexOfTtlEventFromAnother(ref, [10, 30]), FindIndexOfTtlEventFromAnother(ref, [20, 40]);
    assert on.value[0] == 2 && on.value[1] == 7;
    assert off.value[0] == 4 && off.value[1] == 9;
    assert on.value == [2, 7];
    assert off.value == [4, 9];
  }
}
