# Event-aligned spike data, modelled in Dafny

This project models the core of an electrophysiology toolkit. The toolkit turns two kinds of recording into event-aligned spike data:

- packed 16-bit digital TTL recordings;
- spike-sorter exports.

The model is in Dafny, and every contract below is proved by the verifier.

- **TTL channels** (`ttls.dfy`, module `Ttls`). One digital channel is extracted from a stream of 16-bit words with the mask `2**ttl_index`. Each sample becomes a 0/1 level.
- **TTL events** (`ttl_events.dfy`, module `TtlEvents`).
  - Rising and falling edges of a level signal are found. Each edge is reported at the first tick in the new level.
  - A polarity is chosen from the majority level, or from an optional override. It decides which edge list holds the onsets and which the offsets.
  - Event ticks of one stream are mapped onto the nearest tick of another stream, as an argmin.
  - `data_wrangling/ttls.py` defines only `find_high_ttls_at_single_channel`. The other four functions that `tests/data_wrangling/test_ttls.py` imports from it are not in that file, so they are modelled only as far as the test fixtures pin them down.
- **TTL fixtures** (`ttl_fixtures.dfy`, module `TtlFixtures`).
  - The two signal-building helpers of the tests are imperative methods. One overwrites array suffixes in a loop; the other appends transitions while toggling their kind.
  - Each method is proved equal to a specification function.
  - Every assertion of the four TTL tests is a lemma over those functions.
- **Peri-event spikes** (`spike_times.dfy`, module `SpikeTimes`). This covers three operations:
  - windowing the spikes around each event, with strict bounds, into latencies in seconds;
  - ordering trials by their first positive spike, through an argsort proved to be a sorting permutation;
  - removing the spikes at or after a per-trial event, working on a copy, with a length check.
- **Bootstrap rate band** (`spike_rate.dfy`, module `SpikeRate`).
  - Bin centres.
  - Per-trial histograms: half-open bins, with the last bin closed.
  - The resample-and-average loop, which fills a preallocated matrix row by row.
  - Column percentiles.
  - The random resample is an input: one draw of trial indices per iteration. The percentile is a function supplied by the caller.
- **Spike-sorter grouping** (`spikesorter.dfy`, module `SpikeSorter`).
  - Already-parsed export rows lose their two header rows.
  - Each remaining row becomes a truncated tick and a unit label.
  - The ticks are then partitioned per unit, in ascending unit order.
- `sequences.dfy` (module `Sequences`) holds the orderings the event lists, unit ids, bin edges and trials share: strictly increasing integer lists and non-decreasing real lists. `reals.dfy` (module `RealDivision`) holds the monotonicity of division by a positive number. `wrappers.dfy` holds `Option` and `Result`.

Times are Dafny reals throughout; there is no floating-point rounding.

## Model

| member | source | states |
|---|---|---|
| Ttls.BitAndWithMask | data_wrangling/ttls.py:22-23 | ANDing a word with the mask `2**c` keeps exactly bit c: the result is `2**c` times that bit |
| Ttls.MaskTestIsBitTest | data_wrangling/ttls.py:22-23 | for every word, `word & 2**c > 0` holds exactly when bit c of the word is set |
| Ttls.FindHighTtlsAtSingleChannel | data_wrangling/ttls.py:1-25 | one level per sample; every level is 0 or 1; level i is 1 exactly when bit `ttl_index` of word i is set; `ttl_index` is limited to 0-15 as documented |
| Ttls.ChannelLevelIsPerSample | data_wrangling/ttls.py:23 | a level depends only on its own word: equal words give equal levels, and a zero word gives 0 |
| Sequences.IncreasingDeterminedByElements | tests/data_wrangling/test_ttls.py:79-81 | two strictly increasing tick lists with the same elements are equal, which fixes an edge list from its members |
| TtlEvents.LowToHighTransitionTimestamps | tests/data_wrangling/test_ttls.py:62-81 | strictly increasing ticks in 1..len-1; t is listed exactly when the level rises from t-1 to t (the first tick at the new level) |
| TtlEvents.HighToLowTransitionTimestamps | tests/data_wrangling/test_ttls.py:84-103 | strictly increasing ticks in 1..len-1; t is listed exactly when the level falls from t-1 to t |
| TtlEvents.EdgesOfLevels | tests/data_wrangling/test_ttls.py:62-103 | on a 0/1 signal a rising edge at t is exactly 0 at t-1 then 1 at t, and a falling edge is exactly 1 then 0 |
| TtlEvents.CountLevel | tests/data_wrangling/test_ttls.py:137-140 | the number of ticks at a level is at most the length, and 0 exactly when the signal never takes that level |
| TtlEvents.CountLevelsCoverSignal | tests/data_wrangling/test_ttls.py:137-140 | on a 0/1 signal the high count and the low count add up to the length, so the majority rule compares complementary counts |
| TtlEvents.IsTransitionLowToHigh | tests/data_wrangling/test_ttls.py:137-140 | on a 0/1 signal the events are low-to-high exactly when the channel is high on at most half of its ticks |
| TtlEvents.ResolvedLowToHigh | tests/data_wrangling/test_ttls.py:119-140 | a caller's override decides the polarity; without one the majority-level rule decides it: on a 0/1 signal the events are low-to-high exactly when the channel is high on at most half of its ticks (so a tie reads low-to-high), and the rest level is one the channel holds on at least half of its ticks |
| TtlEvents.GetTtlTimestamps16bit | tests/data_wrangling/test_ttls.py:106-130 | both the onset list and the offset list of a channel are strictly increasing |
| TtlEvents.OnsetsLeaveRestOffsetsReturn | tests/data_wrangling/test_ttls.py:106-130 | onsets are exactly the ticks where the channel leaves its rest level, offsets exactly those where it returns; the rest level is the majority level unless the caller overrides the polarity (data_wrangling/intan.py passes the override) |
| TtlEvents.EdgesAlternate | tests/data_wrangling/test_ttls.py:106-130 | rising and falling edges of a 0/1 signal strictly alternate, starting with the edge away from the first level |
| TtlEvents.EventsPairUpOnCleanRecording | tests/data_wrangling/test_ttls.py:106-130 | when the channel starts and ends at its rest level, onsets and offsets have equal length and `onset[k] < offset[k] < onset[k+1]` |
| TtlEvents.NearestIndex | tests/data_wrangling/test_ttls.py:152-171 | the index of a reference tick at the least distance from the query, and the first such index on a tie |
| TtlEvents.FindIndexOfTtlEventFromAnother | tests/data_wrangling/test_ttls.py:152-160 | no result exactly when the reference list is empty; otherwise one index per query, in query order, each a nearest reference tick |
| TtlFixtures.DigitalInputsWithTransitions | tests/data_wrangling/test_ttls.py:27-33 | exactly `length` samples, each 0 or 1, all 0 when there are no transitions |
| TtlFixtures.Apply | tests/data_wrangling/test_ttls.py:29-32 | one pass of the loop: exactly the samples the transition overwrites change, to 1 for `low_to_high` and 0 for `high_to_low`; the others keep their value |
| TtlFixtures.SampleIsSetByLastTransition | tests/data_wrangling/test_ttls.py:28-32 | sample i is 1 exactly when the last transition whose suffix covers i is `low_to_high` |
| TtlFixtures.GenerateDigitalInputsWithTransitions | tests/data_wrangling/test_ttls.py:11-33 | a fresh array whose contents are the specified signal after overwriting suffixes transition by transition |
| TtlFixtures.AlternatingFrom | tests/data_wrangling/test_ttls.py:54-58 | from tick i the list has `ceil((length - i) / step)` transitions, none once i reaches `length` |
| TtlFixtures.AlternatingTransitions | tests/data_wrangling/test_ttls.py:52-59 | as many transitions as `range(0, length, step)` has elements, `ceil(length / step)`; the first is `low_to_high` at index 0 |
| TtlFixtures.AlternatingFromIndices | tests/data_wrangling/test_ttls.py:55-56 | entry j has index `i + j*step`, below `length`; the list stops only once the next index would reach `length` |
| TtlFixtures.AlternatingFromKinds | tests/data_wrangling/test_ttls.py:55-59 | the kinds alternate, entry j having the starting kind when j is even and the other kind when j is odd |
| TtlFixtures.AlternatingFromShape | tests/data_wrangling/test_ttls.py:52-59 | entry j has index `i + j*step`, below `length`; the kinds alternate starting with the given kind; the list stops only once the next index would reach `length` |
| TtlFixtures.GenerateAlternatingTransitions | tests/data_wrangling/test_ttls.py:36-59 | fails exactly for a zero step (`range` refuses it); a negative step gives no transitions; otherwise the alternating list `0, step, 2*step, ...` starting with `low_to_high` |
| TtlFixtures.ChannelZeroOfBinaryWords | tests/data_wrangling/test_ttls.py:115-119 | channel 0 of a signal made of 0/1 words is the signal itself |
| TtlFixtures.LaserInputsShape | tests/data_wrangling/test_ttls.py:64-71 | the 100-tick fixture is high exactly on ticks 10-19 and 30-39 |
| TtlFixtures.LaserHighCount | tests/data_wrangling/test_ttls.py:106-119 | the number of high ticks in each prefix of the 100-tick fixture |
| TtlFixtures.LaserEdges | tests/data_wrangling/test_ttls.py:62-103 | rising edges are `[10, 30]` and falling edges are `[20, 40]` |
| TtlFixtures.LaserTimestamps | tests/data_wrangling/test_ttls.py:106-130 | channel 0 gives onsets `[10, 30]` and offsets `[20, 40]` |
| TtlFixtures.CameraTransitionsShape | tests/data_wrangling/test_ttls.py:137-138 | the camera's alternating transitions for length 102 and step 2 |
| TtlFixtures.CameraTransitionReach | tests/data_wrangling/test_ttls.py:137-138 | the camera's transition j (at tick `2j`) overwrites tick i of the 102-tick signal exactly when `2j <= i` |
| TtlFixtures.CameraInputsShape | tests/data_wrangling/test_ttls.py:137-139 | the 102-tick camera signal is high exactly on ticks i with `(i / 2) % 2 == 0` |
| TtlFixtures.CameraHighCount | tests/data_wrangling/test_ttls.py:137-140 | the number of high ticks in each prefix of the camera signal; on the whole signal it is 52 of 102, so high is the camera's rest level |
| TtlFixtures.CameraEdgeAt | tests/data_wrangling/test_ttls.py:137-140 | the camera falls exactly at ticks `4k+2` and rises exactly at ticks `4k+4` |
| TtlFixtures.CameraOnsetMembers | tests/data_wrangling/test_ttls.py:140 | the listed camera onsets are exactly the ticks `4k+2` below 102 |
| TtlFixtures.CameraOffsetMembers | tests/data_wrangling/test_ttls.py:140 | the listed camera offsets are exactly the ticks `4k+4` below 102 |
| TtlFixtures.CameraEdges | tests/data_wrangling/test_ttls.py:137-140 | the camera's falling edges are `2, 6, ..., 98` and its rising edges are `4, 8, ..., 100` |
| TtlFixtures.CameraTimestamps | tests/data_wrangling/test_ttls.py:140 | with the majority-level polarity, the camera's onsets are its falling edges and its offsets are its rising edges |
| TtlFixtures.NearestCameraFrames | tests/data_wrangling/test_ttls.py:152-171 | laser ticks 10, 30, 20, 40 map to camera frames 2, 7, 4, 9; ties go to the earlier frame |
| TtlFixtures.CameraFramesOfLaserEvents | tests/data_wrangling/test_ttls.py:152-171 | mapping `[10, 30]` and `[20, 40]` onto the camera onsets gives `[2, 7]` and `[4, 9]` |
| TtlFixtures.LaserFramesOnCameraClock | tests/data_wrangling/test_ttls.py:133-171 | the whole test: the laser onsets and offsets, mapped onto the camera onsets, give frames `[2, 7]` and `[4, 9]` |
| SpikeTimes.SpikesBetween | data_wrangling/spike_times.py:33-39 | a tick is kept exactly when it lies strictly between the two bounds; the result is no longer than the input |
| SpikeTimes.SpikesBetweenKeepsOrder | data_wrangling/spike_times.py:33-39 | selection commutes with concatenation, so kept spikes keep their relative order |
| SpikeTimes.RelativeSeconds | data_wrangling/spike_times.py:41-42 | one entry per tick; the source's two divisions `tick / rate - event / rate` give the latency `(tick - event) / rate` of each tick |
| SpikeTimes.SpikesAtEvent | data_wrangling/spike_times.py:29-43 | an event's entry has at most one latency per spike |
| SpikeTimes.SpikesAtEventMeaning | data_wrangling/spike_times.py:29-43 | a latency x is reported for an event exactly when some spike s lies strictly inside `(event - win, event + win)` and `x == (s - event) / rate` |
| SpikeTimes.SpikesAtEventWithinWindow | data_wrangling/spike_times.py:29-43 | with a positive rate every reported latency lies strictly inside `(-win/rate, win/rate)` |
| SpikeTimes.GetSpikesAtEvents | data_wrangling/spike_times.py:5-45 | one entry per event, in event order; entry k is the windowed, rescaled spike list of event k |
| SpikeTimes.PositiveIndices | data_wrangling/spike_times.py:69 | the indices of the positive spikes of a trial, strictly increasing and complete |
| SpikeTimes.FirstPositiveSpike | data_wrangling/spike_times.py:67-73 | the sort key of a trial is never negative |
| SpikeTimes.FirstPositiveSpikeMeaning | data_wrangling/spike_times.py:67-73 | the key is 0.0 exactly when the trial has no positive spike; otherwise it is a spike of the trial and every earlier spike is at most 0 |
| SpikeTimes.InsertExtendsPermutation | data_wrangling/spike_times.py:75 | inserting the next index into a permutation of `0..k-1` gives a permutation of `0..k` |
| SpikeTimes.InsertKeepsSorted | data_wrangling/spike_times.py:75 | inserting an index after every smaller-or-equal key and before every larger key keeps the order sorted |
| SpikeTimes.ArgSort | data_wrangling/spike_times.py:75 | the result lists each index of the keys exactly once, in non-decreasing key order; the order among equal keys is left open |
| SpikeTimes.TrialKeys | data_wrangling/spike_times.py:65-73 | one sort key per trial, in trial order, none negative |
| SpikeTimes.SortBySpikeTimes | data_wrangling/spike_times.py:48-76 | a permutation of the trial indices whose first-positive-spike keys are non-decreasing |
| SpikeTimes.SpikesBefore | data_wrangling/spike_times.py:106 | a spike is kept exactly when it is strictly before the event |
| SpikeTimes.SpikesBeforeKeepsOrder | data_wrangling/spike_times.py:106 | removal commutes with concatenation, so every spike before the event is kept, repeats included, in its original order |
| SpikeTimes.SpikesBeforeSortedIsPrefix | data_wrangling/spike_times.py:106 | on a sorted trial the removal truncates it: the kept spikes are a prefix |
| SpikeTimes.SpikesBeforeNested | data_wrangling/spike_times.py:105-106 | removing at a later event and then at an earlier one equals removing at the earlier one, so the removal is idempotent |
| SpikeTimes.RemoveSpikeTimesAfterEvent | data_wrangling/spike_times.py:79-108 | fails exactly when the trial and event counts differ; otherwise trial i keeps exactly its spikes before event i, in order; the caller's trials are copied and not changed |
| SpikeRate.BinCenters | processing/spike_rate.py:25 | one centre per pair of consecutive edges (none for no edges), each the midpoint of its two edges: as far from the lower edge as from the upper |
| SpikeRate.BinCentersBetweenEdges | processing/spike_rate.py:25 | with non-decreasing edges each centre lies between its own two edges, consecutive centres are half of each of the two neighbouring bin widths apart, and the centres never decrease |
| SpikeRate.EdgeMembership | processing/spike_rate.py:31 | numpy's bins are half-open with the last one closed: an edge lies in the bin it opens when that bin has a positive width or is the last bin, never in the bin it closes, and the last edge lies in the last bin |
| SpikeRate.CountInBin | processing/spike_rate.py:30-32 | a bin count never exceeds the number of spikes in the trial |
| SpikeRate.CountInRange | processing/spike_rate.py:30-32 | the count of spikes inside the binned range never exceeds the trial length |
| SpikeRate.Histogram | processing/spike_rate.py:30-32 | one non-negative count per bin, each at most the trial length |
| SpikeRate.FindBin | processing/spike_rate.py:30-32 | with non-decreasing edges, every value between the first and last edge lies in some bin |
| SpikeRate.BinIsUnique | processing/spike_rate.py:30-32 | with non-decreasing edges, a value lies in at most one bin, and only inside the range |
| SpikeRate.SumOfIndicator | processing/spike_rate.py:30-32 | a single value adds 1 to the histogram total when it is inside the range and 0 otherwise |
| SpikeRate.HistogramCountsEverySpikeOnce | processing/spike_rate.py:30-32 | the counts of a trial's histogram add up to its number of spikes between the first and last edge |
| SpikeRate.ResampledCountBounds | processing/spike_rate.py:35-37 | the column sum of a resample is at least each drawn trial's count, and 0 exactly when every drawn trial has an empty bin |
| SpikeRate.ResampledCountConcat | processing/spike_rate.py:36-37 | the column sum over two concatenated draws is the sum of their column sums |
| SpikeRate.ResampledCountRemove | processing/spike_rate.py:36-37 | taking one index out of a draw takes its histogram out of the column sum |
| SpikeRate.ResampledCountIgnoresOrder | processing/spike_rate.py:35-37 | the column sum depends only on how often each trial is drawn |
| SpikeRate.BootstrapRow | processing/spike_rate.py:36-38 | one entry per bin, each the resampled count divided by the trial count and the bin width; never negative when the bin width is positive |
| SpikeRate.BootstrapRowIgnoresOrder | processing/spike_rate.py:35-38 | two draws that pick each trial equally often give the same row |
| SpikeRate.BootstrapMeans | processing/spike_rate.py:27 | one row per draw, each with one entry per bin |
| SpikeRate.PercentileRanks | processing/spike_rate.py:40-41 | the two ranks add up to 100 and are `ci_percentile` apart; both lie in `[0, 100]` exactly when `-100 <= ci_percentile <= 100`; for `0 <= ci_percentile <= 100` the lower rank comes first |
| SpikeRate.ConfidenceBounds | processing/spike_rate.py:40-42 | one lower and one upper bound per bin |
| SpikeRate.ConfidenceBoundsOrdered | processing/spike_rate.py:40-41 | for a percentile that never decreases with the rank, every lower bound is at most its upper bound |
| SpikeRate.FillBootstrapMeans | processing/spike_rate.py:27-38 | a fresh zero matrix with one row per iteration; iteration i writes row i from draw i, so row i equals the bootstrap row of draw i |
| SpikeRate.ColumnPercentiles | processing/spike_rate.py:40-42 | reading the matrix column by column gives exactly the specified confidence bounds |
| SpikeRate.BootstrapMatrix | processing/spike_rate.py:27-38 | one row per draw, each with one entry per bin |
| SpikeRate.BootstrapCi | processing/spike_rate.py:5-42 | each failure holds exactly under its condition, checked in the order the source meets them: too few edges, a negative iteration count, decreasing edges with trials present, a `ci_percentile` outside `[-100, 100]` (a percentile rank outside `[0, 100]`, which `np.percentile` rejects after the NaN or infinite means of the next two cases have been written), then no trials or a zero bin width with iterations to run; otherwise the bounds are the percentiles of the columns of the bootstrap matrix |
| SpikeSorter.TruncateTowardZero | data_wrangling/spikesorter.py:78 | the integer part of the value: `n <= x < n + 1` for `x >= 0`, and `n - 1 < x <= n` for `x < 0` |
| SpikeSorter.Tick | data_wrangling/spikesorter.py:78 | with a positive sampling frequency a spike at a non-negative time gets the index of the sampling period containing it, `tick / fs <= seconds < (tick + 1) / fs`; a spike at a negative time is rounded toward 0, `(tick - 1) / fs < seconds <= tick / fs` |
| SpikeSorter.SpikeTicks | data_wrangling/spikesorter.py:73-78 | one tick per data row |
| SpikeSorter.SpikeLabels | data_wrangling/spikesorter.py:75-79 | one label per data row |
| SpikeSorter.ReadSpikesorterCsv | data_wrangling/spikesorter.py:37-81 | after dropping the two header rows, the tick array and label array hold one entry per data row: the truncated tick and the unit id |
| SpikeSorter.InsertSorted | data_wrangling/spikesorter.py:27 | inserting into a strictly increasing id list keeps it strictly increasing and adds exactly the new id |
| SpikeSorter.Unique | data_wrangling/spikesorter.py:27 | the ids are strictly increasing and are exactly the labels that occur |
| SpikeSorter.SpikesOfUnit | data_wrangling/spikesorter.py:32 | the group of an id is non-empty exactly when the id occurs among the labels, and is no longer than the spike list |
| SpikeSorter.SpikesOfUnitMembers | data_wrangling/spikesorter.py:32 | a tick is in the group of an id exactly when some row carries that id and that tick |
| SpikeSorter.SpikesOfUnitKeepsOrder | data_wrangling/spikesorter.py:32 | selection commutes with concatenation, so a unit's ticks keep their file order |
| SpikeSorter.GroupsOf | data_wrangling/spikesorter.py:29-32 | one group per id |
| SpikeSorter.GroupsOfNoSpikes | data_wrangling/spikesorter.py:29-32 | grouping no spikes gives nothing |
| SpikeSorter.GroupsOfFirstSpike | data_wrangling/spikesorter.py:29-32 | the first spike lands in the group of its own label and in no other |
| SpikeSorter.GroupsPartitionSpikes | data_wrangling/spikesorter.py:27-33 | grouping by any strictly increasing id list that covers every label puts each spike into exactly one group |
| SpikeSorter.UnitGroups | data_wrangling/spikesorter.py:27-32 | one group per distinct unit id |
| SpikeSorter.UnitGroupMembers | data_wrangling/spikesorter.py:27-32 | group k holds the tick of every data row labelled with the k-th smallest unit id, and no other tick |
| SpikeSorter.UnitGroupsPartitionSpikes | data_wrangling/spikesorter.py:27-34 | the groups of an export together hold every spike tick exactly once, their sizes add up to the number of data rows, and no group is empty |
| SpikeSorter.GetSpikes | data_wrangling/spikesorter.py:5-34 | one group per distinct unit id, in ascending id order; each holds exactly the ticks with that id, in file order |

## Left out

- File and device I/O is left out: the CSV opening, the CSV reader, and string-to-number parsing. The spike-sorter model takes rows that are already parsed, and header rows are passed as rows whose contents are ignored.
- Not part of this model:
  - `data_wrangling/binary_data.py` and its duplicate, which read raw binary files;
  - `data_wrangling/intan.py`, which reads files and scales voltages;
  - `data_wrangling/neuroviz.py`, which loads pickles;
  - `tests/data_wrangling/test_intan.py`, which needs a data file.
- `data_wrangling/ttls.py` defines only `find_high_ttls_at_single_channel`. `get_low_to_high_transition_timestamps`, `get_high_to_low_transition_timestamps`, `get_ttl_timestamps_16bit` and `find_index_of_ttl_event_from_another`, which `tests/data_wrangling/test_ttls.py` imports from it, are not in that file. They are reconstructed only as far as the tests pin them down.
  - The edge rule (`np.diff` then `+ 1`) reproduces the fixture ticks.
  - The majority-level polarity reproduces the camera frames `[2, 7]` and `[4, 9]`.
  - No repair of recordings that start or end mid-pulse is modelled.
  - Diagnostic printing is not modelled.
  - Their error cases are not modelled. For example, a recording shorter than two samples gives `[]` here, as `np.diff` would, whatever those functions do with it.
- TtlEvents.LowToHighTransitionTimestamps: levels are unbounded integers, so `np.diff` is taken without wrap-around. The tests pass the `np.uint16` arrays of the fixture generator straight to the edge functions (tests/data_wrangling/test_ttls.py:27, 71-74, 93-96). On unsigned 16-bit samples `np.diff` of a 1-to-0 step is 65535, not -1, so wrap-around happens exactly at the falling edges of a 0/1 signal. The expected ticks hold only if the implementation, whose body is not part of this model, avoids that wrap (for example with a signed cast); the model takes that for granted.
- TtlEvents.HighToLowTransitionTimestamps: the same; on unsigned samples a falling edge would show as a large positive difference, and the model assumes the implementation avoids the wrap.
- TtlEvents.FindIndexOfTtlEventFromAnother: an empty reference list, where `np.argmin` raises, is modelled as `None`.
- SpikeTimes.GetSpikesAtEvents: requires a non-zero sampling rate. Division by zero is not modelled as numpy's infinities.
- SpikeTimes.GetSpikesAtEvents: the default `sampling_rate_hz=30000` is not modelled; the rate is always passed.
- SpikeRate.BootstrapCi: `np.random.choice` is replaced by the `draws` input. The precondition states the generator's promise: one draw per iteration, each of `n_trials` indices in `[0, n_trials)`.
- SpikeRate.BootstrapCi: `np.percentile`'s interpolation is a caller-supplied function. Its ordering lemma assumes only that the function never decreases with the rank.
- SpikeRate.BootstrapCi: no trials, or a zero bin width, with iterations to run makes numpy fill rows with NaN or infinity. This is modelled as a failure rather than as those values.
- SpikeRate.BootstrapCi: the unused `bin_centers` is computed in the model as in the source, but it is not returned.
- SpikeRate.BootstrapCi: `bins` is taken to be an array. With a plain Python list, `bins[:-1] + bins[1:]` concatenates the two lists and the following `/ 2` raises TypeError (processing/spike_rate.py:25); that failure is not modelled.
- SpikeRate.BootstrapCi: with `n_bootstrap == 0` the columns are empty, and what `np.percentile` does with an empty column is left to the caller-supplied percentile function; the model returns its values as a success.
- SpikeRate.BootstrapCi: the defaults `n_bootstrap=10000` and `ci_percentile=95` are not modelled; both are always passed.
- SpikeSorter.TruncateTowardZero: int64 overflow of very large ticks is not modelled.
- SpikeSorter.TruncateTowardZero: times are exact reals, so the float product `seconds * sampling_frequency` is not rounded before truncation. A one-ulp float error then becomes a one-tick difference: `float("0.0021") * 30000.0` truncates to 62 in Python, where the model gives 63.
- TtlFixtures.GenerateAlternatingTransitions: `length` is a natural number.
- TtlFixtures.GenerateDigitalInputsWithTransitions: `length` is a natural number.
