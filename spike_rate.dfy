/**
 * The deterministic core of the bootstrap confidence band of a peri-event
 * firing rate: bin centres, per-trial histograms, and for each bootstrap
 * iteration the rate obtained from a resample of the trials.  The random
 * resample is an input (one draw of trial indices per iteration) and the
 * percentile is a caller-supplied function.
 */
module SpikeRate {
  import opened Wrappers
  import opened Sequences

  /** The midpoint of each pair of consecutive edges: as far from one edge as from the other. */
  function BinCenters(bins: seq<real>): (centers: seq<real>)
    ensures |bins| > 0 ==> |centers| == |bins| - 1
    ensures |bins| == 0 ==> centers == []
    ensures forall k :: 0 <= k < |centers| ==> centers[k] - bins[k] == bins[k + 1] - centers[k]
  {
    if |bins| == 0 then []
    else seq(|bins| - 1, k requires 0 <= k < |bins| - 1 => (bins[k] + bins[k + 1]) / 2.0)
  }

  /**
   * With non-decreasing edges each centre lies between its two edges, the
   * centres never decrease, and consecutive centres are half the sum of the
   * neighbouring bin widths apart.
   */
  lemma BinCentersBetweenEdges(bins: seq<real>)
    requires NonDecreasing(bins)
    ensures var centers := BinCenters(bins);
      (forall k :: 0 <= k < |centers| ==> bins[k] <= centers[k] <= bins[k + 1])
      && (forall k :: 0 < k < |centers| ==>
            centers[k] - centers[k - 1] == (bins[k] - bins[k - 1]) / 2.0 + (bins[k + 1] - bins[k]) / 2.0)
      && (forall k, l :: 0 <= k < l < |centers| ==> centers[k] <= centers[l])
  {
    var centers := BinCenters(bins);
    forall k, l | 0 <= k < l < |centers|
      ensures centers[k] <= centers[l]
    {
      assert bins[k] <= bins[l] && bins[k + 1] <= bins[l + 1];
    }
  }

  // ---------------------------------------------------------------------
  // Histograms (np.histogram with an array of edges)

  /**
   * Bin k holds the values in [bins[k], bins[k+1]); the last bin is closed
   * on the right as well.
   */
  predicate InBin(bins: seq<real>, k: nat, x: real)
    requires k < |bins| - 1
  {
    if k < |bins| - 2 then bins[k] <= x < bins[k + 1] else bins[k] <= x <= bins[k + 1]
  }

  /**
   * Where an edge value goes: edge k is in bin k whenever that bin has a
   * positive width (and always when it is the last bin), never in bin k-1
   * which it closes; the last edge is in the last bin.
   */
  lemma EdgeMembership(bins: seq<real>, k: nat)
    requires NonDecreasing(bins) && k < |bins| - 1
    ensures InBin(bins, k, bins[k]) <==> k == |bins| - 2 || bins[k] < bins[k + 1]
    ensures 0 < k ==> !InBin(bins, k - 1, bins[k])
    ensures InBin(bins, |bins| - 2, bins[|bins| - 1])
  {
    assert bins[|bins| - 2] <= bins[|bins| - 1];
  }

  /** The values that some bin holds: from the first to the last edge, inclusive. */
  predicate InRange(bins: seq<real>, x: real)
    requires |bins| >= 2
  {
    bins[0] <= x <= bins[|bins| - 1]
  }

  /** The number of spikes of a trial in bin k. */
  function CountInBin(trial: seq<real>, bins: seq<real>, k: nat): (c: nat)
    requires k < |bins| - 1
    ensures c <= |trial|
  {
    if trial == [] then 0
    else (if InBin(bins, k, trial[0]) then 1 else 0) + CountInBin(trial[1..], bins, k)
  }

  /** The number of spikes of a trial inside the binned range. */
  function CountInRange(trial: seq<real>, bins: seq<real>): (c: nat)
    requires |bins| >= 2
    ensures c <= |trial|
  {
    if trial == [] then 0
    else (if InRange(bins, trial[0]) then 1 else 0) + CountInRange(trial[1..], bins)
  }

  /** The histogram of one trial: one count per bin. */
  function Histogram(trial: seq<real>, bins: seq<real>): (counts: seq<nat>)
    requires |bins| >= 2
    ensures |counts| == |bins| - 1
    ensures forall k :: 0 <= k < |counts| ==> counts[k] <= |trial|
  {
    seq(|bins| - 1, k requires 0 <= k < |bins| - 1 => CountInBin(trial, bins, k))
  }

  function Sum(s: seq<int>): int
  {
    if s == [] then 0 else s[0] + Sum(s[1..])
  }

  lemma {:induction false} SumOfZeros(s: seq<int>)
    requires forall k :: 0 <= k < |s| ==> s[k] == 0
    ensures Sum(s) == 0
  {
    if s != [] {
      SumOfZeros(s[1..]);
    }
  }

  lemma {:induction false} SumOfOneHot(s: seq<int>, p: nat)
    requires p < |s|
    requires forall k :: 0 <= k < |s| ==> s[k] == if k == p then 1 else 0
    ensures Sum(s) == 1
  {
    if p == 0 {
      SumOfZeros(s[1..]);
    } else {
      SumOfOneHot(s[1..], p - 1);
    }
  }

  lemma {:induction false} SumPointwise(a: seq<int>, b: seq<int>, c: seq<int>)
    requires |a| == |b| == |c|
    requires forall k :: 0 <= k < |c| ==> c[k] == a[k] + b[k]
    ensures Sum(c) == Sum(a) + Sum(b)
  {
    if c != [] {
      SumPointwise(a[1..], b[1..], c[1..]);
    }
  }

  /** A value in the binned range lies in some bin. */
  lemma FindBin(bins: seq<real>, x: real) returns (p: nat)
    requires |bins| >= 2 && NonDecreasing(bins) && InRange(bins, x)
    ensures p < |bins| - 1 && InBin(bins, p, x)
    decreases |bins|
  {
    var m := |bins| - 1;
    if bins[m - 1] <= x {
      p := m - 1;
    } else {
      p := FindBin(bins[..m], x);
    }
  }

  /** With non-decreasing edges a value lies in at most one bin, and only inside the range. */
  lemma BinIsUnique(bins: seq<real>, x: real, k: nat, l: nat)
    requires NonDecreasing(bins) && k < |bins| - 1 && l < |bins| - 1
    requires InBin(bins, k, x) && InBin(bins, l, x)
    ensures k == l && InRange(bins, x)
  {
  }

  /** Which bins a single value falls into: exactly one inside the range, none outside. */
  function Indicator(bins: seq<real>, x: real): (ind: seq<int>)
    requires |bins| >= 2
    ensures |ind| == |bins| - 1
  {
    seq(|bins| - 1, k requires 0 <= k < |bins| - 1 => if InBin(bins, k, x) then 1 else 0)
  }

  lemma SumOfIndicator(bins: seq<real>, x: real)
    requires |bins| >= 2 && NonDecreasing(bins)
    ensures Sum(Indicator(bins, x)) == if InRange(bins, x) then 1 else 0
  {
    var ind := Indicator(bins, x);
    if InRange(bins, x) {
      var p := FindBin(bins, x);
      forall k | 0 <= k < |ind|
        ensures ind[k] == if k == p then 1 else 0
      {
        if InBin(bins, k, x) {
          BinIsUnique(bins, x, k, p);
        }
      }
      SumOfOneHot(ind, p);
    } else {
      forall k | 0 <= k < |ind|
        ensures ind[k] == 0
      {
        if InBin(bins, k, x) {
          BinIsUnique(bins, x, k, k);
        }
      }
      SumOfZeros(ind);
    }
  }

  /**
   * The bins partition the binned range: the counts of a trial's histogram
   * add up to the number of its spikes between the first and last edge.
   */
  lemma {:induction false} HistogramCountsEverySpikeOnce(trial: seq<real>, bins: seq<real>)
    requires |bins| >= 2 && NonDecreasing(bins)
    ensures Sum(Histogram(trial, bins)) == CountInRange(trial, bins)
  {
    if trial == [] {
      SumOfZeros(Histogram(trial, bins));
    } else {
      HistogramCountsEverySpikeOnce(trial[1..], bins);
      SumOfIndicator(bins, trial[0]);
      SumPointwise(Indicator(bins, trial[0]), Histogram(trial[1..], bins), Histogram(trial, bins));
    }
  }

  // ---------------------------------------------------------------------
  // Resampling

  /** Every histogram has one count per bin. */
  predicate WellShaped(histograms: seq<seq<nat>>, nBins: nat)
  {
    forall t :: 0 <= t < |histograms| ==> |histograms[t]| == nBins
  }

  /** Every drawn index names a trial. */
  predicate DrawWithin(draw: seq<nat>, nTrials: nat)
  {
    forall j :: 0 <= j < |draw| ==> draw[j] < nTrials
  }

  /** The column sum, in bin k, of the histograms of the drawn trials (repeats counted). */
  function ResampledCount(histograms: seq<seq<nat>>, draw: seq<nat>, nBins: nat, k: nat): nat
    requires WellShaped(histograms, nBins) && DrawWithin(draw, |histograms|) && k < nBins
  {
    if draw == [] then 0
    else histograms[draw[0]][k] + ResampledCount(histograms, draw[1..], nBins, k)
  }

  /**
   * The column sum is at least each drawn trial's own count, and it is 0
   * exactly when every drawn trial has an empty bin k.
   */
  lemma {:induction false} ResampledCountBounds(histograms: seq<seq<nat>>, draw: seq<nat>, nBins: nat, k: nat)
    requires WellShaped(histograms, nBins) && DrawWithin(draw, |histograms|) && k < nBins
    ensures forall j :: 0 <= j < |draw| ==> histograms[draw[j]][k] <= ResampledCount(histograms, draw, nBins, k)
    ensures ResampledCount(histograms, draw, nBins, k) == 0 <==>
      forall j :: 0 <= j < |draw| ==> histograms[draw[j]][k] == 0
  {
    if draw != [] {
      var rest := draw[1..];
      ResampledCountBounds(histograms, rest, nBins, k);
      assert forall j :: 0 < j < |draw| ==> draw[j] == rest[j - 1];
    }
  }

  lemma {:induction false} ResampledCountConcat(histograms: seq<seq<nat>>, a: seq<nat>, b: seq<nat>, nBins: nat, k: nat)
    requires WellShaped(histograms, nBins) && DrawWithin(a, |histograms|) && DrawWithin(b, |histograms|)
    requires k < nBins
    ensures DrawWithin(a + b, |histograms|)
    ensures ResampledCount(histograms, a + b, nBins, k)
         == ResampledCount(histograms, a, nBins, k) + ResampledCount(histograms, b, nBins, k)
  {
    if a == [] {
      assert a + b == b;
    } else {
      assert (a + b)[1..] == a[1..] + b;
      ResampledCountConcat(histograms, a[1..], b, nBins, k);
    }
  }

  /** Taking one drawn index out of a draw takes its histogram out of the sum. */
  lemma ResampledCountRemove(histograms: seq<seq<nat>>, draw: seq<nat>, i: nat, nBins: nat, k: nat)
    requires WellShaped(histograms, nBins) && DrawWithin(draw, |histograms|)
    requires i < |draw| && k < nBins
    ensures DrawWithin(draw[..i] + draw[i + 1..], |histograms|)
    ensures multiset(draw[..i] + draw[i + 1..]) == multiset(draw) - multiset{draw[i]}
    ensures ResampledCount(histograms, draw, nBins, k)
         == histograms[draw[i]][k] + ResampledCount(histograms, draw[..i] + draw[i + 1..], nBins, k)
  {
    var x := draw[i];
    assert draw == draw[..i] + ([x] + draw[i + 1..]);
    assert ([x] + draw[i + 1..])[1..] == draw[i + 1..];
    ResampledCountConcat(histograms, draw[..i], [x] + draw[i + 1..], nBins, k);
    ResampledCountConcat(histograms, draw[..i], draw[i + 1..], nBins, k);
  }

  /**
   * The resampled sum depends only on how often each trial was drawn, not
   * on the order of the draw.
   */
  lemma {:induction false} ResampledCountIgnoresOrder(histograms: seq<seq<nat>>, d1: seq<nat>, d2: seq<nat>, nBins: nat, k: nat)
    requires WellShaped(histograms, nBins) && DrawWithin(d1, |histograms|) && DrawWithin(d2, |histograms|)
    requires k < nBins && multiset(d1) == multiset(d2)
    ensures ResampledCount(histograms, d1, nBins, k) == ResampledCount(histograms, d2, nBins, k)
    decreases |d1|
  {
    if d1 == [] {
      assert |d2| == |multiset(d2)| == 0;
    } else {
      var x := d1[0];
      assert d1 == [x] + d1[1..];
      assert x in multiset(d2);
      var i :| 0 <= i < |d2| && d2[i] == x;
      ResampledCountRemove(histograms, d2, i, nBins, k);
      ResampledCountIgnoresOrder(histograms, d1[1..], d2[..i] + d2[i + 1..], nBins, k);
    }
  }

  /**
   * One bootstrap row: the resampled column sums divided by the number of
   * trials and by the bin width, i.e. a mean rate per bin.  It is never
   * negative when the bin width is positive.
   */
  function BootstrapRow(histograms: seq<seq<nat>>, draw: seq<nat>, nBins: nat, binWidth: real): (row: seq<real>)
    requires WellShaped(histograms, nBins) && DrawWithin(draw, |histograms|)
    requires |histograms| > 0 && binWidth != 0.0
    ensures |row| == nBins
    ensures binWidth > 0.0 ==> forall k :: 0 <= k < nBins ==> row[k] >= 0.0
  {
    seq(nBins, k requires 0 <= k < nBins =>
      ResampledCount(histograms, draw, nBins, k) as real / |histograms| as real / binWidth)
  }

  /** Two draws that pick every trial equally often give the same bootstrap row. */
  lemma BootstrapRowIgnoresOrder(histograms: seq<seq<nat>>, d1: seq<nat>, d2: seq<nat>, nBins: nat, binWidth: real)
    requires WellShaped(histograms, nBins) && DrawWithin(d1, |histograms|) && DrawWithin(d2, |histograms|)
    requires |histograms| > 0 && binWidth != 0.0 && multiset(d1) == multiset(d2)
    ensures BootstrapRow(histograms, d1, nBins, binWidth) == BootstrapRow(histograms, d2, nBins, binWidth)
  {
    forall k | 0 <= k < nBins
      ensures ResampledCount(histograms, d1, nBins, k) == ResampledCount(histograms, d2, nBins, k)
    {
      ResampledCountIgnoresOrder(histograms, d1, d2, nBins, k);
    }
  }

  /** Draws that are each a resample of nTrials trial indices, one per iteration. */
  predicate ValidDraws(draws: seq<seq<nat>>, nTrials: nat)
  {
    forall i :: 0 <= i < |draws| ==> |draws[i]| == nTrials && DrawWithin(draws[i], nTrials)
  }

  /** The bootstrap matrix, row i computed from draw i. */
  function BootstrapMeans(histograms: seq<seq<nat>>, draws: seq<seq<nat>>, nBins: nat, binWidth: real): (rows: seq<seq<real>>)
    requires WellShaped(histograms, nBins) && ValidDraws(draws, |histograms|)
    requires |histograms| > 0 && binWidth != 0.0
    ensures |rows| == |draws|
    ensures forall i :: 0 <= i < |rows| ==> |rows[i]| == nBins
  {
    seq(|draws|, i requires 0 <= i < |draws| => BootstrapRow(histograms, draws[i], nBins, binWidth))
  }

  // ---------------------------------------------------------------------
  // Percentiles

  /**
   * The two percentile ranks of a central interval covering ciPercentile
   * percent.  Both are valid ranks, in [0, 100], exactly when the interval
   * is at most 100 percent wide either way.
   */
  function PercentileRanks(ciPercentile: real): (ranks: (real, real))
    ensures (0.0 <= ranks.0 <= 100.0 && 0.0 <= ranks.1 <= 100.0) <==> -100.0 <= ciPercentile <= 100.0
    ensures ranks.0 + ranks.1 == 100.0
    ensures 0.0 <= ciPercentile <= 100.0 ==> 0.0 <= ranks.0 <= ranks.1 <= 100.0
    ensures ranks.1 - ranks.0 == ciPercentile
  {
    ((100.0 - ciPercentile) / 2.0, 100.0 - (100.0 - ciPercentile) / 2.0)
  }

  function Column(rows: seq<seq<real>>, nBins: nat, k: nat): (column: seq<real>)
    requires forall i :: 0 <= i < |rows| ==> |rows[i]| == nBins
    requires k < nBins
    ensures |column| == |rows|
  {
    seq(|rows|, i requires 0 <= i < |rows| => rows[i][k])
  }

  /** Per bin, the lower and upper percentile of that bin's bootstrap column. */
  function ConfidenceBounds(rows: seq<seq<real>>, nBins: nat, ciPercentile: real, percentile: (seq<real>, real) -> real)
    : (bounds: (seq<real>, seq<real>))
    requires forall i :: 0 <= i < |rows| ==> |rows[i]| == nBins
    ensures |bounds.0| == nBins && |bounds.1| == nBins
  {
    var ranks := PercentileRanks(ciPercentile);
    (seq(nBins, k requires 0 <= k < nBins => percentile(Column(rows, nBins, k), ranks.0)),
     seq(nBins, k requires 0 <= k < nBins => percentile(Column(rows, nBins, k), ranks.1)))
  }

  /**
   * For a percentile that never decreases with the rank, the lower bound of
   * every bin is at most its upper bound.
   */
  lemma ConfidenceBoundsOrdered(rows: seq<seq<real>>, nBins: nat, ciPercentile: real, percentile: (seq<real>, real) -> real)
    requires forall i :: 0 <= i < |rows| ==> |rows[i]| == nBins
    requires 0.0 <= ciPercentile <= 100.0
    requires forall column: seq<real>, p: real, q: real :: 0.0 <= p <= q <= 100.0 ==> percentile(column, p) <= percentile(column, q)
    ensures var bounds := ConfidenceBounds(rows, nBins, ciPercentile, percentile);
      forall k :: 0 <= k < nBins ==> bounds.0[k] <= bounds.1[k]
  {
    var ranks := PercentileRanks(ciPercentile);
    forall k | 0 <= k < nBins
      ensures percentile(Column(rows, nBins, k), ranks.0) <= percentile(Column(rows, nBins, k), ranks.1)
    {
    }
  }

  // ---------------------------------------------------------------------
  // bootstrap_ci

  datatype BootstrapError =
    | MissingBinEdges        // fewer than two edges: no bin width (IndexError)
    | NegativeIterationCount // a negative row count for the matrix (ValueError)
    | BinsNotMonotonic       // np.histogram refuses decreasing edges (ValueError)
    | NoTrials               // dividing by zero trials makes every row NaN
    | ZeroBinWidth           // dividing by a zero bin width makes every row NaN or infinite
    | PercentileOutOfRange   // np.percentile refuses a rank outside [0, 100] (ValueError)

  /**
   * The resample-and-average loop: a matrix of nBootstrap rows, initially
   * zero, whose row i is written by iteration i from draw i and nothing else.
   */
  method FillBootstrapMeans(trialHistograms: seq<seq<nat>>, draws: seq<seq<nat>>, nBins: nat, binWidth: real)
    returns (bootstrapMeans: array2<real>)
    requires WellShaped(trialHistograms, nBins) && ValidDraws(draws, |trialHistograms|)
    requires |trialHistograms| > 0 && binWidth != 0.0
    ensures fresh(bootstrapMeans)
    ensures bootstrapMeans.Length0 == |draws| && bootstrapMeans.Length1 == nBins
    ensures forall i, k :: 0 <= i < |draws| && 0 <= k < nBins ==>
      bootstrapMeans[i, k] == BootstrapMeans(trialHistograms, draws, nBins, binWidth)[i][k]
  {
    var nBootstrap := |draws|;
    bootstrapMeans := new real[nBootstrap, nBins]((i, k) => 0.0);
    ghost var rows := BootstrapMeans(trialHistograms, draws, nBins, binWidth);
    for i := 0 to nBootstrap
      invariant forall j, k :: 0 <= j < i && 0 <= k < nBins ==> bootstrapMeans[j, k] == rows[j][k]
      invariant forall j, k :: i <= j < nBootstrap && 0 <= k < nBins ==> bootstrapMeans[j, k] == 0.0
    {
      var resampledIndices := draws[i];
      var row := BootstrapRow(trialHistograms, resampledIndices, nBins, binWidth);
      assert row == rows[i];
      forall k | 0 <= k < nBins {
        bootstrapMeans[i, k] := row[k];
      }
    }
  }

  /** The per-bin lower and upper percentiles of the columns of the bootstrap matrix. */
  method ColumnPercentiles(bootstrapMeans: array2<real>, ghost rows: seq<seq<real>>, ciPercentile: real,
                           percentile: (seq<real>, real) -> real)
    returns (bounds: (seq<real>, seq<real>))
    requires bootstrapMeans.Length0 == |rows|
    requires forall i :: 0 <= i < |rows| ==> |rows[i]| == bootstrapMeans.Length1
    requires forall i, k :: 0 <= i < |rows| && 0 <= k < bootstrapMeans.Length1 ==> bootstrapMeans[i, k] == rows[i][k]
    ensures bounds == ConfidenceBounds(rows, bootstrapMeans.Length1, ciPercentile, percentile)
  {
    var nBootstrap, nBins := bootstrapMeans.Length0, bootstrapMeans.Length1;
    var ranks := PercentileRanks(ciPercentile);
    var ciLower: seq<real> := [];
    var ciUpper: seq<real> := [];
    for k := 0 to nBins
      invariant |ciLower| == k && |ciUpper| == k
      invariant forall l :: 0 <= l < k ==> ciLower[l] == percentile(Column(rows, nBins, l), ranks.0)
      invariant forall l :: 0 <= l < k ==> ciUpper[l] == percentile(Column(rows, nBins, l), ranks.1)
    {
      var column := seq(nBootstrap, i requires 0 <= i < nBootstrap reads bootstrapMeans => bootstrapMeans[i, k]);
      assert column == Column(rows, nBins, k);
      ciLower := ciLower + [percentile(column, ranks.0)];
      ciUpper := ciUpper + [percentile(column, ranks.1)];
    }
    bounds := (ciLower, ciUpper);
    assert ciLower == ConfidenceBounds(rows, nBins, ciPercentile, percentile).0;
    assert ciUpper == ConfidenceBounds(rows, nBins, ciPercentile, percentile).1;
  }

  /** The bootstrap matrix bootstrap_ci builds, as a value (empty without iterations). */
  function BootstrapMatrix(spikesPerTrial: seq<seq<real>>, bins: seq<real>, draws: seq<seq<nat>>): (rows: seq<seq<real>>)
    requires |bins| >= 2 && |spikesPerTrial| > 0 && bins[1] != bins[0]
    requires ValidDraws(draws, |spikesPerTrial|)
    ensures |rows| == |draws|
    ensures forall i :: 0 <= i < |rows| ==> |rows[i]| == |bins| - 1
  {
    var histograms := seq(|spikesPerTrial|, t requires 0 <= t < |spikesPerTrial| => Histogram(spikesPerTrial[t], bins));
    BootstrapMeans(histograms, draws, |bins| - 1, bins[1] - bins[0])
  }

  /**
   * bootstrap_ci.  Iteration i resamples the trials with draws[i] and
   * writes row i of the bootstrap matrix; the bounds are percentiles of the
   * matrix's columns.  The failures are checked in the order the source
   * meets them.
   */
  method BootstrapCi(spikesPerTrial: seq<seq<real>>, bins: seq<real>, nBootstrap: int, ciPercentile: real,
                     draws: seq<seq<nat>>, percentile: (seq<real>, real) -> real)
    returns (r: Result<(seq<real>, seq<real>), BootstrapError>)
    requires nBootstrap >= 0 ==> |draws| == nBootstrap
    requires ValidDraws(draws, |spikesPerTrial|)
    ensures r == Failure(MissingBinEdges) <==> |bins| < 2
    ensures r == Failure(NegativeIterationCount) <==> |bins| >= 2 && nBootstrap < 0
    ensures r == Failure(BinsNotMonotonic) <==>
      |bins| >= 2 && nBootstrap >= 0 && |spikesPerTrial| > 0 && !NonDecreasing(bins)
    ensures r == Failure(PercentileOutOfRange) <==>
      |bins| >= 2 && nBootstrap >= 0 && !(|spikesPerTrial| > 0 && !NonDecreasing(bins)) &&
      !(-100.0 <= ciPercentile <= 100.0)
    ensures r == Failure(NoTrials) <==>
      |bins| >= 2 && nBootstrap > 0 && |spikesPerTrial| == 0 && -100.0 <= ciPercentile <= 100.0
    ensures r == Failure(ZeroBinWidth) <==>
      |bins| >= 2 && nBootstrap > 0 && |spikesPerTrial| > 0 && NonDecreasing(bins) && bins[1] == bins[0] &&
      -100.0 <= ciPercentile <= 100.0
    ensures r.Success? ==> -100.0 <= ciPercentile <= 100.0
    ensures r.Success? && nBootstrap > 0 ==>
      |bins| >= 2 && |spikesPerTrial| > 0 && bins[1] != bins[0] &&
      r.value == ConfidenceBounds(BootstrapMatrix(spikesPerTrial, bins, draws), |bins| - 1, ciPercentile, percentile)
    ensures r.Success? && nBootstrap <= 0 ==>
      |bins| >= 2 && nBootstrap == 0 && r.value == ConfidenceBounds([], |bins| - 1, ciPercentile, percentile)
  {
    if |bins| < 2 {
      return Failure(MissingBinEdges);
    }
    var nTrials := |spikesPerTrial|;
    var nBins := |bins| - 1;
    var binCenters := BinCenters(bins);
    var binWidth := bins[1] - bins[0];
    if nBootstrap < 0 {
      return Failure(NegativeIterationCount);
    }
    if nTrials > 0 && !NonDecreasing(bins) {
      return Failure(BinsNotMonotonic);
    }
    var trialHistograms := seq(nTrials, t requires 0 <= t < nTrials => Histogram(spikesPerTrial[t], bins));
    var ranks := PercentileRanks(ciPercentile);
    if !(0.0 <= ranks.0 <= 100.0 && 0.0 <= ranks.1 <= 100.0) {
      return Failure(PercentileOutOfRange);
    }
    if nBootstrap == 0 {
      var empty := new real[0, nBins];
      var bounds := ColumnPercentiles(empty, [], ciPercentile, percentile);
      return Success(bounds);
    }
    if nTrials == 0 {
      return Failure(NoTrials);
    }
    if binWidth == 0.0 {
      return Failure(ZeroBinWidth);
    }
    var bootstrapMeans := FillBootstrapMeans(trialHistograms, draws, nBins, binWidth);
    var bounds := ColumnPercentiles(bootstrapMeans, BootstrapMatrix(spikesPerTrial, bins, draws), ciPercentile, percentile);
    return Success(bounds);
  }
}
