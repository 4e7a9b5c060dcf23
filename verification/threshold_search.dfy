/**
 The threshold search of `statistical_image_segmentation`
 (gnc/sub8_perception/src/sub8_pcl/cv_utils.cc): pick the histogram mode
 nearest the target, pick a start on each side of it from the derivative's
 extrema, then scan outward for the first bin whose slope magnitude falls
 under a cutoff. The smoothed histogram, its smoothed derivative and the two
 cutoffs (truncated from the derivative's standard deviation times a gain)
 are inputs.
 */
module ThresholdSearch {
  import opened HistogramPeaks

  /** Multiplier `statistical_image_segmentation` passes when finding histogram modes. */
  const ModeMultiplier: real := 0.1
  /** Multiplier it passes when finding the derivative's extrema. */
  const SlopeMultiplier: real := 0.01

  /**
   `start` is the high search start for `targetMode`: the first entry of
   `minima` right of it, or `targetMode` itself when there is none.
   */
  predicate IsHighStart(minima: seq<HistPoint>, targetMode: int, start: int)
  {
    if forall k | 0 <= k < |minima| :: minima[k].x <= targetMode then start == targetMode
    else exists k | 0 <= k < |minima| ::
      && minima[k].x == start && start > targetMode
      && forall j | 0 <= j < k :: minima[j].x <= targetMode
  }

  /**
   `start` is the low search start for `targetMode`: the last entry of
   `maxima` left of it, or `targetMode` itself when there is none.
   */
  predicate IsLowStart(maxima: seq<HistPoint>, targetMode: int, start: int)
  {
    if forall k | 0 <= k < |maxima| :: maxima[k].x >= targetMode then start == targetMode
    else exists k | 0 <= k < |maxima| ::
      && maxima[k].x == start && start < targetMode
      && forall j | k < j < |maxima| :: maxima[j].x >= targetMode
  }

  /** The high search start loop: scan the minima in order, stop at the first one right of `targetMode`. */
  method HighSearchStart(minima: seq<HistPoint>, targetMode: int) returns (start: int)
    ensures IsHighStart(minima, targetMode, start)
  {
    start := targetMode;
    var i := 0;
    while i < |minima|
      invariant 0 <= i <= |minima|
      invariant forall j | 0 <= j < i :: minima[j].x <= targetMode
    {
      if minima[i].x > targetMode {
        start := minima[i].x;
        return;
      }
      i := i + 1;
    }
  }

  /** The low search start loop: scan the maxima backwards, stop at the first one left of `targetMode`. */
  method LowSearchStart(maxima: seq<HistPoint>, targetMode: int) returns (start: int)
    ensures IsLowStart(maxima, targetMode, start)
  {
    start := targetMode;
    var i := |maxima| - 1;
    while i >= 0
      invariant -1 <= i < |maxima|
      invariant forall j | i < j < |maxima| :: maxima[j].x >= targetMode
    {
      if maxima[i].x < targetMode {
        start := maxima[i].x;
        return;
      }
      i := i - 1;
    }
  }

  function AbsInt(x: int): nat
  {
    if x < 0 then -x else x
  }

  /**
   `high` ends the upward slope scan from `start`: the first bin at or
   after `start` whose slope magnitude is below `cutoff`, or `start` itself
   when no bin qualifies.
   */
  predicate IsHighCut(derivative: seq<int>, start: int, cutoff: int, high: int)
    requires 0 <= start
  {
    || (high == start && forall i | start <= i < |derivative| :: AbsInt(derivative[i]) >= cutoff)
    || (start <= high < |derivative| && AbsInt(derivative[high]) < cutoff &&
        forall i | start <= i < high :: AbsInt(derivative[i]) >= cutoff)
  }

  /**
   `low` ends the downward slope scan from `start` towards bin 1: the first
   bin whose slope magnitude is below `cutoff`, or `start` itself when no
   bin qualifies.
   */
  predicate IsLowCut(derivative: seq<int>, start: int, cutoff: int, low: int)
    requires start < |derivative|
  {
    || (low == start && forall i | 0 < i <= start :: AbsInt(derivative[i]) >= cutoff)
    || (0 < low <= start && AbsInt(derivative[low]) < cutoff &&
        forall i | low < i <= start :: AbsInt(derivative[i]) >= cutoff)
  }

  /** The upward slope scan loop. */
  method ScanUp(derivative: seq<int>, start: int, cutoff: int) returns (high: int)
    requires 0 <= start
    ensures IsHighCut(derivative, start, cutoff, high)
  {
    high := start;
    var i := start;
    while i < |derivative|
      invariant start <= i
      invariant forall j | start <= j < i && j < |derivative| :: AbsInt(derivative[j]) >= cutoff
    {
      if AbsInt(derivative[i]) < cutoff {
        high := i;
        return;
      }
      i := i + 1;
    }
  }

  /** The downward slope scan loop. */
  method ScanDown(derivative: seq<int>, start: int, cutoff: int) returns (low: int)
    requires start < |derivative|
    ensures IsLowCut(derivative, start, cutoff, low)
  {
    low := start;
    var i := start;
    while i > 0
      invariant i <= start
      invariant forall j | i < j <= start && 0 < j :: AbsInt(derivative[j]) >= cutoff
    {
      if AbsInt(derivative[i]) < cutoff {
        low := i;
        return;
      }
      i := i - 1;
    }
  }

  /**
   `target_mode`: the mode of the smoothed histogram nearest `target`, among
   the local maxima above a tenth of the highest one (the ghost result
   `modes`); among equally near modes, the last one in the list.
   */
  method TargetMode(smooth: seq<int>, target: int) returns (mode: int, ghost modes: seq<HistPoint>)
    requires |smooth| > 0 && FindLocalMaxima(smooth, ModeMultiplier) != []
    ensures modes == FindLocalMaxima(smooth, ModeMultiplier)
    ensures IsLocalMax(smooth, mode)
    ensures HistPoint(mode, smooth[mode]) in modes
    ensures forall p | p in modes :: Dist(mode, target) <= Dist(p.x, target)
    ensures exists k | 0 <= k < |modes| ::
      && modes[k].x == mode
      && forall j | k < j < |modes| :: Dist(modes[j].x, target) > Dist(mode, target)
  {
    var found := FindLocalMaxima(smooth, ModeMultiplier);
    mode := SelectHistMode(found, target);
    var p := NearestMember(found, target, mode);
    modes := found;
  }

  /** The index-based guarantees of `SelectHistMode`, restated over list membership. */
  lemma NearestMember(modes: seq<HistPoint>, target: int, mode: int) returns (p: HistPoint)
    requires forall j | 0 <= j < |modes| :: Dist(mode, target) <= Dist(modes[j].x, target)
    requires exists k | 0 <= k < |modes| :: modes[k].x == mode
    ensures p in modes && p.x == mode
    ensures forall q | q in modes :: Dist(mode, target) <= Dist(q.x, target)
  {
    var k :| 0 <= k < |modes| && modes[k].x == mode;
    p := modes[k];
    forall q | q in modes ensures Dist(mode, target) <= Dist(q.x, target) {
      var i :| 0 <= i < |modes| && modes[i] == q;
    }
  }

  /**
   Both search starts, from the derivative's extrema around `mode`. They
   bracket the mode and stay off bin 0; a start other than the mode is an
   extremum, hence an interior bin.
   */
  method SearchStarts(derivative: seq<int>, mode: int) returns (lowStart: int, highStart: int)
    requires 1 <= mode < |derivative|
    ensures 1 <= lowStart <= mode <= highStart < |derivative|
    ensures highStart != mode ==> highStart < |derivative| - 1
    ensures IsHighStart(FindLocalMinima(derivative, SlopeMultiplier), mode, highStart)
    ensures IsLowStart(FindLocalMaxima(derivative, SlopeMultiplier), mode, lowStart)
  {
    var derivMaxima := FindLocalMaxima(derivative, SlopeMultiplier);
    var derivMinima := FindLocalMinima(derivative, SlopeMultiplier);
    highStart := HighSearchStart(derivMinima, mode);
    lowStart := LowSearchStart(derivMaxima, mode);
    if highStart != mode {
      var k :| 0 <= k < |derivMinima| && derivMinima[k].x == highStart;
      assert derivMinima[k] in derivMinima;
    }
    if lowStart != mode {
      var k :| 0 <= k < |derivMaxima| && derivMaxima[k].x == lowStart;
      assert derivMaxima[k] in derivMaxima;
    }
  }

  /**
   The selected mode, the two search starts, and the segmentation band
   `[low, high]` handed to `cv::inRange`.
   */
  datatype Thresholds = Thresholds(mode: int, lowStart: int, highStart: int, low: int, high: int)

  /**
   The threshold search of `statistical_image_segmentation`. It needs at
   least one mode of the smoothed histogram, because `select_hist_mode`
   indexes its first entry unconditionally. The mode is the histogram mode
   nearest the target, the last one on ties (the ghost result `modes` lists
   the histogram modes); each search start is the derivative extremum the
   C++ loops pick; each band end is where its slope scan stops; and the
   band contains the mode and lies inside the histogram.
   */
  method SegmentationThresholds(smooth: seq<int>, derivative: seq<int>, target: int,
                                lowCutoff: nat, highCutoff: nat)
    returns (t: Thresholds, ghost modes: seq<HistPoint>)
    requires |smooth| == |derivative| > 0
    requires FindLocalMaxima(smooth, ModeMultiplier) != []
    ensures modes == FindLocalMaxima(smooth, ModeMultiplier)
    ensures IsLocalMax(smooth, t.mode)
    ensures HistPoint(t.mode, smooth[t.mode]) in modes
    ensures forall p | p in modes :: Dist(t.mode, target) <= Dist(p.x, target)
    ensures exists k | 0 <= k < |modes| ::
      && modes[k].x == t.mode
      && forall j | k < j < |modes| :: Dist(modes[j].x, target) > Dist(t.mode, target)
    ensures 1 <= t.low <= t.lowStart <= t.mode <= t.highStart <= t.high < |derivative|
    ensures IsHighStart(FindLocalMinima(derivative, SlopeMultiplier), t.mode, t.highStart)
    ensures IsLowStart(FindLocalMaxima(derivative, SlopeMultiplier), t.mode, t.lowStart)
    ensures IsHighCut(derivative, t.highStart, highCutoff, t.high)
    ensures IsLowCut(derivative, t.lowStart, lowCutoff, t.low)
  {
    var mode;
    mode, modes := TargetMode(smooth, target);
    var lowStart, highStart := SearchStarts(derivative, mode);
    var high := ScanUp(derivative, highStart, highCutoff);
    var low := ScanDown(derivative, lowStart, lowCutoff);
    t := Thresholds(mode, lowStart, highStart, low, high);
  }
}
