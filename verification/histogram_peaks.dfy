/**
 Peak utilities over 1-D histograms (gnc/sub8_perception/src/sub8_pcl/cv_utils.cc):
 local maxima and minima with a threshold filter, and nearest-mode
 selection. Histogram bins are integers: the smoothed histograms these
 functions receive hold the integer sums `smooth_histogram` accumulates.
 */
module HistogramPeaks {

  /** A `cv::Point(idx, value)`: bin index `x` and bin value `y`. */
  datatype HistPoint = HistPoint(x: int, y: int)

  /** Bin `i` is a local-maximum candidate: an interior bin above its left and not below its right neighbour. */
  predicate IsLocalMax(h: seq<int>, i: int)
  {
    1 <= i <= |h| - 2 && h[i - 1] < h[i] && h[i + 1] <= h[i]
  }

  /** Bin `i` is a local-minimum candidate: an interior bin not above its left and below its right neighbour. */
  predicate IsLocalMin(h: seq<int>, i: int)
  {
    1 <= i <= |h| - 2 && h[i - 1] >= h[i] && h[i + 1] > h[i]
  }

  /** Points listed in strictly increasing bin order. */
  predicate IncreasingX(ps: seq<HistPoint>)
  {
    forall i, j | 0 <= i < j < |ps| :: ps[i].x < ps[j].x
  }

  /** The local-maximum scan over bins `idx .. |h| - 2`, in index order. */
  function MaximaFrom(h: seq<int>, idx: nat): (r: seq<HistPoint>)
    requires 1 <= idx
    ensures forall p :: p in r <==> idx <= p.x && IsLocalMax(h, p.x) && p.y == h[p.x]
    ensures IncreasingX(r)
    decreases |h| - idx
  {
    if idx >= |h| - 1 then []
    else
      var rest := MaximaFrom(h, idx + 1);
      if h[idx - 1] < h[idx] && h[idx + 1] <= h[idx] then [HistPoint(idx, h[idx])] + rest else rest
  }

  /** The local-minimum scan over bins `idx .. |h| - 2`, in index order. */
  function MinimaFrom(h: seq<int>, idx: nat): (r: seq<HistPoint>)
    requires 1 <= idx
    ensures forall p :: p in r <==> idx <= p.x && IsLocalMin(h, p.x) && p.y == h[p.x]
    ensures IncreasingX(r)
    decreases |h| - idx
  {
    if idx >= |h| - 1 then []
    else
      var rest := MinimaFrom(h, idx + 1);
      if h[idx - 1] >= h[idx] && h[idx + 1] > h[idx] then [HistPoint(idx, h[idx])] + rest else rest
  }

  /** The largest value among a non-empty list of points. */
  function MaxY(ps: seq<HistPoint>): (m: int)
    requires |ps| > 0
    ensures exists p | p in ps :: p.y == m
    ensures forall p | p in ps :: p.y <= m
  {
    if |ps| == 1 then ps[0].y
    else
      var m := MaxY(ps[1..]);
      assert forall p | p in ps[1..] :: p in ps;
      assert forall p | p in ps :: p == ps[0] || p in ps[1..];
      if ps[0].y > m then ps[0].y else m
  }

  /** The smallest value among a non-empty list of points. */
  function MinY(ps: seq<HistPoint>): (m: int)
    requires |ps| > 0
    ensures exists p | p in ps :: p.y == m
    ensures forall p | p in ps :: p.y >= m
  {
    if |ps| == 1 then ps[0].y
    else
      var m := MinY(ps[1..]);
      assert forall p | p in ps[1..] :: p in ps;
      assert forall p | p in ps :: p == ps[0] || p in ps[1..];
      if ps[0].y < m then ps[0].y else m
  }

  /** Point `p` passes the threshold: strictly above `bound` when `above`, strictly below otherwise. */
  predicate Passes(p: HistPoint, above: bool, bound: real)
  {
    if above then p.y as real > bound else (p.y as real) < bound
  }

  /** The points that pass the threshold, in their original order. */
  function Keep(ps: seq<HistPoint>, above: bool, bound: real): (r: seq<HistPoint>)
    ensures forall p :: p in r <==> p in ps && Passes(p, above, bound)
    ensures IncreasingX(ps) ==> IncreasingX(r)
  {
    if ps == [] then []
    else
      var rest := Keep(ps[1..], above, bound);
      assert forall p | p in ps :: p == ps[0] || p in ps[1..];
      assert IncreasingX(ps) ==> forall p | p in rest :: ps[0].x < p.x;
      if Passes(ps[0], above, bound) then [ps[0]] + rest else rest
  }

  /** The largest local-maximum value of `h` (`global_maximum` after the scan). */
  function PeakValue(h: seq<int>): (m: int)
    requires exists i :: IsLocalMax(h, i)
    ensures exists i :: IsLocalMax(h, i) && h[i] == m
    ensures forall i | IsLocalMax(h, i) :: h[i] <= m
  {
    var c := MaximaFrom(h, 1);
    assert forall i | IsLocalMax(h, i) :: HistPoint(i, h[i]) in c;
    MaxY(c)
  }

  /** The smallest local-minimum value of `h` (`global_minimum` after the scan). */
  function TroughValue(h: seq<int>): (m: int)
    requires exists i :: IsLocalMin(h, i)
    ensures exists i :: IsLocalMin(h, i) && h[i] == m
    ensures forall i | IsLocalMin(h, i) :: h[i] >= m
  {
    var c := MinimaFrom(h, 1);
    assert forall i | IsLocalMin(h, i) :: HistPoint(i, h[i]) in c;
    MinY(c)
  }

  /** A non-empty maxima scan means `h` has a local maximum, and its largest value is `PeakValue(h)`. */
  lemma MaximaPeak(h: seq<int>)
    ensures MaximaFrom(h, 1) != [] ==>
      (exists i :: IsLocalMax(h, i)) && MaxY(MaximaFrom(h, 1)) == PeakValue(h)
  {
    var c := MaximaFrom(h, 1);
    if c != [] {
      assert c[0] in c && IsLocalMax(h, c[0].x);
    }
  }

  /** A non-empty minima scan means `h` has a local minimum, and its smallest value is `TroughValue(h)`. */
  lemma MinimaTrough(h: seq<int>)
    ensures MinimaFrom(h, 1) != [] ==>
      (exists i :: IsLocalMin(h, i)) && MinY(MinimaFrom(h, 1)) == TroughValue(h)
  {
    var c := MinimaFrom(h, 1);
    if c != [] {
      assert c[0] in c && IsLocalMin(h, c[0].x);
    }
  }

  /**
   `find_local_maxima`: the local-maximum candidates whose value exceeds the
   largest candidate value times `multiplier`, in bin order; no candidate
   means no result. The histogram must not be empty: for an empty one the
   C++ code's unsigned loop bound `total() - 1` wraps around.
   */
  function FindLocalMaxima(h: seq<int>, multiplier: real): (r: seq<HistPoint>)
    requires |h| > 0
    ensures forall p | p in r :: IsLocalMax(h, p.x) && p.y == h[p.x]
    ensures IncreasingX(r)
    ensures (forall i :: !IsLocalMax(h, i)) ==> r == []
    ensures forall i | IsLocalMax(h, i) ::
      HistPoint(i, h[i]) in r <==> h[i] as real > PeakValue(h) as real * multiplier
  {
    var c := MaximaFrom(h, 1);
    if c == [] then []
    else
      MaximaPeak(h);
      var bound := PeakValue(h) as real * multiplier;
      assert forall i | IsLocalMax(h, i) :: HistPoint(i, h[i]) in c;
      Keep(c, true, bound)
  }

  /**
   `find_local_minima`: the local-minimum candidates whose value is below
   the smallest candidate value times `multiplier`, in bin order; no
   candidate means no result. The histogram must not be empty.
   */
  function FindLocalMinima(h: seq<int>, multiplier: real): (r: seq<HistPoint>)
    requires |h| > 0
    ensures forall p | p in r :: IsLocalMin(h, p.x) && p.y == h[p.x]
    ensures IncreasingX(r)
    ensures (forall i :: !IsLocalMin(h, i)) ==> r == []
    ensures forall i | IsLocalMin(h, i) ::
      HistPoint(i, h[i]) in r <==> (h[i] as real) < TroughValue(h) as real * multiplier
  {
    var c := MinimaFrom(h, 1);
    if c == [] then []
    else
      MinimaTrough(h);
      var bound := TroughValue(h) as real * multiplier;
      assert forall i | IsLocalMin(h, i) :: HistPoint(i, h[i]) in c;
      Keep(c, false, bound)
  }

  function Dist(a: int, b: int): nat
  {
    if a < b then b - a else a - b
  }

  /**
   `select_hist_mode`: the bin of a mode nearest to `target`; among equally
   near modes, the last one in the list.
   */
  method SelectHistMode(modes: seq<HistPoint>, target: int) returns (mode: int)
    requires |modes| > 0
    ensures forall j | 0 <= j < |modes| :: Dist(mode, target) <= Dist(modes[j].x, target)
    ensures exists k | 0 <= k < |modes| ::
      && modes[k].x == mode
      && forall j | k < j < |modes| :: Dist(modes[j].x, target) > Dist(mode, target)
  {
    var minIdx := 0;
    var i := 0;
    while i < |modes|
      invariant 0 <= i <= |modes| && 0 <= minIdx < |modes|
      invariant minIdx < i || minIdx == 0
      invariant forall j | 0 <= j < i :: Dist(modes[minIdx].x, target) <= Dist(modes[j].x, target)
      invariant forall j | minIdx < j < i :: Dist(modes[j].x, target) > Dist(modes[minIdx].x, target)
    {
      if Dist(modes[i].x, target) <= Dist(modes[minIdx].x, target) {
        minIdx := i;
      }
      i := i + 1;
    }
    mode := modes[minIdx].x;
  }
}
