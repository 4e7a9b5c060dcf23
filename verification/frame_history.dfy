/**
 `FrameHistory` (gnc/sub8_perception/src/sub8_pcl/cv_utils.cc): a ring buffer
 holding the most recent `history_size` camera frames, and the query that
 returns a number of them in timestamp order.
 */
module FrameHistory {

  /**
   An `ImageWithCameraInfo`: its `image_time` stamp in nanoseconds and a
   handle standing for the image and camera-info messages.
   */
  datatype Frame = Frame(stamp: int, image: nat)

  /** The buffer, its capacity `history_size`, and `frame_count`. */
  datatype History = History(size: nat, buffer: seq<Frame>, count: nat)

  function Min(a: int, b: int): int
  {
    if a < b then a else b
  }

  /**
   The slot frame number `k` goes to in a buffer of capacity `size`:
   `k % size`, written as repeated subtraction (see `SlotIsRemainder`).
   */
  function Slot(k: nat, size: nat): (j: nat)
    requires size > 0
    ensures j < size
    decreases k
  {
    if k < size then k else Slot(k - size, size)
  }

  /** `Slot` is the remainder of the C++ code's `frame_count % history_size`. */
  lemma {:induction false} SlotIsRemainder(k: nat, size: nat)
    requires size > 0
    ensures Slot(k, size) == k % size
    decreases k
  {
    if k >= size {
      SlotIsRemainder(k - size, size);
      ModShift(k - size, size);
    }
  }

  /** The representation invariant: a positive capacity and `min(count, size)` stored frames. */
  predicate Valid(h: History)
  {
    h.size > 0 && |h.buffer| == Min(h.count, h.size)
  }

  /** A history right after construction: empty, no frame counted yet. */
  function Create(size: nat): (h: History)
    requires size > 0
    ensures Valid(h) && h.buffer == [] && h.count == 0
  {
    History(size, [], 0)
  }

  /**
   `FrameHistory::image_callback`: append while the buffer is not full,
   otherwise overwrite slot `Slot(count, size)`, that is `count % size`; either way count one more frame.
   */
  function ImageCallback(h: History, f: Frame): (r: History)
    requires h.size > 0
    ensures r.size == h.size && r.count == h.count + 1
    ensures |h.buffer| < h.size ==> r.buffer == h.buffer + [f]
    ensures |h.buffer| >= h.size ==>
      && |r.buffer| == |h.buffer|
      && r.buffer[Slot(h.count, h.size)] == f
      && forall j | 0 <= j < |h.buffer| && j != Slot(h.count, h.size) :: r.buffer[j] == h.buffer[j]
  {
    if |h.buffer| < h.size then h.(buffer := h.buffer + [f], count := h.count + 1)
    else h.(buffer := h.buffer[Slot(h.count, h.size) := f], count := h.count + 1)
  }

  /**
   On a valid history the new frame always lands in slot `Slot(count, size)`,
   whether it was appended or overwrote an old frame, the buffer never
   exceeds its capacity, and validity is kept.
   */
  lemma CallbackKeepsValid(h: History, f: Frame)
    requires Valid(h)
    ensures var r := ImageCallback(h, f);
      && Valid(r)
      && |r.buffer| <= r.size
      && r.buffer[Slot(h.count, h.size)] == f
  {
    var r := ImageCallback(h, f);
    if |h.buffer| < h.size {
      assert h.count < h.size;
    }
  }

  /** Feed frames to the history in order. */
  function Feed(h: History, fs: seq<Frame>): (r: History)
    requires h.size > 0
    ensures r.size == h.size && r.count == h.count + |fs|
    decreases |fs|
  {
    if fs == [] then h else Feed(ImageCallback(h, fs[0]), fs[1..])
  }

  /**
   The index of the latest of the first `n` frames that went to slot `j`,
   or -1 when none of them did.
   */
  function LatestIndex(j: nat, n: nat, size: nat): (k: int)
    requires size > 0
    ensures -1 <= k < n
    ensures k >= 0 ==> Slot(k, size) == j
    ensures forall i | k < i < n :: Slot(i, size) != j
  {
    if n == 0 then -1
    else if Slot(n - 1, size) == j then n - 1
    else LatestIndex(j, n - 1, size)
  }

  /**
   The frame in a slot is one of the last `size` frames: any earlier frame
   of that slot was followed by another one `size` frames later.
   */
  lemma LatestIsRecent(j: nat, n: nat, size: nat)
    requires size > 0 && LatestIndex(j, n, size) >= 0
    ensures n <= LatestIndex(j, n, size) + size
  {
    var k := LatestIndex(j, n, size);
    SlotShift(k, size);
  }

  /** Every slot of `h` holds the latest of the first `n` frames of `fs` that went to it. */
  predicate HoldsLatest(h: History, fs: seq<Frame>, n: nat)
    requires h.size > 0 && n <= |fs|
  {
    forall j: nat | j < |h.buffer| :: SlotHoldsLatest(h, fs, n, j)
  }

  /** Slot `j` of `h` holds the latest of the first `n` frames of `fs` that went to it. */
  predicate SlotHoldsLatest(h: History, fs: seq<Frame>, n: nat, j: nat)
    requires h.size > 0 && n <= |fs| && j < |h.buffer|
  {
    var k := LatestIndex(j, n, h.size);
    0 <= k && h.buffer[j] == fs[k]
  }

  /** Frame `n` of `fs` keeps every slot holding its latest frame. */
  lemma CallbackKeepsLatest(h0: History, fs: seq<Frame>, n: nat)
    requires Valid(h0) && n < |fs| && h0.count == n
    requires HoldsLatest(h0, fs, n)
    ensures HoldsLatest(ImageCallback(h0, fs[n]), fs, n + 1)
  {
    var h := ImageCallback(h0, fs[n]);
    CallbackKeepsValid(h0, fs[n]);
    var m := n + 1;
    forall j: nat | j < |h.buffer| ensures SlotHoldsLatest(h, fs, m, j) {
      if j == Slot(n, h0.size) {
        assert LatestIndex(j, n + 1, h.size) == n;
      } else {
        assert j < |h0.buffer| && SlotHoldsLatest(h0, fs, n, j);
        assert LatestIndex(j, n + 1, h.size) == LatestIndex(j, n, h0.size);
        assert h.buffer[j] == h0.buffer[j];
      }
    }
  }

  /** Adding `size` frames comes back to the same slot. */
  lemma SlotShift(k: nat, size: nat)
    requires size > 0
    ensures Slot(k + size, size) == Slot(k, size)
  {
  }

  /**
   The ring-buffer contents: after feeding the first `n` frames of `fs` to
   a fresh history, the buffer holds `min(n, size)` frames and slot `j`
   holds the latest of them whose index is congruent to `j` modulo `size`.
   */
  lemma {:induction false} RingContents(size: nat, fs: seq<Frame>, n: nat)
    requires size > 0 && n <= |fs|
    ensures Valid(FeedFresh(size, fs[..n]))
    ensures FeedFresh(size, fs[..n]).count == n
    ensures HoldsLatest(FeedFresh(size, fs[..n]), fs, n)
    decreases n
  {
    if n > 0 {
      RingContents(size, fs, n - 1);
      var h0 := FeedFresh(size, fs[..n - 1]);
      FeedLast(Create(size), fs[..n]);
      assert fs[..n][..n - 1] == fs[..n - 1];
      CallbackKeepsLatest(h0, fs, n - 1);
    } else {
      assert FeedFresh(size, fs[..n]) == Create(size);
    }
  }

  lemma ModShift(k: nat, size: nat)
    requires size > 0
    ensures (k + size) % size == k % size
  {
    ModUnique(k + size, k / size + 1, k % size, size);
  }

  lemma MulAtLeast(x: int, n: int)
    requires x >= 1 && n > 0
    ensures x * n >= n
  {
    if x > 1 {
      MulAtLeast(x - 1, n);
      assert x * n == (x - 1) * n + n;
    }
  }

  /** Euclidean remainder is determined by any quotient-remainder decomposition. */
  lemma ModUnique(a: int, q: int, r: int, n: int)
    requires n > 0 && 0 <= r < n && a == q * n + r
    ensures a % n == r
  {
    var q2, r2 := a / n, a % n;
    assert q2 * n + r2 == q * n + r;
    if q2 > q {
      assert (q2 - q) * n == q2 * n - q * n;
      MulAtLeast(q2 - q, n);
    } else if q2 < q {
      assert (q - q2) * n == q * n - q2 * n;
      MulAtLeast(q - q2, n);
    }
  }

  /** Feeding a fresh history of capacity `size`. */
  function FeedFresh(size: nat, fs: seq<Frame>): (h: History)
    requires size > 0
  {
    Feed(Create(size), fs)
  }

  /** Feeding `fs` is feeding all but its last frame, then the last one. */
  lemma {:induction false} FeedLast(h: History, fs: seq<Frame>)
    requires h.size > 0 && fs != []
    ensures Feed(h, fs) == ImageCallback(Feed(h, fs[..|fs| - 1]), fs[|fs| - 1])
    decreases |fs|
  {
    if |fs| > 1 {
      FeedLast(ImageCallback(h, fs[0]), fs[1..]);
      assert fs[1..][..|fs[1..]| - 1] == fs[..|fs| - 1][1..];
    } else {
      assert fs[..|fs| - 1] == [];
    }
  }

  // ---------------------------------------------------------------------
  // get_frame_history
  // ---------------------------------------------------------------------

  /** Frames in non-decreasing timestamp order: no frame is later than its successor. */
  predicate SortedByStamp(s: seq<Frame>)
  {
    forall i | 0 < i < |s| :: s[i - 1].stamp <= s[i].stamp
  }

  /** In a sorted sequence no frame is later than any frame after it. */
  lemma {:induction false} SortedPairs(s: seq<Frame>, i: nat, j: nat)
    requires SortedByStamp(s) && i <= j < |s|
    ensures s[i].stamp <= s[j].stamp
    decreases j - i
  {
    if i < j {
      SortedPairs(s, i, j - 1);
    }
  }

  /** Insert `f` into a sorted sequence, before the first frame with a later or equal stamp. */
  function Insert(f: Frame, s: seq<Frame>): (r: seq<Frame>)
    requires SortedByStamp(s)
    ensures SortedByStamp(r)
    ensures multiset(r) == multiset(s) + multiset{f}
    ensures |r| > 0 && (r[0] == f || (s != [] && r[0] == s[0]))
  {
    if s == [] then [f]
    else if f.stamp <= s[0].stamp then
      ConsSorted(f, s);
      [f] + s
    else
      var rest := Insert(f, s[1..]);
      assert multiset(s) == multiset{s[0]} + multiset(s[1..]) by {
        assert s == [s[0]] + s[1..];
      }
      ConsSorted(s[0], rest);
      [s[0]] + rest
  }

  /** Putting a frame no later than the head of a sorted sequence in front keeps it sorted. */
  lemma ConsSorted(x: Frame, rest: seq<Frame>)
    requires SortedByStamp(rest)
    requires rest != [] ==> x.stamp <= rest[0].stamp
    ensures SortedByStamp([x] + rest)
  {
    var r := [x] + rest;
    forall i | 0 < i < |r| ensures r[i - 1].stamp <= r[i].stamp {
      assert r[i] == rest[i - 1];
      if i > 1 {
        assert r[i - 1] == rest[i - 2];
      }
    }
  }

  /** Sort frames by timestamp (the `std::sort` of the buffer copy). */
  function Sort(s: seq<Frame>): (r: seq<Frame>)
    ensures SortedByStamp(r)
    ensures multiset(r) == multiset(s)
  {
    if s == [] then []
    else
      assert s == [s[0]] + s[1..];
      Insert(s[0], Sort(s[1..]))
  }

  /**
   `FrameHistory::get_frame_history`: nothing when fewer frames are stored
   than requested; otherwise exactly `requested` stored frames, in timestamp
   order, and none of the frames left out is older than any frame returned.
   */
  function GetFrameHistory(h: History, requested: nat): (r: seq<Frame>)
    ensures |h.buffer| < requested ==> r == []
    ensures |h.buffer| >= requested ==> |r| == requested
    ensures multiset(r) <= multiset(h.buffer)
    ensures SortedByStamp(r)
    ensures forall a, b | a in r && b in multiset(h.buffer) - multiset(r) :: a.stamp <= b.stamp
  {
    if |h.buffer| < requested then []
    else
      var sorted := Sort(h.buffer);
      SortedSplit(sorted, requested);
      sorted[..requested]
  }

  /**
   Splitting a sorted sequence at `n`: the two parts make up the whole
   multiset, and nothing in the front part is later than anything in the back.
   */
  lemma SortedSplit(s: seq<Frame>, n: nat)
    requires SortedByStamp(s) && n <= |s|
    ensures SortedByStamp(s[..n])
    ensures multiset(s[..n]) <= multiset(s)
    ensures multiset(s) - multiset(s[..n]) == multiset(s[n..])
    ensures forall a, b | a in s[..n] && b in multiset(s) - multiset(s[..n]) :: a.stamp <= b.stamp
  {
    assert s == s[..n] + s[n..];
    assert multiset(s) == multiset(s[..n]) + multiset(s[n..]);
    forall i | 0 < i < n ensures s[..n][i - 1].stamp <= s[..n][i].stamp {
      assert s[..n][i - 1] == s[i - 1] && s[..n][i] == s[i];
    }
    FrontBeforeBack(s, n);
    forall b | b in multiset(s[n..]) ensures b in s[n..] {
    }
  }

  /** In a sorted sequence split at `n`, no frame of the front is later than a frame of the back. */
  lemma FrontBeforeBack(s: seq<Frame>, n: nat)
    requires SortedByStamp(s) && n <= |s|
    ensures forall a, b | a in s[..n] && b in s[n..] :: a.stamp <= b.stamp
  {
    forall a, b | a in s[..n] && b in s[n..] ensures a.stamp <= b.stamp {
      var i :| 0 <= i < n && s[..n][i] == a;
      var j :| 0 <= j < |s| - n && s[n..][j] == b;
      SortedPairs(s, i, n + j);
    }
  }
}
