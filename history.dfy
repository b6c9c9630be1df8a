/** The frame-sample ring of FrameGraph: one FrameState per frame, written
    into a fixed ring of Width slots at the write cursor, and the backward
    walk that the frame-rate estimate runs over the ring. */
module History {

  /** Number of slots in the ring; it is also the chart width in pixels. */
  const Width: int := 512

  /** One frame's sample: clock ticks elapsed and garbage collections
      counted since the previous frame. */
  datatype FrameState = FrameState(time: int, gc: int)

  /** The value every slot holds before anything is recorded. */
  const Empty: FrameState := FrameState(0, 0)

  /** The slot before f, going backward round the ring (0 steps back to Width - 1). */
  function Prev(f: int): (p: int)
    requires 0 <= f < Width
    ensures 0 <= p < Width && (p + 1) % Width == f
  {
    if f == 0 then Width - 1 else f - 1
  }

  /** The slot k steps backward from start. */
  function Back(start: int, k: int): int
  {
    (start - k) % Width
  }

  lemma PrevBack(start: int, k: int)
    requires 0 <= start < Width
    ensures 0 <= Back(start, k) < Width && Prev(Back(start, k)) == Back(start, k + 1)
  {
    var b := Back(start, k);
    if b == 0 {
      assert (start - k) == Width * ((start - k) / Width);
      assert (start - (k + 1)) == Width * ((start - k) / Width - 1) + (Width - 1);
    } else {
      assert (start - k) == Width * ((start - k) / Width) + b;
      assert (start - (k + 1)) == Width * ((start - k) / Width) + (b - 1);
    }
  }

  // ---------------------------------------------------------------------
  // The ring as a function of everything recorded so far
  // ---------------------------------------------------------------------

  /** The ring after the samples of log were written in order into an
      all-empty ring, the i-th sample into slot i % Width (the cursor starts
      at 0 and advances modulo Width after every write). */
  function Record(log: seq<FrameState>): (h: seq<FrameState>)
    ensures |h| == Width
  {
    if log == [] then seq(Width, _ => Empty)
    else Record(log[..|log| - 1])[(|log| - 1) % Width := log[|log| - 1]]
  }

  /** The ring holds the last min(|log|, Width) samples: the sample recorded
      k frames ago sits k slots behind the newest one. */
  lemma RecordHoldsLatest(log: seq<FrameState>, k: int)
    requires 0 <= k < |log| && k < Width
    ensures Record(log)[(|log| - 1 - k) % Width] == log[|log| - 1 - k]
  {
    RecordIsRing(log);
    SlotOfLatest(log, k);
  }

  /** In closed form, the sample recorded k frames ago is in the slot k behind the newest. */
  lemma SlotOfLatest(log: seq<FrameState>, k: int)
    requires 0 <= k < |log| && k < Width
    ensures Slot(log, (|log| - 1 - k) % Width) == log[|log| - 1 - k]
  {
    var a := |log| - 1 - k;
    var q, j := a / Width, a % Width;
    assert a == Width * q + j;
    DivWidth(|log| - 1 - j, q, k);
  }

  /** Slots the cursor has not reached yet still hold the empty sample. */
  lemma {:induction false} RecordUnwritten(log: seq<FrameState>, x: int)
    requires |log| <= x < Width
    ensures Record(log)[x] == Empty
  {
    if log != [] {
      RecordUnwritten(log[..|log| - 1], x);
    }
  }

  /** Once Width or more frames were recorded, reading the ring from the
      write cursor onward gives the last Width samples, oldest first. */
  lemma RingInOrder(log: seq<FrameState>, j: int)
    requires |log| >= Width && 0 <= j < Width
    ensures Record(log)[(|log| + j) % Width] == log[|log| - Width + j]
  {
    var n := |log|;
    var k := Width - 1 - j;
    RecordHoldsLatest(log, k);
    assert n - 1 - k == n - Width + j;
    ModWidthShift(n + j);
  }

  lemma ModWidthShift(a: int)
    ensures (a - Width) % Width == a % Width
  {
    assert a == Width * (a / Width) + a % Width;
    assert a - Width == Width * (a / Width - 1) + a % Width;
  }

  /** Slot k of the ring after the samples of log, in closed form: the
      newest sample whose index is k modulo Width, or Empty when the cursor
      has not reached slot k yet. */
  function Slot(log: seq<FrameState>, k: int): FrameState
    requires 0 <= k < Width
  {
    if k < |log| then log[k + Width * ((|log| - 1 - k) / Width)] else Empty
  }

  /** The ring after the samples of log, slot by slot. */
  function Ring(log: seq<FrameState>): (h: seq<FrameState>)
    ensures |h| == Width
  {
    seq(Width, k requires 0 <= k < Width => Slot(log, k))
  }

  /** Division by Width of a number written as Width * q + r. */
  lemma DivWidth(a: int, q: int, r: int)
    requires a == Width * q + r && 0 <= r < Width
    ensures a / Width == q
  {
    assert a == Width * (a / Width) + a % Width;
    assert Width * (q - a / Width) == a % Width - r;
  }

  /** One more sample changes slot k exactly when k is the cursor. */
  lemma SlotAfterAppend(log: seq<FrameState>, s: FrameState, k: int)
    requires 0 <= k < Width
    ensures Slot(log + [s], k) == if k == |log| % Width then s else Slot(log, k)
  {
    var n := |log|;
    var q, r := n / Width, n % Width;
    assert n == Width * q + r;
    if k == r {
      DivWidth(n - k, q, 0);
    } else if k < r {
      DivWidth(n - k, q, r - k);
      DivWidth(n - 1 - k, q, r - k - 1);
    } else if k < n {
      DivWidth(n - k, q - 1, Width + r - k);
      DivWidth(n - 1 - k, q - 1, Width + r - k - 1);
    }
  }

  /** One more sample changes the slot at the cursor and no other. */
  lemma RingAppend(log: seq<FrameState>, s: FrameState)
    ensures Ring(log + [s]) == Ring(log)[|log| % Width := s]
  {
    forall k | 0 <= k < Width
      ensures Ring(log + [s])[k] == Ring(log)[|log| % Width := s][k]
    {
      SlotAfterAppend(log, s, k);
    }
  }

  /** Writing the samples one by one at the advancing cursor gives the
      closed form: the reference ring and the slot-by-slot ring agree. */
  lemma {:induction false} RecordIsRing(log: seq<FrameState>)
    ensures Record(log) == Ring(log)
  {
    if log == [] {
      assert Ring(log) == seq(Width, _ => Empty);
    } else {
      var init := log[..|log| - 1];
      RecordIsRing(init);
      RingAppend(init, log[|log| - 1]);
      assert init + [log[|log| - 1]] == log;
    }
  }

  // ---------------------------------------------------------------------
  // The backward walk of the frame-rate estimate
  // ---------------------------------------------------------------------

  /** Total frame time of the n slots that end at start, walking backward:
      start, Back(start, 1), ..., Back(start, n - 1). */
  function BackSum(h: seq<FrameState>, start: int, n: nat): int
    requires |h| == Width && 0 <= start < Width
  {
    if n == 0 then 0 else BackSum(h, start, n - 1) + h[Back(start, n - 1)].time
  }

  /** What the walk produced: the summed ticks and the number of frames visited. */
  datatype Window = Window(totalTicks: int, numFrames: int)

  /** The walk from slot f with running totals: it stops when every slot
      has been visited or the total has reached limit. */
  function Walk(h: seq<FrameState>, f: int, total: int, frames: nat, limit: int): Window
    requires |h| == Width && 0 <= f < Width && frames <= Width
    decreases Width - frames
  {
    if frames < Width && total < limit then Walk(h, Prev(f), total + h[f].time, frames + 1, limit)
    else Window(total, frames)
  }

  /** The walk over the ring h that starts at the newest slot start. */
  function FpsWindow(h: seq<FrameState>, start: int, limit: int): Window
    requires |h| == Width && 0 <= start < Width
  {
    Walk(h, start, 0, 0, limit)
  }

  lemma {:induction false} WalkSpec(h: seq<FrameState>, start: int, f: int, total: int, frames: nat, limit: int)
    requires |h| == Width && 0 <= start < Width && frames <= Width
    requires f == Back(start, frames) && total == BackSum(h, start, frames)
    requires forall k :: 0 <= k < frames ==> BackSum(h, start, k) < limit
    requires frames == 0 ==> total < limit
    ensures var w := Walk(h, f, total, frames, limit);
      1 <= w.numFrames <= Width && w.totalTicks == BackSum(h, start, w.numFrames)
      && (w.numFrames == Width || w.totalTicks >= limit)
      && forall k :: 0 <= k < w.numFrames ==> BackSum(h, start, k) < limit
    decreases Width - frames
  {
    PrevBack(start, frames);
    if frames < Width && total < limit {
      WalkSpec(h, start, Prev(f), total + h[f].time, frames + 1, limit);
    }
  }

  /** The walk visits between 1 and Width frames, its total is the sum of the
      visited slots' times, it stops only once the total reached limit or the
      whole ring was visited, and it does not stop earlier than that. */
  lemma FpsWindowSpec(h: seq<FrameState>, start: int, limit: int)
    requires |h| == Width && 0 <= start < Width && limit > 0
    ensures var w := FpsWindow(h, start, limit);
      1 <= w.numFrames <= Width && w.totalTicks == BackSum(h, start, w.numFrames)
      && (w.numFrames == Width || w.totalTicks >= limit)
      && forall k :: 0 <= k < w.numFrames ==> BackSum(h, start, k) < limit
  {
    WalkSpec(h, start, start, 0, 0, limit);
  }

  lemma {:induction false} BackSumZero(h: seq<FrameState>, start: int, n: nat)
    requires |h| == Width && 0 <= start < Width
    requires forall i :: 0 <= i < Width ==> h[i].time == 0
    ensures BackSum(h, start, n) == 0
  {
    if n > 0 {
      BackSumZero(h, start, n - 1);
    }
  }

  /** Over a ring whose frame times are all zero the walk never reaches a
      positive limit: it visits all Width slots and sums to zero. */
  lemma ZeroRingWindow(h: seq<FrameState>, start: int, limit: int)
    requires |h| == Width && 0 <= start < Width && limit > 0
    requires forall i :: 0 <= i < Width ==> h[i].time == 0
    ensures FpsWindow(h, start, limit) == Window(0, Width)
  {
    FpsWindowSpec(h, start, limit);
    BackSumZero(h, start, FpsWindow(h, start, limit).numFrames);
  }
}
