/** The statistics FrameGraph derives from its samples: the all-time
    extremes of the frame time (between two resets) and the average frame
    rate, in tenths of a frame per second, over the backward walk. */
module Stats {
  import opened History

  /** Initial value of the minimum frame time, and the value Reset restores. */
  const Sentinel: int := 1000000000

  datatype Option<T> = None | Some(value: T)

  // ---------------------------------------------------------------------
  // Extremes
  // ---------------------------------------------------------------------

  /** The maximum the overlay holds after the first n frame times of ds
      (oldest first) were sampled since the last reset: it starts at 0 and
      takes every sample strictly above it. */
  function MaxOfFirst(ds: seq<int>, n: nat): int
    requires n <= |ds|
  {
    if n == 0 then 0
    else
      var m := MaxOfFirst(ds, n - 1);
      if ds[n - 1] > m then ds[n - 1] else m
  }

  /** The minimum after the first n frame times of ds: it starts at
      Sentinel and takes every sample strictly below it. */
  function MinOfFirst(ds: seq<int>, n: nat): int
    requires n <= |ds|
  {
    if n == 0 then Sentinel
    else
      var m := MinOfFirst(ds, n - 1);
      if ds[n - 1] < m then ds[n - 1] else m
  }

  /** The maximum after all the frame times ds sampled since the last reset. */
  function MaxSince(ds: seq<int>): int
  {
    MaxOfFirst(ds, |ds|)
  }

  /** The minimum after all the frame times ds sampled since the last reset. */
  function MinSince(ds: seq<int>): int
  {
    MinOfFirst(ds, |ds|)
  }

  /** The extremes after the first n samples do not depend on later ones. */
  lemma {:induction false} ExtremesOfPrefix(ds: seq<int>, more: seq<int>, n: nat)
    requires n <= |ds|
    ensures MaxOfFirst(ds + more, n) == MaxOfFirst(ds, n)
    ensures MinOfFirst(ds + more, n) == MinOfFirst(ds, n)
  {
    if n > 0 {
      ExtremesOfPrefix(ds, more, n - 1);
      assert (ds + more)[n - 1] == ds[n - 1];
    }
  }

  /** One more sample: each extreme takes it when it goes strictly past
      the extreme so far, and stays otherwise. */
  lemma ExtremesAfterSample(ds: seq<int>, t: int)
    ensures MaxSince(ds + [t]) == if t > MaxSince(ds) then t else MaxSince(ds)
    ensures MinSince(ds + [t]) == if t < MinSince(ds) then t else MinSince(ds)
  {
    ExtremesOfPrefix(ds, [t], |ds|);
  }

  lemma {:induction false} MaxOfFirstIsMaximum(ds: seq<int>, n: nat)
    requires n <= |ds|
    ensures 0 <= MaxOfFirst(ds, n)
    ensures forall i :: 0 <= i < n ==> ds[i] <= MaxOfFirst(ds, n)
    ensures MaxOfFirst(ds, n) == 0 || exists i :: 0 <= i < n && ds[i] == MaxOfFirst(ds, n)
  {
    if n > 0 {
      MaxOfFirstIsMaximum(ds, n - 1);
    }
  }

  lemma {:induction false} MinOfFirstIsMinimum(ds: seq<int>, n: nat)
    requires n <= |ds|
    ensures MinOfFirst(ds, n) <= Sentinel
    ensures forall i :: 0 <= i < n ==> MinOfFirst(ds, n) <= ds[i]
    ensures MinOfFirst(ds, n) == Sentinel || exists i :: 0 <= i < n && ds[i] == MinOfFirst(ds, n)
  {
    if n > 0 {
      MinOfFirstIsMinimum(ds, n - 1);
    }
  }

  /** The maximum is the largest of 0 and the samples. */
  lemma MaxSinceIsMaximum(ds: seq<int>)
    ensures 0 <= MaxSince(ds)
    ensures forall i :: 0 <= i < |ds| ==> ds[i] <= MaxSince(ds)
    ensures MaxSince(ds) == 0 || MaxSince(ds) in ds
  {
    MaxOfFirstIsMaximum(ds, |ds|);
  }

  /** The minimum is the smallest of Sentinel and the samples. */
  lemma MinSinceIsMinimum(ds: seq<int>)
    ensures MinSince(ds) <= Sentinel
    ensures forall i :: 0 <= i < |ds| ==> MinSince(ds) <= ds[i]
    ensures MinSince(ds) == Sentinel || MinSince(ds) in ds
  {
    MinOfFirstIsMinimum(ds, |ds|);
  }

  lemma {:induction false} ExtremesMonotoneInLength(ds: seq<int>, n: nat, m: nat)
    requires n <= m <= |ds|
    ensures MaxOfFirst(ds, n) <= MaxOfFirst(ds, m)
    ensures MinOfFirst(ds, m) <= MinOfFirst(ds, n)
    decreases m
  {
    if n < m {
      ExtremesMonotoneInLength(ds, n, m - 1);
    }
  }

  /** Between two resets the maximum never decreases and the minimum never
      increases, whatever is sampled. */
  lemma ExtremesMonotone(ds: seq<int>, more: seq<int>)
    ensures MaxSince(ds) <= MaxSince(ds + more)
    ensures MinSince(ds + more) <= MinSince(ds)
  {
    ExtremesOfPrefix(ds, more, |ds|);
    ExtremesMonotoneInLength(ds + more, |ds|, |ds + more|);
  }

  /** After a reset, the first sample strictly between 0 and Sentinel is
      both the new maximum and the new minimum. */
  lemma FirstSampleAfterReset(d: int)
    requires 0 < d < Sentinel
    ensures MaxSince([d]) == d && MinSince([d]) == d
  {
    assert MaxOfFirst([d], 0) == 0 && MinOfFirst([d], 0) == Sentinel;
  }

  // ---------------------------------------------------------------------
  // C# integer division
  // ---------------------------------------------------------------------

  function Abs(a: int): nat
  {
    if a < 0 then -a else a
  }

  lemma EuclidBounds(a: nat, b: nat)
    requires b > 0
    ensures 0 <= a / b
    ensures a == 0 ==> a / b == 0
    ensures (a / b) * b <= a < (a / b + 1) * b
  {
    assert a == b * (a / b) + a % b;
  }

  /** Division of C# `long`s, which truncates toward zero (Dafny's `/` is
      Euclidean): the quotient's magnitude is the floor of |a| / |b| and
      its sign is the product of the operands' signs. */
  function TruncDiv(a: int, b: int): (q: int)
    requires b != 0
    ensures Abs(q) * Abs(b) <= Abs(a) < (Abs(q) + 1) * Abs(b)
    ensures q != 0 ==> ((q > 0) <==> ((a > 0) == (b > 0)))
  {
    var m := Abs(a) / Abs(b);
    EuclidBounds(Abs(a), Abs(b));
    var q := if (a < 0) == (b < 0) then m else -m;
    assert Abs(q) == m;
    q
  }

  // ---------------------------------------------------------------------
  // Average frame rate
  // ---------------------------------------------------------------------

  /** Ten times the average frame rate over a window of numFrames frames
      lasting totalTicks clock ticks, with ticksPerMilliSec ticks per
      millisecond; None when the window lasted no time at all, in which case
      the overlay keeps its previous value. */
  function AvgFpsx10(numFrames: int, totalTicks: int, ticksPerMilliSec: int): (r: Option<int>)
    ensures r.Some? <==> totalTicks != 0
    ensures r.Some? ==>
      Abs(r.value) * Abs(totalTicks) <= Abs(numFrames * 10000 * ticksPerMilliSec)
                                      < (Abs(r.value) + 1) * Abs(totalTicks)
    ensures r.Some? && r.value != 0 ==>
      (r.value > 0 <==> (numFrames * 10000 * ticksPerMilliSec > 0) == (totalTicks > 0))
  {
    if totalTicks == 0 then None
    else Some(TruncDiv(numFrames * 10000 * ticksPerMilliSec, totalTicks))
  }

  /** The result of the rate division as the source writes it: either a
      value or the DivideByZeroException C# raises for a zero divisor. */
  datatype Outcome<T> = Completed(value: T) | DivideByZeroException

  /** The rate division exactly as written, without a guard on totalTicks. */
  function AvgFpsx10AsWritten(numFrames: int, totalTicks: int, ticksPerMilliSec: int): (r: Outcome<int>)
    ensures r.DivideByZeroException? <==> totalTicks == 0
    ensures r.Completed? ==> AvgFpsx10(numFrames, totalTicks, ticksPerMilliSec) == Some(r.value)
  {
    if totalTicks == 0 then DivideByZeroException
    else Completed(TruncDiv(numFrames * 10000 * ticksPerMilliSec, totalTicks))
  }

  /** The input that reaches the unguarded division: the first frame comes
      with the same timestamp as start-up, so every slot of the ring holds
      time 0; the walk then visits all Width slots, sums to 0 and the
      division as written throws, while the guarded rate is simply absent. */
  lemma FirstFrameAtStartTimeFaults(gcDelta: int, ticksPerSec: int)
    requires ticksPerSec >= 1000
    ensures var h := Record([FrameState(0, gcDelta)]);
      FpsWindow(h, 0, 5 * ticksPerSec) == Window(0, Width)
      && AvgFpsx10AsWritten(Width, 0, ticksPerSec / 1000).DivideByZeroException?
      && AvgFpsx10(Width, 0, ticksPerSec / 1000) == None
  {
    var h := Record([FrameState(0, gcDelta)]);
    assert [FrameState(0, gcDelta)][..0] == [];
    assert h == Record([])[0 := FrameState(0, gcDelta)];
    assert forall i :: 0 <= i < Width ==> Record([])[i] == Empty;
    assert forall i :: 0 <= i < Width ==> h[i].time == 0;
    ZeroRingWindow(h, 0, 5 * ticksPerSec);
  }
}
