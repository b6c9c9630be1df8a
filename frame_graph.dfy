/** The FrameGraph overlay: once per frame it samples the frame time and
    the garbage-collection count into the ring, keeps the extremes and the
    average frame rate, and, while the overlay is shown, repaints the
    columns of the strip-chart texture that went out of date. */
module Overlay {
  import opened History
  import opened Stats
  import opened Raster

  // ---------------------------------------------------------------------
  // The samples
  // ---------------------------------------------------------------------

  /** The ring h, the cursor and the extremes agree with what was recorded:
      h is the ring of the samples of log, the cursor is where the next one
      goes, and the extremes are those of the frame times since the last
      reset. */
  ghost predicate Tracks(h: seq<FrameState>, log: seq<FrameState>, sinceReset: seq<int>, frameIndex: int,
                         maxFrameTime: int, minFrameTime: int)
  {
    h == Ring(log) && frameIndex == |log| % Width
    && maxFrameTime == MaxSince(sinceReset) && minFrameTime == MinSince(sinceReset)
  }

  /** Sampling a frame keeps Tracks: the sample goes into the slot at the
      cursor, the cursor moves on, and each extreme takes the new frame
      time when it goes strictly past it. */
  lemma TracksAfterSample(h: seq<FrameState>, log: seq<FrameState>, sinceReset: seq<int>, frameIndex: int,
                          maxFrameTime: int, minFrameTime: int, s: FrameState)
    requires Tracks(h, log, sinceReset, frameIndex, maxFrameTime, minFrameTime)
    ensures Tracks(h[frameIndex := s], log + [s], sinceReset + [s.time], (frameIndex + 1) % Width,
                   if s.time > maxFrameTime then s.time else maxFrameTime,
                   if s.time < minFrameTime then s.time else minFrameTime)
  {
    RingAppend(log, s);
    CursorStep(|log|, frameIndex);
    ExtremesAfterSample(sinceReset, s.time);
  }

  // ---------------------------------------------------------------------
  // What the texture shows
  // ---------------------------------------------------------------------

  /** Column x shows the sample shown holds for it, unless it lies in the
      cursor gap at lastRendered. */
  ghost predicate ShowsColumn(pixels: seq<seq<Colour>>, shown: seq<FrameState>, lastRendered: int, x: int,
                              ticksPerSec: int)
    requires |pixels| == Width && |shown| == Width && 0 <= lastRendered < Width && ticksPerSec > 0
  {
    0 <= x < Width && !IsCursor(lastRendered, x) ==> pixels[x] == ColumnOf(shown[x], ticksPerSec)
  }

  /** The chart shows what shown records for each column: once the first
      repaint is done, the cursor gap at lastRendered is black and every
      other column shows the sample shown holds for it. */
  ghost predicate Displays(pixels: seq<seq<Colour>>, shown: seq<FrameState>, lastRendered: int, fullUpdate: bool,
                           ticksPerSec: int)
    requires |pixels| == Width && |shown| == Width && 0 <= lastRendered < Width && ticksPerSec > 0
  {
    !fullUpdate ==>
      pixels[lastRendered] == BlackColumn() && pixels[NextColumn(lastRendered)] == BlackColumn()
      && forall x :: ShowsColumn(pixels, shown, lastRendered, x, ticksPerSec)
  }

  /** Column x still shows the sample the ring h holds for it, if it lies
      outside the cursor gap and no frame has been written to it in the
      pending frames since the last repaint. */
  ghost predicate UpToDate(shown: seq<FrameState>, h: seq<FrameState>, lastRendered: int, pending: nat, x: int)
    requires |shown| == Width && |h| == Width && 0 <= lastRendered < Width
  {
    0 <= x < Width && !IsCursor(lastRendered, x) && pending <= CircDist(lastRendered, x) ==> shown[x] == h[x]
  }

  /** Which columns still show the sample the ring h holds for them: once
      the first repaint is done, every column UpToDate describes except the
      stale ones, whose sample the ring overwrote before a repaint reached them. */
  ghost predicate Current(shown: seq<FrameState>, h: seq<FrameState>, lastRendered: int, pending: nat,
                          fullUpdate: bool, stale: set<int>)
    requires |shown| == Width && |h| == Width && 0 <= lastRendered < Width
  {
    !fullUpdate ==> forall x :: x !in stale ==> UpToDate(shown, h, lastRendered, pending, x)
  }

  /** The stale columns after an incremental repaint from lastRendered to
      frameIndex, p frames after the previous repaint: of the columns the
      repaint leaves alone, those that were stale already, and all of them
      once more than Width frames went by (every slot was overwritten). */
  ghost function StaleAfter(stale: set<int>, lastRendered: int, frameIndex: int, p: nat): (s: set<int>)
    ensures forall x :: x in s ==> 0 <= x < Width && !InRedraw(lastRendered, frameIndex, x)
  {
    set x | 0 <= x < Width && !InRedraw(lastRendered, frameIndex, x) && (x in stale || p > Width)
  }

  /** While the overlay is shown at least once every Width frames, no column goes stale. */
  lemma NoStaleWhileShown(lastRendered: int, frameIndex: int, p: nat)
    requires p <= Width
    ensures StaleAfter({}, lastRendered, frameIndex, p) == {}
  {
    forall x ensures x !in StaleAfter({}, lastRendered, frameIndex, p) {
    }
  }

  /** A repaint one frame after the previous one draws exactly the column
      that frame wrote, so it clears that column and keeps the other stale ones. */
  lemma ShownFrameClears(stale: set<int>, lastRendered: int)
    requires 0 <= lastRendered < Width
    ensures StaleAfter(stale, lastRendered, NextColumn(lastRendered), 1)
         == set x | x in stale && 0 <= x < Width && x != lastRendered
  {
    var next := NextColumn(lastRendered);
    forall x | 0 <= x < Width
      ensures InRedraw(lastRendered, next, x) <==> x == lastRendered
    {
    }
  }

  /** The stale columns after k shown frames in a row, the first of them
      one frame after a repaint at lastRendered. */
  ghost function ShownRun(stale: set<int>, lastRendered: int, k: nat): set<int>
    requires 0 <= lastRendered < Width
    decreases k
  {
    if k == 0 then stale
    else ShownRun(StaleAfter(stale, lastRendered, NextColumn(lastRendered), 1), NextColumn(lastRendered), k - 1)
  }

  lemma {:induction false} ShownRunBound(stale: set<int>, lastRendered: int, k: nat)
    requires 0 <= lastRendered < Width
    ensures forall x :: x in ShownRun(stale, lastRendered, k) ==>
      x in stale && (k == 0 || (0 <= x < Width && k <= CircDist(lastRendered, x)))
    decreases k
  {
    if k > 0 {
      var next := NextColumn(lastRendered);
      ShownFrameClears(stale, lastRendered);
      ShownRunBound(StaleAfter(stale, lastRendered, next, 1), next, k - 1);
    }
  }

  /** The chart recovers: after Width shown frames in a row the cursor has
      passed every column, each was redrawn from the ring, and none is stale. */
  lemma ShownRunClears(stale: set<int>, lastRendered: int)
    requires 0 <= lastRendered < Width
    ensures ShownRun(stale, lastRendered, Width) == {}
  {
    ShownRunBound(stale, lastRendered, Width);
    forall x ensures x !in ShownRun(stale, lastRendered, Width) {
    }
  }

  /** Recording a frame at the slot pending columns past lastRendered
      leaves current every column Current promises current, with one frame
      more pending. */
  lemma CurrentAfterRecord(shown: seq<FrameState>, h: seq<FrameState>, lastRendered: int, pending: nat,
                           fullUpdate: bool, stale: set<int>, s: FrameState)
    requires |shown| == Width && |h| == Width && 0 <= lastRendered < Width
    requires Current(shown, h, lastRendered, pending, fullUpdate, stale)
    ensures Current(shown, h[(lastRendered + pending) % Width := s], lastRendered, pending + 1, fullUpdate, stale)
  {
    var h', pending' := h[(lastRendered + pending) % Width := s], pending + 1;
    if !fullUpdate {
      CircDistOfOffset(lastRendered, pending);
      forall x | x !in stale ensures UpToDate(shown, h', lastRendered, pending', x) {
        assert UpToDate(shown, h, lastRendered, pending, x);
      }
    }
  }

  /** An incremental repaint restores what the chart promises. Starting
      from a chart that displays shown with the gap at lastRendered, p frames
      before the cursor frameIndex, the repaint draws every column of the
      redraw range from the ring h (giving drawn and shown'), keeps the
      others, and blacks out the new gap: the chart then displays shown'
      with the gap at frameIndex and nothing pending, and every column is
      current except the ones StaleAfter names. */
  lemma RepaintRestores(pixels: seq<seq<Colour>>, shown: seq<FrameState>, drawn: seq<seq<Colour>>,
                        shown': seq<FrameState>, h: seq<FrameState>, lastRendered: int, frameIndex: int,
                        p: nat, stale: set<int>, ticksPerSec: int)
    requires |pixels| == Width && |shown| == Width && |drawn| == Width && |shown'| == Width && |h| == Width
    requires 0 <= lastRendered < Width && ticksPerSec > 0 && frameIndex == (lastRendered + p) % Width
    requires Displays(pixels, shown, lastRendered, false, ticksPerSec)
    requires Current(shown, h, lastRendered, p, false, stale)
    requires forall c :: 0 <= c < Width && InRedraw(lastRendered, frameIndex, c) ==>
      drawn[c] == ColumnOf(h[c], ticksPerSec) && shown'[c] == h[c]
    requires forall c :: 0 <= c < Width && !InRedraw(lastRendered, frameIndex, c) ==>
      drawn[c] == pixels[c] && shown'[c] == shown[c]
    ensures var pixels' := drawn[frameIndex := BlackColumn()][NextColumn(frameIndex) := BlackColumn()];
      Displays(pixels', shown', frameIndex, false, ticksPerSec)
      && Current(shown', h, frameIndex, 0, false, StaleAfter(stale, lastRendered, frameIndex, p))
  {
    var pixels' := drawn[frameIndex := BlackColumn()][NextColumn(frameIndex) := BlackColumn()];
    var stale' := StaleAfter(stale, lastRendered, frameIndex, p);
    forall c
      ensures ShowsColumn(pixels', shown', frameIndex, c, ticksPerSec)
      ensures c !in stale' ==> UpToDate(shown', h, frameIndex, 0, c)
    {
      if 0 <= c < Width && !IsCursor(frameIndex, c) && !InRedraw(lastRendered, frameIndex, c) {
        StaleColumnsCovered(lastRendered, frameIndex, p, c);
        assert ShowsColumn(pixels, shown, lastRendered, c, ticksPerSec);
        if c !in stale' {
          assert UpToDate(shown, h, lastRendered, p, c);
        }
      }
    }
  }

  /** Both cursors advance by one slot. */
  lemma CursorStep(a: int, b: int)
    requires a % Width == b
    ensures (a + 1) % Width == (b + 1) % Width
  {
    assert a == Width * (a / Width) + b;
    assert a + 1 == Width * (a / Width) + (b + 1);
  }

  /** The average frame rate the overlay holds after recomputing it over the
      ring h from the newest slot start: the new estimate, or prev when the
      window lasted no time. */
  function FpsAfter(h: seq<FrameState>, start: int, ticksPerSec: int, ticksPerMilliSec: int, prev: int): int
    requires |h| == Width && 0 <= start < Width
  {
    var w := FpsWindow(h, start, 5 * ticksPerSec);
    var avg := AvgFpsx10(w.numFrames, w.totalTicks, ticksPerMilliSec);
    if avg.Some? then avg.value else prev
  }

  class FrameGraph {
    /** The ring of per-frame samples. */
    const frameHistory: array<FrameState>
    /** The chart, Width columns by Height rows; texture[x, y] is row y of column x. */
    const texture: array2<Colour>
    /** Scratch column that DrawColumn fills before copying it into the texture. */
    const line: array<Colour>
    /** An all-black column (twice the height, of which one height is used). */
    const blackLine: array<Colour>
    /** Clock ticks per second and per millisecond, fixed at start-up. */
    const ticksPerSec: int
    const ticksPerMilliSec: int

    var frameIndex: int
    var lastRendered: int
    var lastTime: int
    var lastCount: int
    var maxFrameTime: int
    var minFrameTime: int
    var lastFpsTime: int
    var lastAvgFpsx10: int
    var fullUpdate: bool
    var showUI: bool

    /** Every sample recorded since start-up, oldest first. */
    ghost var log: seq<FrameState>
    /** The frame times sampled since start-up or the last reset. */
    ghost var sinceReset: seq<int>
    /** For each column, the sample it was last drawn from. */
    ghost var shown: seq<FrameState>
    /** The texture column by column: pixels[x][y] is texture[x, y]. */
    ghost var pixels: seq<seq<Colour>>
    /** Frames recorded since the texture was last repainted. */
    ghost var pending: nat
    /** The columns whose sample the ring overwrote before a repaint reached
        them (after more than Width frames went by unrepainted); a column
        leaves the set when a repaint draws it again. */
    ghost var stale: set<int>

    ghost predicate Shape()
      reads this`frameIndex, this`lastRendered, this`shown
    {
      frameHistory.Length == Width && texture.Length0 == Width && texture.Length1 == Height
      && line.Length == Height && blackLine.Length == 2 * Height && line != blackLine
      && 0 <= frameIndex < Width && 0 <= lastRendered < Width && |shown| == Width
      && ticksPerSec >= 1000 && ticksPerMilliSec == ticksPerSec / 1000
    }

    /** pixels is the texture's content. */
    ghost predicate Mirrors()
      reads this`pixels, texture
    {
      texture.Length0 == Width && texture.Length1 == Height && |pixels| == Width
      && (forall x :: 0 <= x < Width ==> |pixels[x]| == Height)
      && forall x, y :: 0 <= x < Width && 0 <= y < Height ==> texture[x, y] == pixels[x][y]
    }

    /** The ring, the cursor and the extremes agree with what was recorded. */
    ghost predicate Samples()
      reads this`frameIndex, this`log, this`sinceReset, this`maxFrameTime, this`minFrameTime, frameHistory
    {
      Tracks(frameHistory[..], log, sinceReset, frameIndex, maxFrameTime, minFrameTime)
    }

    /** The texture shows the cursor gap and the samples in shown, and those
        are current except where a frame was written since the last repaint. */
    ghost predicate Chart()
      reads this`frameIndex, this`lastRendered, this`shown, this`pending, this`fullUpdate, this`stale, this`pixels
      reads frameHistory, texture, blackLine
    {
      Shape() && Mirrors()
      && (forall i :: 0 <= i < blackLine.Length ==> blackLine[i] == Black)
      && frameIndex == (lastRendered + pending) % Width
      && Displays(pixels, shown, lastRendered, fullUpdate, ticksPerSec)
      && Current(shown, frameHistory[..], lastRendered, pending, fullUpdate, stale)
    }

    ghost predicate Valid()
      reads this`frameIndex, this`lastRendered, this`shown, this`log, this`sinceReset, this`maxFrameTime, this`minFrameTime
      reads this`pending, this`fullUpdate, this`stale, this`pixels, frameHistory, texture, blackLine
    {
      Samples() && Chart()
    }

    /** Start-up: an empty ring, the clock and collection count read once,
        extremes at their initial values and a full repaint pending. */
    constructor (startTime: int, frequency: int, gcCount: int)
      requires frequency >= 1000
      ensures Valid() && fresh(frameHistory) && fresh(texture) && fresh(line) && fresh(blackLine)
      ensures frameHistory[..] == Ring([]) && log == []
      ensures frameIndex == 0 && lastRendered == 0 && fullUpdate && !showUI
      ensures lastTime == startTime && lastCount == gcCount && ticksPerSec == frequency
      ensures maxFrameTime == 0 && minFrameTime == Sentinel && lastFpsTime == 0 && lastAvgFpsx10 == 0
    {
      var black := BlackLine();
      var history := EmptyHistory();
      frameHistory := history;
      var tex := new Colour[Width, Height];
      texture := tex;
      line := new Colour[Height];
      blackLine := black;
      ticksPerSec := frequency;
      ticksPerMilliSec := frequency / 1000;
      frameIndex, lastRendered := 0, 0;
      lastTime, lastCount := startTime, gcCount;
      maxFrameTime, minFrameTime := 0, Sentinel;
      lastFpsTime, lastAvgFpsx10 := 0, 0;
      fullUpdate, showUI := true, false;
      log, sinceReset, shown, pending, stale := [], [], history[..], 0, {};
      // the source leaves the texture's first content unspecified
      pixels := seq(Width, x requires 0 <= x < Width reads tex =>
                  seq(Height, y requires 0 <= y < Height reads tex => tex[x, y]));
    }

    /** A fresh column buffer of twice the chart height, all black. */
    static method BlackLine() returns (black: array<Colour>)
      ensures fresh(black) && black.Length == 2 * Height
      ensures forall j :: 0 <= j < black.Length ==> black[j] == Black
    {
      black := new Colour[2 * Height];
      var i := 0;
      while i < black.Length
        invariant 0 <= i <= black.Length
        invariant forall j :: 0 <= j < i ==> black[j] == Black
      {
        black[i] := Black;
        i := i + 1;
      }
    }

    /** A fresh ring of Width slots, all empty. */
    static method EmptyHistory() returns (history: array<FrameState>)
      ensures fresh(history) && history[..] == Ring([])
    {
      history := new FrameState[Width];
      var i := 0;
      while i < Width
        invariant 0 <= i <= Width
        invariant forall j :: 0 <= j < i ==> history[j] == Empty
      {
        history[i] := Empty;
        i := i + 1;
      }
      assert history[..] == Ring([]);
    }

    /** One frame: time is the clock reading, count the cumulative number of
        collections, togglePressed whether the show/hide key went down. */
    method Update(time: int, count: int, togglePressed: bool)
      requires Valid()
      modifies this, frameHistory, texture, line
      ensures Valid()
      // the sample goes into the slot at the old cursor, and nothing else in the ring changes
      ensures frameHistory[..] == old(frameHistory[..])[old(frameIndex) := FrameState(time - old(lastTime), count - old(lastCount))]
      ensures log == old(log) + [FrameState(time - old(lastTime), count - old(lastCount))]
      ensures frameIndex == (old(frameIndex) + 1) % Width
      ensures lastTime == time && lastCount == count
      // extremes
      ensures sinceReset == old(sinceReset) + [time - old(lastTime)]
      ensures maxFrameTime == (if time - old(lastTime) > old(maxFrameTime) then time - old(lastTime) else old(maxFrameTime))
      ensures minFrameTime == (if time - old(lastTime) < old(minFrameTime) then time - old(lastTime) else old(minFrameTime))
      // the frame rate, recomputed at most once a second
      ensures time - old(lastFpsTime) > ticksPerSec ==>
        lastFpsTime == time
        && lastAvgFpsx10 == FpsAfter(frameHistory[..], old(frameIndex), ticksPerSec, ticksPerMilliSec, old(lastAvgFpsx10))
      ensures time - old(lastFpsTime) <= ticksPerSec ==>
        lastFpsTime == old(lastFpsTime) && lastAvgFpsx10 == old(lastAvgFpsx10)
      // drawing
      ensures showUI == (old(showUI) != togglePressed)
      ensures fullUpdate ==> old(fullUpdate)
      ensures !showUI ==>
        unchanged(texture) && pixels == old(pixels) && lastRendered == old(lastRendered) && fullUpdate == old(fullUpdate)
        && pending == old(pending) + 1 && stale == old(stale)
      ensures showUI ==> !fullUpdate && lastRendered == frameIndex && pending == 0
      ensures showUI && old(fullUpdate) ==> stale == {}
      ensures showUI && !old(fullUpdate) ==> stale == StaleAfter(old(stale), old(lastRendered), frameIndex, old(pending) + 1)
      ensures showUI ==> pixels[frameIndex] == BlackColumn() && pixels[NextColumn(frameIndex)] == BlackColumn()
      ensures showUI ==> forall x :: 0 <= x < Width && !IsCursor(frameIndex, x) && x !in stale ==>
        pixels[x] == ColumnOf(frameHistory[x], ticksPerSec)
      // an incremental repaint draws the columns from the old lastRendered up to the cursor and no others
      ensures showUI && !old(fullUpdate) ==> forall x :: 0 <= x < Width && !IsCursor(frameIndex, x) ==>
        (InRedraw(old(lastRendered), frameIndex, x) ==> pixels[x] == ColumnOf(frameHistory[x], ticksPerSec))
        && (!InRedraw(old(lastRendered), frameIndex, x) ==> pixels[x] == old(pixels)[x])
    {
      Sample(time, count);
      Redraw(togglePressed);
    }

    /** The out-of-range cursor write is reached: a frame sampled into slot
        Width - 2 while the overlay is shown moves the cursor onto the last
        column, and the repaint that follows ends with the cursor write,
        which as written targets a column past the texture. */
    method CursorFaultReachable(time: int, count: int)
      requires Valid() && frameIndex == Width - 2 && showUI
      modifies this, frameHistory, texture, line
      ensures Valid() && showUI && frameIndex == Width - 1
      ensures CursorAsWritten(pixels, frameIndex) == OutsideTexture
    {
      assert (frameIndex + 1) % Width == Width - 1;
      Update(time, count, false);
    }

    /** The first half of Update: the frame is sampled into the slot at the
        cursor, the extremes take its time into account, the frame rate is
        recomputed when more than a second has passed since the last
        estimate, and the cursor moves on. */
    method Sample(time: int, count: int)
      requires Valid()
      modifies frameHistory, this`lastTime, this`lastCount, this`maxFrameTime, this`minFrameTime, this`sinceReset
      modifies this`lastFpsTime, this`lastAvgFpsx10, this`frameIndex, this`log, this`pending
      ensures Valid()
      ensures frameHistory[..] == old(frameHistory[..])[old(frameIndex) := FrameState(time - old(lastTime), count - old(lastCount))]
      ensures log == old(log) + [FrameState(time - old(lastTime), count - old(lastCount))]
      ensures frameIndex == (old(frameIndex) + 1) % Width && pending == old(pending) + 1
      ensures lastTime == time && lastCount == count
      ensures sinceReset == old(sinceReset) + [time - old(lastTime)]
      ensures maxFrameTime == (if time - old(lastTime) > old(maxFrameTime) then time - old(lastTime) else old(maxFrameTime))
      ensures minFrameTime == (if time - old(lastTime) < old(minFrameTime) then time - old(lastTime) else old(minFrameTime))
      ensures time - old(lastFpsTime) > ticksPerSec ==>
        lastFpsTime == time
        && lastAvgFpsx10 == FpsAfter(frameHistory[..], old(frameIndex), ticksPerSec, ticksPerMilliSec, old(lastAvgFpsx10))
      ensures time - old(lastFpsTime) <= ticksPerSec ==>
        lastFpsTime == old(lastFpsTime) && lastAvgFpsx10 == old(lastAvgFpsx10)
    {
      var newest := frameIndex;
      Store(time, count);
      // the source estimates the rate before it moves the cursor on; the
      // estimate reads only the ring and the last estimate, so making it
      // from the saved slot afterwards gives the same result
      NextFps(time, newest);
    }

    /** Records the frame into the slot at the cursor and moves the cursor on. */
    method Store(time: int, count: int)
      requires Valid()
      modifies frameHistory, this`lastTime, this`lastCount, this`maxFrameTime, this`minFrameTime, this`sinceReset
      modifies this`frameIndex, this`log, this`pending
      ensures Valid()
      ensures frameHistory[..] == old(frameHistory[..])[old(frameIndex) := FrameState(time - old(lastTime), count - old(lastCount))]
      ensures log == old(log) + [FrameState(time - old(lastTime), count - old(lastCount))]
      ensures frameIndex == (old(frameIndex) + 1) % Width && pending == old(pending) + 1
      ensures lastTime == time && lastCount == count
      ensures sinceReset == old(sinceReset) + [time - old(lastTime)]
      ensures maxFrameTime == (if time - old(lastTime) > old(maxFrameTime) then time - old(lastTime) else old(maxFrameTime))
      ensures minFrameTime == (if time - old(lastTime) < old(minFrameTime) then time - old(lastTime) else old(minFrameTime))
    {
      ghost var sample := FrameState(time - lastTime, count - lastCount);
      ghost var h0, log0, sr0, fi0, max0, min0, p0 := frameHistory[..], log, sinceReset, frameIndex, maxFrameTime, minFrameTime, pending;
      RecordFrame(time, count);
      Advance();
      TracksAfterSample(h0, log0, sr0, fi0, max0, min0, sample);
      CurrentAfterRecord(shown, h0, lastRendered, p0, fullUpdate, stale, sample);
      CursorStep(lastRendered + p0, fi0);
    }

    /** Samples the frame: the time since the previous frame and the
        collections since then go into the slot at the cursor, and the
        extremes take the new frame time into account. */
    method RecordFrame(time: int, count: int)
      requires frameHistory.Length == Width && 0 <= frameIndex < Width
      modifies frameHistory, this`maxFrameTime, this`minFrameTime, this`lastTime, this`lastCount
      ensures frameHistory[..] == old(frameHistory[..])[frameIndex := FrameState(time - old(lastTime), count - old(lastCount))]
      ensures maxFrameTime == (if time - old(lastTime) > old(maxFrameTime) then time - old(lastTime) else old(maxFrameTime))
      ensures minFrameTime == (if time - old(lastTime) < old(minFrameTime) then time - old(lastTime) else old(minFrameTime))
      ensures lastTime == time && lastCount == count
    {
      var timedelta := time - lastTime;
      if timedelta > maxFrameTime {
        maxFrameTime := timedelta;
      }
      if timedelta < minFrameTime {
        minFrameTime := timedelta;
      }
      lastTime := time;
      // the source stores the two fields of the slot one after the other,
      // with nothing reading the slot in between
      frameHistory[frameIndex] := FrameState(timedelta, count - lastCount);
      lastCount := count;
    }

    /** Moves the cursor on to the next slot, and notes the frame just
        recorded in the ghost history. */
    method Advance()
      requires frameHistory.Length == Width && 0 <= frameIndex < Width
      modifies this`frameIndex, this`log, this`sinceReset, this`pending
      ensures frameIndex == (old(frameIndex) + 1) % Width
      ensures log == old(log) + [frameHistory[old(frameIndex)]]
      ensures sinceReset == old(sinceReset) + [frameHistory[old(frameIndex)].time]
      ensures pending == old(pending) + 1
    {
      log := log + [frameHistory[frameIndex]];
      sinceReset := sinceReset + [frameHistory[frameIndex].time];
      pending := pending + 1;
      frameIndex := (frameIndex + 1) % Width;
    }

    /** Re-estimates the frame rate after a frame at time whose sample sits
        in slot newest: once more than a second has passed since the last
        estimate, the estimate becomes the average over the last five seconds
        of frames (at most Width of them), walking back from newest, and the
        stamp becomes time; until then both stay. A window that lasted no
        time keeps the current estimate but still takes the new stamp. */
    method NextFps(time: int, newest: int)
      requires Shape() && 0 <= newest < Width
      modifies this`lastFpsTime, this`lastAvgFpsx10
      ensures time - old(lastFpsTime) > ticksPerSec ==>
        lastFpsTime == time
        && lastAvgFpsx10 == FpsAfter(frameHistory[..], newest, ticksPerSec, ticksPerMilliSec, old(lastAvgFpsx10))
      ensures time - old(lastFpsTime) <= ticksPerSec ==>
        lastFpsTime == old(lastFpsTime) && lastAvgFpsx10 == old(lastAvgFpsx10)
    {
      if time - lastFpsTime > ticksPerSec {
        var totalTicks, numFrames := FpsWalk(newest);
        var avg := AvgFpsx10(numFrames, totalTicks, ticksPerMilliSec);
        if avg.Some? && avg.value != lastAvgFpsx10 {
          lastAvgFpsx10 := avg.value;
        }
        lastFpsTime := time;
      }
    }

    /** The second half of Update: the show/hide toggle, then, while the
        overlay is shown, the repaint of the texture. */
    method Redraw(togglePressed: bool)
      requires Valid()
      modifies this`showUI, this`fullUpdate, this`lastRendered, this`pending, this`stale, this`shown, this`pixels
      modifies texture, line
      ensures Valid()
      ensures showUI == (old(showUI) != togglePressed)
      ensures fullUpdate ==> old(fullUpdate)
      ensures !showUI ==>
        unchanged(texture) && pixels == old(pixels) && lastRendered == old(lastRendered) && fullUpdate == old(fullUpdate)
        && pending == old(pending) && stale == old(stale)
      ensures showUI ==> !fullUpdate && lastRendered == frameIndex && pending == 0
      ensures showUI && old(fullUpdate) ==> stale == {}
      ensures showUI && !old(fullUpdate) ==> stale == StaleAfter(old(stale), old(lastRendered), frameIndex, old(pending))
      ensures showUI ==> pixels[frameIndex] == BlackColumn() && pixels[NextColumn(frameIndex)] == BlackColumn()
      ensures showUI ==> forall x :: 0 <= x < Width && !IsCursor(frameIndex, x) && x !in stale ==>
        pixels[x] == ColumnOf(frameHistory[x], ticksPerSec)
      ensures showUI && !old(fullUpdate) ==> forall x :: 0 <= x < Width && !IsCursor(frameIndex, x) ==>
        (InRedraw(old(lastRendered), frameIndex, x) ==> pixels[x] == ColumnOf(frameHistory[x], ticksPerSec))
        && (!InRedraw(old(lastRendered), frameIndex, x) ==> pixels[x] == old(pixels)[x])
    {
      if togglePressed {
        showUI := !showUI;
      }
      if !showUI {
        return;
      }
      if fullUpdate {
        FullRedraw();
      } else {
        IncrementalRedraw();
      }
      forall x | 0 <= x < Width && !IsCursor(frameIndex, x) && x !in stale
        ensures pixels[x] == ColumnOf(frameHistory[x], ticksPerSec)
      {
        assert ShowsColumn(pixels, shown, lastRendered, x, ticksPerSec);
        assert UpToDate(shown, frameHistory[..], lastRendered, pending, x);
      }
    }

    /** The backward walk from slot start: it adds up frame times until
        they reach five seconds or the whole ring has been visited. */
    method FpsWalk(start: int) returns (totalTicks: int, numFrames: int)
      requires Shape() && 0 <= start < Width
      ensures Window(totalTicks, numFrames) == FpsWindow(frameHistory[..], start, 5 * ticksPerSec)
      ensures 1 <= numFrames <= Width && totalTicks == BackSum(frameHistory[..], start, numFrames)
      ensures numFrames == Width || totalTicks >= 5 * ticksPerSec
    {
      totalTicks := 0;
      numFrames := 0;
      var f := start;
      while numFrames < Width && totalTicks < 5 * ticksPerSec
        invariant 0 <= numFrames <= Width && 0 <= f < Width
        invariant Walk(frameHistory[..], f, totalTicks, numFrames, 5 * ticksPerSec)
               == FpsWindow(frameHistory[..], start, 5 * ticksPerSec)
        decreases Width - numFrames
      {
        totalTicks := totalTicks + frameHistory[f].time;
        f := if f == 0 then Width - 1 else f - 1;
        numFrames := numFrames + 1;
      }
      FpsWindowSpec(frameHistory[..], start, 5 * ticksPerSec);
    }

    /** Draws column x from its sample: red up to the collection bar, green
        up to the time bar, black above. */
    method DrawColumn(x: int)
      requires Shape() && Mirrors() && 0 <= x < Width
      modifies texture, line, this`shown, this`pixels
      ensures Mirrors()
      ensures pixels == old(pixels)[x := ColumnOf(frameHistory[x], ticksPerSec)]
      ensures shown == old(shown)[x := frameHistory[x]]
    {
      var timeY := TimeHeight(frameHistory[x].time, ticksPerSec);
      var countY := CountHeight(frameHistory[x].gc);
      var y := 0;
      while y < Height
        modifies line
        invariant 0 <= y <= Height
        invariant forall r :: 0 <= r < y ==> line[r] == PixelColour(r, timeY, countY)
      {
        var colour;
        if y <= countY {
          colour := Red;
        } else if y <= timeY {
          colour := Green;
        } else {
          colour := Black;
        }
        line[y] := colour;
        y := y + 1;
      }
      assert line[..Height] == ColumnOf(frameHistory[x], ticksPerSec);
      SetColumn(x, line);
      shown := shown[x := frameHistory[x]];
    }

    /** Copies the first Height entries of src into column x of the texture. */
    method SetColumn(x: int, src: array<Colour>)
      requires Mirrors() && 0 <= x < Width && src.Length >= Height
      modifies texture, this`pixels
      ensures Mirrors() && pixels == old(pixels)[x := src[..Height]]
    {
      forall y | 0 <= y < Height {
        texture[x, y] := src[y];
      }
      pixels := pixels[x := src[..Height]];
    }

    /** Blacks out the cursor gap: the column at the cursor and the one after it. */
    method DrawCursor()
      requires Shape() && Mirrors() && forall i :: 0 <= i < blackLine.Length ==> blackLine[i] == Black
      modifies texture, this`pixels
      ensures Mirrors()
      ensures pixels == old(pixels)[frameIndex := BlackColumn()][NextColumn(frameIndex) := BlackColumn()]
    {
      assert blackLine[..Height] == BlackColumn();
      SetColumn(frameIndex, blackLine);
      SetColumn(NextColumn(frameIndex), blackLine);
    }

    /** Draws columns lo up to hi - 1, one after the other. */
    method DrawColumns(lo: int, hi: int)
      requires Shape() && Mirrors() && 0 <= lo <= hi <= Width
      modifies texture, line, this`shown, this`pixels
      ensures Mirrors() && |shown| == Width
      ensures forall c :: lo <= c < hi ==> pixels[c] == ColumnOf(frameHistory[c], ticksPerSec) && shown[c] == frameHistory[c]
      ensures forall c :: 0 <= c < Width && !(lo <= c < hi) ==> pixels[c] == old(pixels)[c] && shown[c] == old(shown)[c]
    {
      var x := lo;
      while x < hi
        modifies texture, line, this`shown, this`pixels
        invariant lo <= x <= hi && Mirrors() && |shown| == Width
        invariant forall c :: lo <= c < x ==> pixels[c] == ColumnOf(frameHistory[c], ticksPerSec) && shown[c] == frameHistory[c]
        invariant forall c :: 0 <= c < Width && !(lo <= c < x) ==> pixels[c] == old(pixels)[c] && shown[c] == old(shown)[c]
      {
        DrawColumn(x);
        x := x + 1;
      }
    }

    /** Draws the columns from lastRendered = from up to the cursor to,
        wrapping round the ring: the whole ring when from equals to. */
    method DrawRange(from: int, to: int)
      requires Shape() && Mirrors() && 0 <= from < Width && 0 <= to < Width
      modifies texture, line, this`shown, this`pixels
      ensures Mirrors() && |shown| == Width
      ensures forall c :: 0 <= c < Width && InRedraw(from, to, c) ==>
        pixels[c] == ColumnOf(frameHistory[c], ticksPerSec) && shown[c] == frameHistory[c]
      ensures forall c :: 0 <= c < Width && !InRedraw(from, to, c) ==> pixels[c] == old(pixels)[c] && shown[c] == old(shown)[c]
    {
      // the source resets lastRendered to 0 after the wrap-around run and
      // overwrites it with the cursor once the range is drawn
      var start := from;
      if start >= to {
        DrawColumns(start, Width);
        start := 0;
      }
      DrawColumns(start, to);
    }

    /** The first repaint: every column, then the cursor gap. */
    method FullRedraw()
      requires Chart() && fullUpdate
      modifies this`fullUpdate, this`lastRendered, this`pending, this`stale, this`shown, this`pixels, texture, line
      ensures Chart() && !fullUpdate && lastRendered == frameIndex && pending == 0 && stale == {}
      ensures pixels[frameIndex] == BlackColumn() && pixels[NextColumn(frameIndex)] == BlackColumn()
      ensures forall x :: 0 <= x < Width && !IsCursor(frameIndex, x) ==> pixels[x] == ColumnOf(frameHistory[x], ticksPerSec)
    {
      DrawColumns(0, Width);
      DrawCursor();
      fullUpdate, lastRendered, pending, stale := false, frameIndex, 0, {};
    }

    /** Later repaints: the columns from lastRendered up to the cursor,
        wrapping round the ring, then the cursor gap. */
    method IncrementalRedraw()
      requires Chart() && !fullUpdate
      modifies this`lastRendered, this`pending, this`stale, this`shown, this`pixels, texture, line
      ensures Chart() && lastRendered == frameIndex && pending == 0
      ensures stale == StaleAfter(old(stale), old(lastRendered), frameIndex, old(pending))
      ensures pixels[frameIndex] == BlackColumn() && pixels[NextColumn(frameIndex)] == BlackColumn()
      ensures forall x :: 0 <= x < Width && InRedraw(old(lastRendered), frameIndex, x) && !IsCursor(frameIndex, x) ==>
        pixels[x] == ColumnOf(frameHistory[x], ticksPerSec)
      ensures forall x :: 0 <= x < Width && !InRedraw(old(lastRendered), frameIndex, x) && !IsCursor(frameIndex, x) ==>
        pixels[x] == old(pixels)[x]
    {
      DrawRange(lastRendered, frameIndex);
      CloseGap(old(pixels), old(shown));
    }

    /** The end of a later repaint: blacks out the cursor gap and notes that
        the chart is up to date with the cursor. pixels0 and shown0 are
        what the chart held before the range was drawn. */
    method CloseGap(ghost pixels0: seq<seq<Colour>>, ghost shown0: seq<FrameState>)
      requires Shape() && Mirrors() && (forall i :: 0 <= i < blackLine.Length ==> blackLine[i] == Black)
      requires |pixels0| == Width && |shown0| == Width && !fullUpdate
      requires frameIndex == (lastRendered + pending) % Width
      requires Displays(pixels0, shown0, lastRendered, false, ticksPerSec)
      requires Current(shown0, frameHistory[..], lastRendered, pending, false, stale)
      requires forall c :: 0 <= c < Width && InRedraw(lastRendered, frameIndex, c) ==>
        pixels[c] == ColumnOf(frameHistory[c], ticksPerSec) && shown[c] == frameHistory[c]
      requires forall c :: 0 <= c < Width && !InRedraw(lastRendered, frameIndex, c) ==>
        pixels[c] == pixels0[c] && shown[c] == shown0[c]
      modifies this`lastRendered, this`pending, this`stale, this`pixels, texture
      ensures Chart() && lastRendered == frameIndex && pending == 0
      ensures stale == StaleAfter(old(stale), old(lastRendered), frameIndex, old(pending))
      ensures pixels == old(pixels)[frameIndex := BlackColumn()][NextColumn(frameIndex) := BlackColumn()]
    {
      RepaintRestores(pixels0, shown0, pixels, shown, frameHistory[..], lastRendered, frameIndex, pending, stale, ticksPerSec);
      DrawCursor();
      lastRendered, stale, pending := frameIndex, StaleAfter(stale, lastRendered, frameIndex, pending), 0;
    }

    /** The Reset button: the extremes go back to their initial values;
        the ring, the cursor and the frame rate are left alone. */
    method ResetExtremes()
      requires Valid()
      modifies this`maxFrameTime, this`minFrameTime, this`sinceReset
      ensures Valid() && maxFrameTime == 0 && minFrameTime == Sentinel && sinceReset == []
      ensures frameHistory[..] == old(frameHistory[..]) && frameIndex == old(frameIndex)
      ensures lastAvgFpsx10 == old(lastAvgFpsx10) && lastFpsTime == old(lastFpsTime)
    {
      maxFrameTime := 0;
      minFrameTime := Sentinel;
      sinceReset := [];
    }
  }
}
