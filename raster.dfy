/** The strip chart: how one sample becomes a column of pixels, which
    columns a redraw repaints, and which columns carry the cursor gap. */
module Raster {
  import opened History
  import opened Stats

  /** Chart height in pixels. */
  const Height: int := 512

  /** Pixels per garbage collection. */
  const CountScale: int := 16

  datatype Colour = Red | Green | Black

  // ---------------------------------------------------------------------
  // One column
  // ---------------------------------------------------------------------

  /** Colour of row y of a column whose time bar reaches timeY and whose
      collection bar reaches countY: red in the collection zone, green in
      the rest of the time zone, black above both. */
  function PixelColour(y: int, timeY: int, countY: int): (c: Colour)
    ensures c == Red <==> y <= countY
    ensures c == Green <==> countY < y <= timeY
    ensures c == Black <==> countY < y && timeY < y
  {
    if y <= countY then Red else if y <= timeY then Green else Black
  }

  /** Height of the time bar of a frame that took time ticks: the frame
      time scaled by 2 * Height / ticksPerSec (a frame of half a second
      fills the chart) and truncated toward zero. */
  function TimeHeight(time: int, ticksPerSec: int): (h: int)
    requires ticksPerSec > 0
    ensures time >= 0 ==> 0 <= h && h * ticksPerSec <= time * 2 * Height < (h + 1) * ticksPerSec
    ensures time <= 0 ==> h <= 0
  {
    TruncDiv(time * 2 * Height, ticksPerSec)
  }

  /** Height of the collection bar of a frame with gc collections. */
  function CountHeight(gc: int): int
  {
    gc * CountScale
  }

  /** A frame with no negative collection count always paints row 0 red. */
  lemma BottomRowRed(s: FrameState, ticksPerSec: int)
    requires ticksPerSec > 0 && s.gc >= 0
    ensures ColumnOf(s, ticksPerSec)[0] == Red
  {
  }

  /** The column, bottom row first, that shows the sample s. */
  function ColumnOf(s: FrameState, ticksPerSec: int): (col: seq<Colour>)
    requires ticksPerSec > 0
    ensures |col| == Height
  {
    seq(Height, y => PixelColour(y, TimeHeight(s.time, ticksPerSec), CountHeight(s.gc)))
  }

  /** An all-black column. */
  function BlackColumn(): seq<Colour>
  {
    seq(Height, _ => Black)
  }

  // ---------------------------------------------------------------------
  // Column ranges
  // ---------------------------------------------------------------------

  /** How many columns x lies ahead of from, going forward round the ring. */
  function CircDist(from: int, x: int): (d: int)
    requires 0 <= from < Width && 0 <= x < Width
    ensures 0 <= d < Width
  {
    if from <= x then x - from else x - from + Width
  }

  /** Going p columns forward from from lands p mod Width columns ahead. */
  lemma CircDistOfOffset(from: int, p: nat)
    requires 0 <= from < Width
    ensures CircDist(from, (from + p) % Width) == p % Width
  {
    var t := from + p;
    assert t == Width * (t / Width) + t % Width;
    assert p == Width * (p / Width) + p % Width;
    assert t % Width - from == p % Width + Width * (p / Width - t / Width);
    var k := p / Width - t / Width;
    assert -Width < t % Width - from < Width;
    if t % Width - from >= 0 {
      assert k == 0;
    } else {
      assert k == -1;
    }
  }

  /** The column the next frame is written to, i.e. the second cursor
      column: one past fi, wrapping from the last column to the first. */
  function NextColumn(fi: int): (c: int)
    requires 0 <= fi < Width
    ensures 0 <= c < Width && c == (fi + 1) % Width && CircDist(fi, c) == 1
  {
    if fi == Width - 1 then 0 else fi + 1
  }

  /** Column x is one of the two cursor columns at and after fi. */
  predicate IsCursor(fi: int, x: int)
    requires 0 <= fi < Width
  {
    x == fi || x == NextColumn(fi)
  }

  /** Column x is repainted by an incremental redraw from lastRendered to
      frameIndex: lastRendered up to frameIndex - 1, wrapping past the last
      column when lastRendered is not below frameIndex. */
  predicate InRedraw(lastRendered: int, frameIndex: int, x: int)
  {
    if lastRendered < frameIndex then lastRendered <= x < frameIndex
    else lastRendered <= x < Width || 0 <= x < frameIndex
  }

  /** The redraw is the circular half-open interval from lastRendered to
      frameIndex; when the two are equal it is the whole ring. */
  lemma RedrawIsCircularInterval(lastRendered: int, frameIndex: int, x: int)
    requires 0 <= lastRendered < Width && 0 <= frameIndex < Width && 0 <= x < Width
    ensures InRedraw(lastRendered, frameIndex, x)
        <==> lastRendered == frameIndex || CircDist(lastRendered, x) < CircDist(lastRendered, frameIndex)
  {
  }

  /** A column that an incremental redraw after p frames leaves alone and
      that is not a new cursor column was not a cursor column at the
      previous redraw, and, provided at most Width frames passed, no frame
      has been written to it since. */
  lemma StaleColumnsCovered(lastRendered: int, frameIndex: int, p: nat, x: int)
    requires 0 <= lastRendered < Width && 0 <= x < Width
    requires frameIndex == (lastRendered + p) % Width && lastRendered != frameIndex
    requires !InRedraw(lastRendered, frameIndex, x) && !IsCursor(frameIndex, x)
    ensures !IsCursor(lastRendered, x)
    ensures p <= Width ==> p <= CircDist(lastRendered, x)
  {
    CircDistOfOffset(lastRendered, p);
    RedrawIsCircularInterval(lastRendered, frameIndex, x);
    RedrawIsCircularInterval(lastRendered, frameIndex, lastRendered);
    RedrawIsCircularInterval(lastRendered, frameIndex, NextColumn(lastRendered));
    if p <= Width {
      assert p != Width;
      assert CircDist(lastRendered, frameIndex) == p;
    }
  }

  // ---------------------------------------------------------------------
  // The cursor gap as written
  // ---------------------------------------------------------------------

  /** What a column write does to a chart of Width columns: either the
      chart with column x replaced, or a write outside the texture. */
  datatype ColumnWrite = Written(pixels: seq<seq<Colour>>) | OutsideTexture

  /** Writes col into column x of pixels; the write lands only when x is
      one of the texture's columns. */
  function WriteColumn(pixels: seq<seq<Colour>>, x: int, col: seq<Colour>): (r: ColumnWrite)
    requires |pixels| == Width
    ensures r.OutsideTexture? <==> !(0 <= x < Width)
    ensures r.Written? ==> |r.pixels| == Width && r.pixels[x] == col
    ensures r.Written? ==> forall c :: 0 <= c < Width && c != x ==> r.pixels[c] == pixels[c]
  {
    if 0 <= x < Width then Written(pixels[x := col]) else OutsideTexture
  }

  /** The cursor gap as the source writes it: black columns at frameIndex
      and at frameIndex + 1, the second without wrapping. The write fails
      exactly when the cursor is on the last column; otherwise it blacks
      out the same two columns as the wrapped cursor gap and nothing else. */
  function CursorAsWritten(pixels: seq<seq<Colour>>, frameIndex: int): (r: ColumnWrite)
    requires |pixels| == Width && 0 <= frameIndex < Width
    ensures r.OutsideTexture? <==> frameIndex == Width - 1
    ensures r.Written? ==> r.pixels == pixels[frameIndex := BlackColumn()][NextColumn(frameIndex) := BlackColumn()]
  {
    match WriteColumn(pixels, frameIndex, BlackColumn())
    case OutsideTexture => OutsideTexture
    case Written(p) => WriteColumn(p, frameIndex + 1, BlackColumn())
  }
}
