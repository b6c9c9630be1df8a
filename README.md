# FrameGraph, modelled in Dafny

FrameGraph is a performance overlay for a game. On every frame it does four things:

1. It samples the time since the previous frame and the number of garbage collections since then. The sample goes into a ring of 512 slots (`frameHistory`) at the write cursor `frameIndex`.
2. It keeps the largest and smallest frame time seen since start-up or since the last press of Reset.
3. At most once a second, it estimates the average frame rate in tenths of a frame per second (`avgFpsx10`). The estimate walks backward through the ring until it has covered five seconds or every slot.
4. While the overlay is shown, it repaints the 512×512 strip-chart texture. Each column shows one sample: a red bar for the collections and a green bar for the frame time, with black above. The first repaint draws every column. Later repaints draw only the columns written since the last repaint, from `lastRendered` up to the cursor and wrapping round the ring. Every repaint ends by blacking out the two cursor columns.

The model has four modules:

- `History` (history.dfy) holds the ring and the backward walk.
  - `Record` is the reference definition of the ring: every sample written in turn at an advancing cursor.
  - `Ring` and `Slot` give the ring in closed form.
  - `FpsWindow` is the walk written as a recursive function, and `BackSum` is the sum of the slots it visits.
- `Stats` (stats.dfy) holds the extremes and the rate arithmetic.
  - `MaxSince` and `MinSince` give the extremes as folds over the frame times sampled since the last reset.
  - `TruncDiv` is C#'s `long` division, which truncates toward zero.
  - `AvgFpsx10` is the rate division.
- `Raster` (raster.dfy) holds the column colours, the bar heights, the circular redraw range and the cursor columns.
- `Overlay` (frame_graph.dfy) is the class `FrameGraph`. It has the source's fields, the array `frameHistory`, the two-dimensional array `texture`, the column buffers `line` and `blackLine`, and imperative methods with loops for `Update`, the walk, the column loops and `DrawColumn`.
  - Ghost state ties the fields to the reference definitions:
    - `log` is every sample recorded;
    - `sinceReset` is the frame times since the last reset;
    - `pixels` is the texture column by column;
    - `shown` is the sample each column was drawn from;
    - `pending` is the number of frames since the last repaint;
    - `stale` is the set of columns whose sample the ring overwrote before a repaint reached them.
  - `Valid()` says that the ring equals `Ring(log)` and that the extremes equal `MaxSince`/`MinSince` of `sinceReset`.
  - `Valid()` also says that, after the first repaint, the texture shows the cursor gap at `lastRendered` and every other column shows its `shown` sample.
  - Finally, `Valid()` says that `shown` agrees with the ring for every column outside `stale` that no frame was written to since.

Host inputs are parameters: the timestamp, the cumulative collection count, the clock frequency and the show/hide key press. `Update` takes the timestamp, the count and the key press; the constructor takes the frequency.

Some of the code's behaviour may not be what a reader expects of such an overlay. The model follows the code:

- An incremental repaint draws the half-open circular range from `lastRendered` up to but excluding `frameIndex`. It does not draw "after `lastRendered`, up to and including the write index" (FrameGraph.cs:186-195).
- Bar heights are truncated by an `(int)` cast, not rounded (FrameGraph.cs:208-209).
- The rate walk goes on while the total is below five seconds, so it stops once the total reaches five seconds, not only once it exceeds them (FrameGraph.cs:136).
- The rate division has no guard for a zero total. See Findings.
- The cursor columns are painted black, the same colour as the chart background (FrameGraph.cs:173-174, 199-200).
- One might expect incremental repaints to give the same picture as a full repaint. That holds while the overlay is shown at least once every 512 frames. If more than 512 frames go by while the overlay is hidden, the next repaint draws only the columns in the range from `lastRendered` to the cursor. Every other column keeps a sample the ring no longer holds, until the cursor comes round to it.
  - The model names these columns in the ghost set `stale`. `Update` states that every non-cursor column outside `stale` shows its ring slot, and how the repaint changes `stale` (`StaleAfter`).
  - The chart recovers without a full repaint. Each later shown frame redraws the column it just wrote, so it takes that column out of `stale` (`ShownFrameClears`). After 512 shown frames in a row, `stale` is empty (`ShownRunClears`).

## Model

| member | source | states |
|---|---|---|
| Overlay.FrameGraph.constructor | FrameGraph.cs:85-104 | empty ring, cursor and paint cursor at 0, full repaint pending, overlay hidden, extremes at 0 and 1000000000, the clock and collection count read once, ticks per millisecond = frequency / 1000; the invariant holds |
| Overlay.FrameGraph.BlackLine | FrameGraph.cs:90-92 | a fresh buffer of twice the chart height, every entry black |
| Overlay.FrameGraph.EmptyHistory | FrameGraph.cs:94-98 | a fresh ring of 512 slots, each holding time 0 and gc 0 |
| Overlay.FrameGraph.Update | FrameGraph.cs:110-204 | exactly one ring slot changes, the one at the old cursor, to (time - lastTime, count - lastCount); the cursor becomes (old + 1) % 512; each extreme takes the new frame time when it goes strictly past it; the rate is re-estimated and stamped only when more than a second has passed; the key press flips visibility; while hidden the texture, lastRendered, fullUpdate and the stale columns are untouched; when shown, fullUpdate ends false, lastRendered ends at the cursor, both cursor columns are black, an incremental repaint draws exactly the columns from the old lastRendered up to the cursor and leaves the others, the stale columns become StaleAfter of the old ones (none after the first repaint), and every non-cursor column that is not stale shows its ring slot; the invariant is kept |
| Overlay.FrameGraph.Sample | FrameGraph.cs:113-151 | the sampling half of Update: ring slot, cursor, extremes and gated rate as in Update |
| Overlay.FrameGraph.Store | FrameGraph.cs:113-129 | records the sample at the cursor, moves the cursor on and keeps the ring, extremes and chart invariants |
| Overlay.FrameGraph.RecordFrame | FrameGraph.cs:113-129 | the slot at the cursor becomes (time - lastTime, count - lastCount) and nothing else in the ring changes; max takes timedelta iff it is greater, min iff it is smaller; lastTime and lastCount take the new readings |
| Overlay.FrameGraph.Advance | FrameGraph.cs:151 | the cursor becomes (frameIndex + 1) % 512 |
| Overlay.FrameGraph.NextFps | FrameGraph.cs:131-149 | if more than ticksPerSec ticks have passed since the last estimate, lastFpsTime becomes time and lastAvgFpsx10 becomes the rate over the backward walk from the newest slot (kept when the walk lasted no time); otherwise both stay |
| Overlay.FpsAfter | FrameGraph.cs:142-148 | the rate estimate after a gated re-estimate: the tenths of frames per second over the backward walk from the newest slot, or the previous estimate when that walk summed to no time |
| Overlay.FrameGraph.FpsWalk | FrameGraph.cs:133-141 | the loop computes the reference walk FpsWindow; 1 <= numFrames <= 512, totalTicks is the sum of the visited slots, and the walk stopped because the total reached five seconds or all 512 slots were visited |
| Overlay.FrameGraph.Redraw | FrameGraph.cs:153-203 | the toggle and the repaint: the hidden/shown cases as in Update, including the exact range an incremental repaint draws and the new stale columns |
| Overlay.FrameGraph.FullRedraw | FrameGraph.cs:167-179 | every column shows its ring slot except the two cursor columns, which are black; fullUpdate becomes false and lastRendered becomes frameIndex |
| Overlay.FrameGraph.IncrementalRedraw | FrameGraph.cs:180-203 | columns in the circular range [lastRendered, frameIndex) show their ring slot, columns outside it and outside the cursor gap are untouched, the cursor columns are black, lastRendered becomes frameIndex, the stale columns become StaleAfter of the old ones; the chart invariant is restored |
| Overlay.FrameGraph.DrawRange | FrameGraph.cs:186-195 | draws exactly the columns of InRedraw(from, to): lastRendered..511 then 0..frameIndex-1 when lastRendered >= frameIndex (all 512 when equal), lastRendered..frameIndex-1 otherwise; every other column is unchanged |
| Overlay.FrameGraph.CloseGap | FrameGraph.cs:197-201 | blacks out the two cursor columns, sets lastRendered to the cursor and the stale columns to StaleAfter of the old ones; the chart invariant holds again |
| Overlay.FrameGraph.DrawColumns | FrameGraph.cs:170-171 | columns lo..hi-1 show their ring slot, all other columns are unchanged |
| Overlay.FrameGraph.DrawColumn | FrameGraph.cs:206-224 | column x becomes the column of its sample (red up to countY, green up to timeY, black above) and no other column changes |
| Overlay.FrameGraph.SetColumn | FrameGraph.cs:223 | column x of the texture becomes the first 512 entries of the buffer and nothing else changes |
| Overlay.FrameGraph.DrawCursor | FrameGraph.cs:173-174 | the column at the cursor and the next one (wrapping) become black; nothing else changes |
| Overlay.FrameGraph.ResetExtremes | FrameGraph.cs:254-260 | max becomes 0 and min 1000000000; the ring, the cursor and the rate state are untouched |
| Overlay.TracksAfterSample | FrameGraph.cs:113-151 | writing a sample at the cursor and advancing keeps the ring equal to the reference ring of all samples, and the extremes equal to those of the frame times since the reset |
| Overlay.CurrentAfterRecord | FrameGraph.cs:115-128 | recording a frame invalidates only the column of the slot it writes |
| Overlay.RepaintRestores | FrameGraph.cs:186-200 | drawing the redraw range and blacking out the new gap leaves every non-cursor column showing its recorded sample, and every column current except those StaleAfter names: the ones outside the range that were stale already, or all of them after more than 512 frames |
| Overlay.StaleAfter | FrameGraph.cs:186-195 | the stale columns after a repaint all lie outside the range it draws |
| Overlay.NoStaleWhileShown | FrameGraph.cs:186-195 | while the overlay is shown at least once every 512 frames no column goes stale |
| Overlay.ShownFrameClears | FrameGraph.cs:186-195 | a repaint one frame after the previous one draws exactly the column that frame wrote, and takes it out of the stale columns |
| Overlay.ShownRunBound | FrameGraph.cs:186-195 | after k shown frames in a row, every stale column was stale before and lies at least k columns past the starting lastRendered |
| Overlay.ShownRunClears | FrameGraph.cs:186-195 | after 512 shown frames in a row no column is stale: the chart has recovered without a full repaint |
| Overlay.CursorStep | FrameGraph.cs:151 | advancing the cursor modulo 512 commutes with counting frames |
| History.Record | FrameGraph.cs:115-151 | the ring after a log of samples, frame by frame: all (0, 0) for no frames, and each frame written into slot (its position) mod 512 |
| History.Slot | FrameGraph.cs:115-151 | slot k of the ring in closed form: the latest sample whose position is k mod 512, or (0, 0) when no frame has reached slot k |
| History.Ring | FrameGraph.cs:115-151 | the 512-slot ring in closed form, slot k being Slot(log, k) |
| History.BackSum | FrameGraph.cs:138 | the summed frame times of the n slots visited walking backward from start |
| History.Walk | FrameGraph.cs:136-141 | the walk loop from any point: add the current slot and step back while fewer than 512 frames are counted and the total is below the limit |
| History.FpsWindow | FrameGraph.cs:133-141 | the walk from the newest slot with a zero total and no frames counted, giving the summed ticks and the frames visited |
| History.Prev | FrameGraph.cs:139 | the backward step: 0 goes to 511, and one step forward undoes it |
| History.PrevBack | FrameGraph.cs:139 | k backward steps from start land on (start - k) mod 512 |
| History.RecordHoldsLatest | FrameGraph.cs:115-151 | the sample recorded k frames ago (k < 512) sits k slots behind the newest one |
| History.SlotOfLatest | FrameGraph.cs:115-151 | the same, for the closed form of the ring |
| History.RecordUnwritten | FrameGraph.cs:94-98 | slots the cursor has not reached still hold (0, 0) |
| History.RingInOrder | FrameGraph.cs:115-151 | after 512 or more frames, reading the ring from the cursor onward gives the last 512 samples, oldest first |
| History.RingAppend | FrameGraph.cs:115-151 | one more frame changes the closed-form ring at the cursor and nowhere else |
| History.SlotAfterAppend | FrameGraph.cs:115-151 | one more frame changes slot k iff k is the cursor |
| History.RecordIsRing | FrameGraph.cs:115-151 | the step-by-step ring equals its closed form |
| History.WalkSpec | FrameGraph.cs:133-141 | every suffix of the walk ends with 1..512 frames whose summed times are the total, and stops only at the five-second limit or the full ring |
| History.FpsWindowSpec | FrameGraph.cs:133-141 | the walk visits between 1 and 512 frames, its total is the sum of their times, it stops only at the limit or the full ring, and it does not stop earlier |
| History.BackSumZero | FrameGraph.cs:138 | over a ring of zero times every backward sum is 0 |
| History.ZeroRingWindow | FrameGraph.cs:133-141 | over a ring of zero times the walk visits all 512 slots and sums to 0 |
| Stats.MaxOfFirst | FrameGraph.cs:116-120 | the maximum after the first n frame times: 0 after none, and each frame time taken when strictly greater |
| Stats.MinOfFirst | FrameGraph.cs:121-125 | the minimum after the first n frame times: 1000000000 after none, and each frame time taken when strictly smaller |
| Stats.MaxSince | FrameGraph.cs:116-120 | the maximum after every frame time sampled since the last reset |
| Stats.MinSince | FrameGraph.cs:121-125 | the minimum after every frame time sampled since the last reset |
| Stats.MaxOfFirstIsMaximum | FrameGraph.cs:116-120 | the running maximum is at least 0, at least every sample, and is 0 or one of the samples |
| Stats.MinOfFirstIsMinimum | FrameGraph.cs:121-125 | the running minimum is at most 1000000000, at most every sample, and is 1000000000 or one of the samples |
| Stats.MaxSinceIsMaximum | FrameGraph.cs:116-120 | the maximum since the reset is the largest of 0 and the samples since then |
| Stats.MinSinceIsMinimum | FrameGraph.cs:121-125 | the minimum since the reset is the smallest of 1000000000 and the samples since then |
| Stats.ExtremesOfPrefix | FrameGraph.cs:116-125 | the extremes after the first n samples do not depend on later samples |
| Stats.ExtremesAfterSample | FrameGraph.cs:116-125 | one more sample is taken by each extreme iff it goes strictly past it |
| Stats.ExtremesMonotoneInLength | FrameGraph.cs:116-125 | more samples never lower the maximum nor raise the minimum |
| Stats.ExtremesMonotone | FrameGraph.cs:116-125 | between resets the maximum never decreases and the minimum never increases |
| Stats.FirstSampleAfterReset | FrameGraph.cs:256-258 | after a reset, the first sample strictly between 0 and 1000000000 becomes both the maximum and the minimum |
| Stats.TruncDiv | FrameGraph.cs:142 | C# long division: the quotient's magnitude is the floor of the magnitudes' quotient, and its sign is the product of the signs |
| Stats.AvgFpsx10 | FrameGraph.cs:142-147 | the corrected rate: present iff the total is non-zero, and then numFrames*10000*ticksPerMilliSec / totalTicks truncated toward zero |
| Stats.AvgFpsx10AsWritten | FrameGraph.cs:142 | the division as written throws iff the total is 0, and otherwise agrees with AvgFpsx10 |
| Stats.FirstFrameAtStartTimeFaults | FrameGraph.cs:94-98 | a first frame stamped at the start-up time leaves all 512 slot times 0; the walk covers all 512 and sums to 0, so the division as written throws |
| Raster.PixelColour | FrameGraph.cs:211-220 | red iff y <= countY, green iff countY < y <= timeY, black iff y is above both |
| Raster.TimeHeight | FrameGraph.cs:208 | the time bar height is time * 2 * 512 / ticksPerSec truncated: non-negative and a floor for non-negative times, non-positive for non-positive times |
| Raster.CountHeight | FrameGraph.cs:209 | the collection bar height: the collection count times 16 |
| Raster.ColumnOf | FrameGraph.cs:208-220 | the column of a sample: 512 rows, row y being PixelColour(y, TimeHeight(time), CountHeight(gc)) |
| Raster.InRedraw | FrameGraph.cs:186-195 | the columns the two repaint loops draw: lastRendered..frameIndex-1 when lastRendered < frameIndex, otherwise lastRendered..511 and then 0..frameIndex-1 |
| Raster.BottomRowRed | FrameGraph.cs:209-214 | with a non-negative collection count, row 0 is red |
| Raster.CircDistOfOffset | FrameGraph.cs:186-195 | p frames after lastRendered the cursor lies p mod 512 columns ahead of it |
| Raster.NextColumn | FrameGraph.cs:199-200 | the corrected second cursor column (frameIndex + 1) mod 512, one column ahead of the cursor |
| Raster.RedrawIsCircularInterval | FrameGraph.cs:186-195 | a column is redrawn iff it lies in the circular half-open range from lastRendered to frameIndex, and every column is redrawn when the two are equal |
| Raster.StaleColumnsCovered | FrameGraph.cs:186-200 | a column outside the redraw range and the new gap was outside the old gap, and no frame was written to it since the last repaint when at most 512 frames passed |
| Raster.WriteColumn | FrameGraph.cs:223 | a column write lands iff the column is one of the texture's 512, and then replaces that column and no other |
| Raster.CursorAsWritten | FrameGraph.cs:199-200 | the cursor gap as written (columns frameIndex and frameIndex + 1, unwrapped) leaves the texture iff the cursor is on column 511, and otherwise blacks out exactly the columns of the wrapped gap |
| Overlay.FrameGraph.CursorFaultReachable | FrameGraph.cs:151-200 | from any valid state with the overlay shown and the cursor on slot 510, the next frame moves the cursor to 511, and the cursor write that ends its repaint, as written, leaves the texture |

## Left out

- The host runtime is not part of this model. That covers `Stopwatch`, `GC.CollectionCount`, `DontDestroyOnLoad`, `Texture2D.Apply`, the modifier-key/`KeyCode.Equals` test and `OnDestroy`. Readings and the key press become parameters; `Apply` and `OnDestroy` have no effect on the model's state.
- The GUI is not modelled: `OnGUI`, the window layout in `WindowGUI`, the styles and window dragging. Only the Reset button's effect is modelled, as `ResetExtremes`.
- The label strings (`String.Format`) are not modelled, and neither is the `double` conversion of the rate label. These are formatting only; the integer values they show are modelled.
- Raster.TimeHeight: the source multiplies by the `double` `timeScale = 1024 / Frequency`. The model computes the exact quotient `time * 1024 / ticksPerSec`, truncated toward zero. Floating-point rounding of that product is not modelled, nor is the overflow of the `(int)` cast. The same holds for the collection bar: `CountHeight` is the exact `gc * 16`, without the overflow of `(int)(gc * countScale)` at FrameGraph.cs:209.
- Overlay.FrameGraph.Update: C# `long` arithmetic is modelled by unbounded integers, so 64-bit overflow is not captured. That covers the frame time, the collection delta and `numFrames * 10000 * ticksPerMilliSec`.
- Overlay.FrameGraph.Sample: the source walks back from the newest slot before the cursor advances. The model walks back from the saved slot afterwards, which reads the same ring and gives the same estimate.
- Overlay.FrameGraph.RecordFrame: the source writes the slot's two fields one after the other, with nothing reading the slot in between. The model writes the whole slot once.
- Overlay.FrameGraph.DrawRange: the source sets `lastRendered` to 0 after the wrapped part of the range and to the cursor at the end. The model uses a local variable for the intermediate 0, since nothing reads the field in between.
- Overlay.FrameGraph.constructor: the texture's content before the first repaint is left as the array allocation has it. The source does not specify it. It requires frequency >= 1000: the host's Stopwatch.Frequency always meets it, and below it ticksPerMilliSec (frequency / 1000, FrameGraph.cs:102) is 0 and the left-out label code at FrameGraph.cs:119 and 124 divides by it.
- Overlay.FrameGraph.FullRedraw: the contract states the texture afterwards, not that each column is drawn exactly once. The loop draws each column once.
- The second cursor write at column 512 is modelled only on values (`CursorAsWritten`); the class draws the wrapped column (see Findings). What Unity does with a write past the texture is not part of this model.
- Overlay.ShownRunClears: the recovery over 512 shown frames is stated on the stale sets, as `ShownRun`. It matches `Update`'s contract frame by frame: a shown frame right after a shown frame has `lastRendered` at the old cursor and one frame pending. The model has no method that runs 512 frames in a row.

## Findings

| source | as written | input that shows it | evidently intended | confidence | as-written member | corrected member |
|---|---|---|---|---|---|---|
| FrameGraph.cs:142 | `(numFrames * 10000 * ticksPerMilliSec) / totalTicks` with no check of `totalTicks` | the first frame arrives with the same timestamp as start-up: every slot holds time 0, the walk covers all 512 slots, totalTicks is 0 and the division throws | skip the estimate when the walk lasted no time, keeping the previous value | not executed | Stats.AvgFpsx10AsWritten, Stats.FirstFrameAtStartTimeFaults | Stats.AvgFpsx10 |
| FrameGraph.cs:199-200 | in an incremental repaint the second cursor column is `frameIndex + 1`, not wrapped | a shown frame sampled into slot 510: the cursor moves to 511 and the write targets column 512 of a 512-wide texture | the column after the cursor, `(frameIndex + 1) % 512`, i.e. column 0 | not executed | Raster.CursorAsWritten, Overlay.FrameGraph.CursorFaultReachable | Overlay.FrameGraph.DrawCursor |
| FrameGraph.cs:173-174 | the first, full repaint makes the same unwrapped write | the overlay is first shown on a frame sampled into slot 510 | the same wrapped column | not executed | Raster.CursorAsWritten | Overlay.FrameGraph.DrawCursor |
