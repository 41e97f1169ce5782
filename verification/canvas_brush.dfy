/** The paint brush: its colour, the number of interpolated marks drawn per
    dab, and the position of the last dab, plus the scheduling of brush
    marks as a queue of dabs is drained. A "mark" stands for one
    `glDrawArrays` of the brush quad at an offset; everything the GL does
    with it is left out. */
module CanvasBrush {
  import opened Pixels
  import opened CanvasDab
  import CanvasUtils

  /** Side of the square brush colour texture. */
  const BRUSH_PIXEL_SIZE: nat := 32

  /** Defaults of a new brush. */
  const DEFAULT_COLOR: Word := 0x0000_00ff
  const DEFAULT_DAB_STEPS: Int32 := 45

  /** One brush mark: the `uOffset` it is drawn at and the pressure of the
      dab it belongs to (the `uZoom` uniform is derived from it). */
  datatype Mark = Mark(x: real, y: real, pressure: real)

  /** The brush state that the scheduling depends on. `texture` is the
      contents of the brush colour texture; `lastX`/`lastY` are where the
      previous dab was. */
  datatype Brush = Brush(color: Word, dabSteps: Int32, texture: seq<Word>, lastX: real, lastY: real)
  {
    /** The colour texture always shows the brush colour. */
    predicate Valid()
    {
      && |texture| == BRUSH_PIXEL_SIZE * BRUSH_PIXEL_SIZE
      && forall i :: 0 <= i < |texture| ==> texture[i] == color
    }
  }

  /** The constructor: default colour and dab count, a colour texture of
      the default colour, and the last position at the origin (the value a
      Java `float` field starts with). */
  method NewBrush() returns (b: Brush)
    ensures b.color == 0x0000_00ff && b.dabSteps == 45
    ensures b.lastX == 0.0 && b.lastY == 0.0
    ensures b.Valid()
  {
    var t := CanvasUtils.MakeTexture(BRUSH_PIXEL_SIZE, BRUSH_PIXEL_SIZE, DEFAULT_COLOR);
    b := Brush(DEFAULT_COLOR, DEFAULT_DAB_STEPS, t.pixels, 0.0, 0.0);
  }

  function GetDabSteps(b: Brush): Int32
  {
    b.dabSteps
  }

  /** `setDabSteps` stores its argument unchecked; nothing else changes. */
  function SetDabSteps(b: Brush, steps: Int32): (r: Brush)
    ensures GetDabSteps(r) == steps
    ensures r.color == b.color && r.texture == b.texture
    ensures r.lastX == b.lastX && r.lastY == b.lastY
    ensures b.Valid() ==> r.Valid()
  {
    b.(dabSteps := steps)
  }

  function GetColor(b: Brush): Word
  {
    b.color
  }

  /** `setColor` rebuilds the colour texture in the new colour and stores
      the colour; the dab count and last position stay. */
  method SetColor(b: Brush, color: Word) returns (r: Brush)
    ensures GetColor(r) == color
    ensures r.Valid()
    ensures r.dabSteps == b.dabSteps && r.lastX == b.lastX && r.lastY == b.lastY
  {
    var t := CanvasUtils.MakeTexture(BRUSH_PIXEL_SIZE, BRUSH_PIXEL_SIZE, color);
    r := b.(texture := t.pixels, color := color);
  }

  // ---------------------------------------------------------------------
  // Dab scheduling (`drawQueue`)
  // ---------------------------------------------------------------------

  /** How often `while (i-- != 0)` runs when `i` starts at the Java `int`
      `n`: the loop stops only when the 32-bit counter reaches 0, so a
      negative start wraps round and runs `n + 2^32` times. */
  function LoopCount(n: Int32): (c: nat)
    ensures c < 0x1_0000_0000
    ensures (c - n) % 0x1_0000_0000 == 0
    ensures c == 0 <==> n == 0
    ensures n >= 0 ==> c == n
  {
    if n >= 0 then n else n + 0x1_0000_0000
  }

  /** The distance the brush moves per pass, `(dab - last) / dabSteps` in
      one coordinate. */
  function Step(target: real, last: real, steps: Int32): real
    requires steps != 0
  {
    (target - last) / (steps as real)
  }

  /** The marks of one dab from the point where `remaining` passes are left
      and the brush is at (x, y), moving by (sx, sy) per pass: draw a mark,
      stop after it for a new stroke, otherwise move and go on. */
  function Interpolate(dab: Dab, x: real, y: real, sx: real, sy: real, remaining: nat): seq<Mark>
    decreases remaining
  {
    if remaining == 0 then []
    else
      [Mark(x, y, dab.pressure)] +
      (if dab.newStroke then [] else Interpolate(dab, x + sx, y + sy, sx, sy, remaining - 1))
  }

  /** The marks drawn for one dab when the previous dab was at
      (lastX, lastY): a new stroke starts at the dab itself, a continuation
      at the previous position, and each pass moves by
      `(dab - last) / dabSteps`. */
  function DabMarks(dab: Dab, lastX: real, lastY: real, steps: Int32): seq<Mark>
  {
    var x := if dab.newStroke then dab.x else lastX;
    var y := if dab.newStroke then dab.y else lastY;
    if steps == 0 then []
    else Interpolate(dab, x, y, Step(dab.x, lastX, steps), Step(dab.y, lastY, steps), LoopCount(steps))
  }

  /** A new stroke draws a single mark at the dab, unless `dabSteps` is 0. */
  lemma NewStrokeMarks(dab: Dab, lastX: real, lastY: real, steps: Int32)
    requires dab.newStroke
    ensures steps != 0 ==> DabMarks(dab, lastX, lastY, steps) == [Mark(dab.x, dab.y, dab.pressure)]
    ensures steps == 0 ==> DabMarks(dab, lastX, lastY, steps) == []
  {
  }

  /** `k` passes of `s` from `x`. */
  function Advance(x: real, s: real, k: nat): (r: real)
    ensures r == x + (k as real) * s
    decreases k
  {
    if k == 0 then x else Advance(x + s, s, k - 1)
  }

  /** Along a continuation, mark `k` lies `k` passes from the start, and
      every mark carries the dab's pressure. */
  lemma {:induction false} InterpolateAt(dab: Dab, x: real, y: real, sx: real, sy: real,
                                         remaining: nat, k: nat)
    requires !dab.newStroke
    ensures |Interpolate(dab, x, y, sx, sy, remaining)| == remaining
    ensures k < remaining ==>
              Interpolate(dab, x, y, sx, sy, remaining)[k]
                == Mark(Advance(x, sx, k), Advance(y, sy, k), dab.pressure)
    decreases remaining
  {
    if remaining > 0 {
      var rest := Interpolate(dab, x + sx, y + sy, sx, sy, remaining - 1);
      assert Interpolate(dab, x, y, sx, sy, remaining) == [Mark(x, y, dab.pressure)] + rest;
      InterpolateAt(dab, x + sx, y + sy, sx, sy, remaining - 1, if k > 0 then k - 1 else 0);
    }
  }

  /** A continuation dab draws `dabSteps` marks (read as an unsigned 32-bit
      count); the `k`-th lies `k` steps of `(dab - last) / dabSteps` from
      the previous dab, so the first is at the previous position. */
  lemma ContinuationMarks(dab: Dab, lastX: real, lastY: real, steps: Int32, k: nat)
    requires !dab.newStroke
    ensures |DabMarks(dab, lastX, lastY, steps)| == LoopCount(steps)
    ensures k < LoopCount(steps) ==>
              steps != 0 &&
              DabMarks(dab, lastX, lastY, steps)[k]
                == Mark(lastX + (k as real) * Step(dab.x, lastX, steps),
                        lastY + (k as real) * Step(dab.y, lastY, steps),
                        dab.pressure)
    ensures 0 < LoopCount(steps) ==> DabMarks(dab, lastX, lastY, steps)[0] == Mark(lastX, lastY, dab.pressure)
  {
    if steps != 0 {
      var sx, sy := Step(dab.x, lastX, steps), Step(dab.y, lastY, steps);
      InterpolateAt(dab, lastX, lastY, sx, sy, LoopCount(steps), k);
      InterpolateAt(dab, lastX, lastY, sx, sy, LoopCount(steps), 0);
    }
  }

  /** How many marks one dab draws. */
  function MarkCount(dab: Dab, steps: Int32): nat
  {
    if dab.newStroke && steps != 0 then 1 else LoopCount(steps)
  }

  lemma DabMarkCount(dab: Dab, lastX: real, lastY: real, steps: Int32)
    ensures |DabMarks(dab, lastX, lastY, steps)| == MarkCount(dab, steps)
  {
    if dab.newStroke {
      NewStrokeMarks(dab, lastX, lastY, steps);
    } else {
      ContinuationMarks(dab, lastX, lastY, steps, 0);
    }
  }

  /** The brush after a batch and the marks drawn for it, in order. */
  datatype Drawn = Drawn(brush: Brush, marks: seq<Mark>)

  /** `drawQueue` as a fold over the queue, head first: each dab draws its
      marks from the current last position, then becomes the last
      position. */
  function DrawQueue(b: Brush, dabs: seq<Dab>): (r: Drawn)
    ensures dabs == [] ==> r == Drawn(b, [])
    ensures dabs != [] ==> r.brush == b.(lastX := dabs[|dabs| - 1].x, lastY := dabs[|dabs| - 1].y)
    ensures b.dabSteps == 0 ==> r.marks == []
    decreases |dabs|
  {
    if dabs == [] then Drawn(b, [])
    else
      var dab := dabs[0];
      var marks := DabMarks(dab, b.lastX, b.lastY, b.dabSteps);
      var rest := DrawQueue(b.(lastX := dab.x, lastY := dab.y), dabs[1..]);
      Drawn(rest.brush, marks + rest.marks)
  }

  /** Drawing a queue in two batches is drawing it at once: the second batch
      continues from where the first left the brush. */
  lemma {:induction false} DrawQueueBatches(b: Brush, first: seq<Dab>, second: seq<Dab>)
    ensures var r1 := DrawQueue(b, first);
            var r2 := DrawQueue(r1.brush, second);
            DrawQueue(b, first + second) == Drawn(r2.brush, r1.marks + r2.marks)
    decreases |first|
  {
    if first != [] {
      var dab := first[0];
      var next := b.(lastX := dab.x, lastY := dab.y);
      assert (first + second)[0] == dab;
      assert (first + second)[1..] == first[1..] + second;
      DrawQueueBatches(next, first[1..], second);
      var rest1 := DrawQueue(next, first[1..]);
      var r2 := DrawQueue(rest1.brush, second);
      var m := DabMarks(dab, b.lastX, b.lastY, b.dabSteps);
      calc {
        DrawQueue(b, first + second);
        Drawn(DrawQueue(next, first[1..] + second).brush, m + DrawQueue(next, first[1..] + second).marks);
        Drawn(r2.brush, m + (rest1.marks + r2.marks));
        { assert m + (rest1.marks + r2.marks) == (m + rest1.marks) + r2.marks; }
        Drawn(r2.brush, DrawQueue(b, first).marks + r2.marks);
      }
    } else {
      assert first + second == second;
    }
  }

  /** First in, first out: the marks of the dab queued last come after all
      the others, and start from the position of the dab queued before it. */
  lemma DrawQueueFifo(b: Brush, dabs: seq<Dab>, dab: Dab)
    ensures var r := DrawQueue(b, dabs);
            DrawQueue(b, dabs + [dab]).marks
              == r.marks + DabMarks(dab, r.brush.lastX, r.brush.lastY, b.dabSteps)
  {
    DrawQueueBatches(b, dabs, [dab]);
    var r := DrawQueue(b, dabs);
    assert r.brush.dabSteps == b.dabSteps;
  }

  /** The number of new-stroke dabs in a queue. */
  function NewStrokes(dabs: seq<Dab>): (n: nat)
    ensures n <= |dabs|
  {
    if dabs == [] then 0 else (if dabs[0].newStroke then 1 else 0) + NewStrokes(dabs[1..])
  }

  /** A queue draws one mark per new stroke and `dabSteps` per
      continuation; with `dabSteps` 0 no dab draws anything. */
  lemma {:induction false} DrawQueueMarkCount(b: Brush, dabs: seq<Dab>)
    ensures |DrawQueue(b, dabs).marks|
              == (if b.dabSteps == 0 then 0 else NewStrokes(dabs))
                 + (|dabs| - NewStrokes(dabs)) * LoopCount(b.dabSteps)
    decreases |dabs|
  {
    if dabs != [] {
      var dab := dabs[0];
      var next := b.(lastX := dab.x, lastY := dab.y);
      DabMarkCount(dab, b.lastX, b.lastY, b.dabSteps);
      DrawQueueMarkCount(next, dabs[1..]);
      var m, c := |dabs[1..]| - NewStrokes(dabs[1..]), LoopCount(b.dabSteps);
      if !dab.newStroke {
        assert |dabs| - NewStrokes(dabs) == m + 1;
        assert (m + 1) * c == m * c + c;
      }
    }
  }

  /** Drawing leaves the colour texture consistent with the colour. */
  lemma DrawQueueKeepsValid(b: Brush, dabs: seq<Dab>)
    requires b.Valid()
    ensures DrawQueue(b, dabs).brush.Valid()
  {
  }

  /** The loop of `drawQueue` as the source writes it: poll the queue until
      it is empty; for each dab count a 32-bit `i` down from `dabSteps`,
      emitting a mark per pass and breaking after the first for a new
      stroke; then record the dab as the last position. */
  method DrainQueue(brush: Brush, dabs: seq<Dab>) returns (after: Brush, marks: seq<Mark>, queue: seq<Dab>)
    ensures queue == []
    ensures Drawn(after, marks) == DrawQueue(brush, dabs)
  {
    after := brush;
    marks := [];
    queue := dabs;
    while queue != []
      invariant after.dabSteps == brush.dabSteps
      invariant DrawQueue(brush, dabs)
                  == Drawn(DrawQueue(after, queue).brush, marks + DrawQueue(after, queue).marks)
      decreases |queue|
    {
      var dab := queue[0];
      queue := queue[1..];
      var steps := after.dabSteps;
      var x, y;
      if dab.newStroke {
        x, y := dab.x, dab.y;
      } else {
        x, y := after.lastX, after.lastY;
      }
      var emitted := DrawDab(dab, after.lastX, after.lastY, steps, x, y);
      after := after.(lastX := dab.x, lastY := dab.y);
      marks := marks + emitted;
    }
  }

  /** Java's `i - 1` on an `int`: the least value wraps round to the
      greatest. */
  function Decrement(i: Int32): (r: Int32)
    ensures i != 0 ==> LoopCount(r) == LoopCount(i) - 1
  {
    if i == -0x8000_0000 then 0x7fff_ffff else i - 1
  }

  /** The inner loop of `drawQueue` for one dab, as the source writes it:
      the step is recomputed on every pass from the dab and the last
      position. Since the last position only changes after the loop, the
      marks are those of a constant step. */
  method DrawDab(dab: Dab, lastX: real, lastY: real, steps: Int32, x0: real, y0: real)
    returns (emitted: seq<Mark>)
    requires x0 == (if dab.newStroke then dab.x else lastX)
    requires y0 == (if dab.newStroke then dab.y else lastY)
    ensures emitted == DabMarks(dab, lastX, lastY, steps)
  {
    var x, y := x0, y0;
    var i: Int32 := steps;
    emitted := [];
    if steps == 0 {
      return;
    }
    ghost var sx, sy := Step(dab.x, lastX, steps), Step(dab.y, lastY, steps);
    ghost var target := Interpolate(dab, x0, y0, sx, sy, LoopCount(steps));
    assert target == DabMarks(dab, lastX, lastY, steps);
    while i != 0
      invariant emitted + Interpolate(dab, x, y, sx, sy, LoopCount(i)) == target
      decreases LoopCount(i)
    {
      ghost var rest := Interpolate(dab, x, y, sx, sy, LoopCount(i));
      ghost var px, py := x, y;
      ghost var before := emitted;
      i := Decrement(i);
      emitted := emitted + [Mark(x, y, dab.pressure)];
      if dab.newStroke {
        assert rest == [Mark(x, y, dab.pressure)];
        break;
      }
      x := x + (dab.x - lastX) / (steps as real);
      y := y + (dab.y - lastY) / (steps as real);
      assert x == px + sx && y == py + sy;
      ghost var tail := Interpolate(dab, x, y, sx, sy, LoopCount(i));
      assert rest == [Mark(px, py, dab.pressure)] + tail;
      assert emitted + tail == before + rest by {
        assert (before + [Mark(px, py, dab.pressure)]) + tail == before + ([Mark(px, py, dab.pressure)] + tail);
      }
    }
  }
}
