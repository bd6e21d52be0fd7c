/**
 * One `toolAction` of the brush, the airbrush or the eraser, as a function
 * of the buffer and of the per-stroke marks: the visits of the box around
 * the pointer, row by row, each one a per-pixel action gated by the shape
 * and by the pixel's mark.
 */
module Strokes {
  import opened Pixels
  import opened Shapes
  import opened Compositing
  import opened Settings

  /** The settings a stroke uses: tool, shape, thickness, opacity, density and the active colour. */
  datatype Pen = Pen(tool: Tool, shape: Shape, thickness: nat, opacity: real, density: real, colour: Rgba)

  predicate ValidPen(pen: Pen)
  {
    0.0 <= pen.opacity <= 1.0 && 0.0 <= pen.density <= 1.0
  }

  /** The tools that have a per-pixel action; the others have none to dispatch to. */
  predicate IsStrokeTool(t: Tool)
  {
    t == Brush || t == Airbrush || t == Eraser
  }

  /** The byte buffer together with the per-pixel marks of the current stroke. */
  datatype Layer = Layer(pixels: seq<Byte>, marks: seq<bool>)

  predicate Fits(s: Layer)
  {
    |s.pixels| == 4 * |s.marks|
  }

  /**
   * One tool action: canvas size, pen, pointer position, and `rand(i, j)`,
   * the number in [0, 1) the random source yields if visit (i, j) draws one.
   */
  datatype Action = Action(width: nat, height: nat, pen: Pen, rand: (int, int) -> real, x: int, y: int)

  /** The rows and columns of the box. */
  function Top(act: Action): int { BoxLow(act.y, act.pen.thickness) }
  function Bottom(act: Action): int { BoxHigh(act.y, act.pen.thickness, act.height) }
  function LeftEdge(act: Action): int { BoxLow(act.x, act.pen.thickness) }
  function RightEdge(act: Action): int { BoxHigh(act.x, act.pen.thickness, act.width) }

  /**
   * Visit (i, j) has nothing left to do: there is no per-pixel action for
   * the tool, the index is past the end of the buffer, the pixel is outside
   * the shape, or it is already marked in this stroke.
   */
  predicate Settled(s: Layer, act: Action, i: int, j: int)
  {
    var k := Offset(act.width, i, j);
    !IsStrokeTool(act.pen.tool) || !(0 <= k < |s.marks|) ||
    !Contains(act.pen.shape, j, i, act.x, act.y, act.pen.thickness) || s.marks[k]
  }

  /**
   * The per-pixel action `brush`, `airbrush` or `eraser` at visit (i, j). It
   * touches only the visited pixel, and only when that pixel is not yet
   * marked; afterwards the visit is settled.
   */
  function Step(s: Layer, act: Action, i: int, j: int): (r: Layer)
    requires Fits(s) && ValidPen(act.pen)
    ensures Fits(r) && Extends(s, r)
    ensures Settled(r, act, i, j)
    ensures Settled(s, act, i, j) ==> r == s
    ensures OnlyPixelTouched(s, r, Offset(act.width, i, j))
  {
    if Settled(s, act, i, j) then s
    else
      var k := Offset(act.width, i, j);
      var pen := act.pen;
      var marks := s.marks[k := true];
      var blended := WithPixel(s.pixels, k, Blend(PixelAt(s.pixels, k), pen.colour, pen.opacity));
      var erased := s.pixels[4 * k + 3 := EraseAlpha(s.pixels[4 * k + 3], pen.opacity)];
      WriteUnmarked(s, k, blended);
      WriteUnmarked(s, k, s.pixels);
      WriteUnmarked(s, k, erased);
      if pen.tool == Brush then Layer(blended, marks)
      else if pen.tool == Airbrush then Layer(if act.rand(i, j) < pen.density then blended else s.pixels, marks)
      else Layer(erased, marks)
  }

  /**
   * Rewriting the bytes of an unmarked pixel and marking it keeps every
   * other pixel as it was, the marked ones among them.
   */
  lemma WriteUnmarked(s: Layer, k: nat, pixels: seq<Byte>)
    requires Fits(s) && k < |s.marks| && !s.marks[k] && |pixels| == |s.pixels|
    requires forall b :: 0 <= b < |pixels| && !(4 * k <= b < 4 * k + 4) ==> pixels[b] == s.pixels[b]
    ensures Extends(s, Layer(pixels, s.marks[k := true]))
    ensures forall k' :: 0 <= k' < |s.marks| && k' != k ==> PixelAt(pixels, k') == PixelAt(s.pixels, k')
  {
    forall k' | 0 <= k' < |s.marks| && k' != k
      ensures PixelAt(pixels, k') == PixelAt(s.pixels, k')
    {
    }
  }

  /** Visits (i, j) .. (i, x1) in order. */
  function SweepRow(s: Layer, act: Action, i: int, j: int, x1: int): (r: Layer)
    requires Fits(s) && ValidPen(act.pen)
    ensures Fits(r) && |r.marks| == |s.marks|
    decreases x1 - j + 1
  {
    if j > x1 then s else SweepRow(Step(s, act, i, j), act, i, j + 1, x1)
  }

  /** Rows i .. y1, each over columns x0 .. x1. */
  function SweepRows(s: Layer, act: Action, i: int, y1: int, x0: int, x1: int): (r: Layer)
    requires Fits(s) && ValidPen(act.pen)
    ensures Fits(r) && |r.marks| == |s.marks|
    decreases y1 - i + 1
  {
    if i > y1 then s else SweepRows(SweepRow(s, act, i, x0, x1), act, i + 1, y1, x0, x1)
  }

  /**
   * The whole `toolAction`. It leaves every pixel already marked in this
   * stroke as it was and clears no mark.
   */
  function Sweep(s: Layer, act: Action): (r: Layer)
    requires Fits(s) && ValidPen(act.pen)
    ensures Fits(r) && Extends(s, r)
  {
    SweepRowsSettles(s, act, Top(act), Bottom(act), LeftEdge(act), RightEdge(act));
    SweepRows(s, act, Top(act), Bottom(act), LeftEdge(act), RightEdge(act))
  }

  /** `r` keeps every mark of `s`, and every pixel marked in `s` has the same four bytes in `r`. */
  predicate Extends(s: Layer, r: Layer)
    requires Fits(s)
  {
    |r.marks| == |s.marks| && |r.pixels| == |s.pixels| &&
    forall k :: 0 <= k < |s.marks| && s.marks[k] ==> r.marks[k] && PixelAt(r.pixels, k) == PixelAt(s.pixels, k)
  }

  /** `r` differs from `s` at most in the mark and the four bytes of pixel `k`. */
  predicate OnlyPixelTouched(s: Layer, r: Layer, k: int)
    requires Fits(s)
  {
    |r.marks| == |s.marks| && |r.pixels| == |s.pixels| &&
    forall k' :: 0 <= k' < |s.marks| && k' != k ==> r.marks[k'] == s.marks[k'] && PixelAt(r.pixels, k') == PixelAt(s.pixels, k')
  }

  /** A visit can only become settled. */
  lemma SettledStays(s: Layer, r: Layer, act: Action, i: int, j: int)
    requires Fits(s) && Extends(s, r) && Settled(s, act, i, j)
    ensures Settled(r, act, i, j)
  {
  }

  /** The row sweep keeps marks and marked pixels, and settles every visit of the row from column j on. */
  lemma {:induction false} SweepRowSettles(s: Layer, act: Action, i: int, j: int, x1: int)
    requires Fits(s) && ValidPen(act.pen)
    ensures Extends(s, SweepRow(s, act, i, j, x1))
    ensures forall j' :: j <= j' <= x1 ==> Settled(SweepRow(s, act, i, j, x1), act, i, j')
    decreases x1 - j + 1
  {
    if j <= x1 {
      var s' := Step(s, act, i, j);
      SweepRowSettles(s', act, i, j + 1, x1);
      var r := SweepRow(s', act, i, j + 1, x1);
      SettledStays(s', r, act, i, j);
    }
  }

  /** The sweep of rows i .. y1 keeps marks and marked pixels, and settles every visit of those rows. */
  lemma {:induction false} SweepRowsSettles(s: Layer, act: Action, i: int, y1: int, x0: int, x1: int)
    requires Fits(s) && ValidPen(act.pen)
    ensures Extends(s, SweepRows(s, act, i, y1, x0, x1))
    ensures forall i', j' :: i <= i' <= y1 && x0 <= j' <= x1 ==> Settled(SweepRows(s, act, i, y1, x0, x1), act, i', j')
    decreases y1 - i + 1
  {
    if i <= y1 {
      var s' := SweepRow(s, act, i, x0, x1);
      SweepRowSettles(s, act, i, x0, x1);
      SweepRowsSettles(s', act, i + 1, y1, x0, x1);
      var r := SweepRows(s', act, i + 1, y1, x0, x1);
      forall j' | x0 <= j' <= x1
        ensures Settled(r, act, i, j')
      {
        SettledStays(s', r, act, i, j');
      }
    }
  }

  /** Once every visit of the rows is settled, sweeping them again changes nothing. */
  lemma {:induction false} SweepRowsOfSettled(s: Layer, act: Action, i: int, y1: int, x0: int, x1: int)
    requires Fits(s) && ValidPen(act.pen)
    requires forall i', j' :: i <= i' <= y1 && x0 <= j' <= x1 ==> Settled(s, act, i', j')
    ensures SweepRows(s, act, i, y1, x0, x1) == s
    decreases y1 - i + 1
  {
    if i <= y1 {
      SweepRowOfSettled(s, act, i, x0, x1);
      SweepRowsOfSettled(s, act, i + 1, y1, x0, x1);
    }
  }

  lemma {:induction false} SweepRowOfSettled(s: Layer, act: Action, i: int, j: int, x1: int)
    requires Fits(s) && ValidPen(act.pen)
    requires forall j' :: j <= j' <= x1 ==> Settled(s, act, i, j')
    ensures SweepRow(s, act, i, j, x1) == s
    decreases x1 - j + 1
  {
    if j <= x1 {
      SweepRowOfSettled(s, act, i, j + 1, x1);
    }
  }

  /**
   * Stroke deduplication: a second tool action at the same centre, without a
   * new stroke in between, changes neither a pixel nor a mark, whatever the
   * random source yields the second time.
   */
  lemma SweepTwiceIsSweepOnce(s: Layer, act: Action, rand: (int, int) -> real)
    requires Fits(s) && ValidPen(act.pen)
    ensures Sweep(Sweep(s, act), act.(rand := rand)) == Sweep(s, act)
  {
    var r := Sweep(s, act);
    SweepRowsSettles(s, act, Top(act), Bottom(act), LeftEdge(act), RightEdge(act));
    var act' := act.(rand := rand);
    forall i', j' | Top(act) <= i' <= Bottom(act) && LeftEdge(act) <= j' <= RightEdge(act)
      ensures Settled(r, act', i', j')
    {
      assert Settled(r, act, i', j');
    }
    SweepRowsOfSettled(r, act', Top(act), Bottom(act), LeftEdge(act), RightEdge(act));
  }

  /**
   * After a tool action, every visit of the box whose index lies in the
   * buffer and whose pixel lies in the shape is marked (for the brush, the
   * airbrush and the eraser), whether or not the airbrush's draw succeeded.
   */
  lemma SweepMarksFootprint(s: Layer, act: Action, i: int, j: int)
    requires Fits(s) && ValidPen(act.pen) && IsStrokeTool(act.pen.tool)
    requires Top(act) <= i <= Bottom(act) && LeftEdge(act) <= j <= RightEdge(act)
    requires 0 <= Offset(act.width, i, j) < |s.marks|
    requires Contains(act.pen.shape, j, i, act.x, act.y, act.pen.thickness)
    ensures Sweep(s, act).marks[Offset(act.width, i, j)]
  {
    SweepRowsSettles(s, act, Top(act), Bottom(act), LeftEdge(act), RightEdge(act));
    assert Settled(Sweep(s, act), act, i, j);
  }

  /**
   * The footprint of a tool action: some visit (i, j) of the box whose pixel
   * lies in the shape has index `k`.
   */
  ghost predicate InFootprint(act: Action, k: int)
  {
    exists i, j :: Top(act) <= i <= Bottom(act) && LeftEdge(act) <= j <= RightEdge(act) &&
      Contains(act.pen.shape, j, i, act.x, act.y, act.pen.thickness) && Offset(act.width, i, j) == k
  }

  /**
   * A tool action touches only its footprint: every pixel outside it keeps
   * its mark and its four bytes.
   */
  lemma SweepKeepsOutside(s: Layer, act: Action, k: int)
    requires Fits(s) && ValidPen(act.pen) && 0 <= k < |s.marks| && !InFootprint(act, k)
    ensures Sweep(s, act).marks[k] == s.marks[k]
    ensures PixelAt(Sweep(s, act).pixels, k) == PixelAt(s.pixels, k)
  {
    RowsKeepOutside(s, act, Top(act), Bottom(act), LeftEdge(act), RightEdge(act), k);
  }

  lemma {:induction false} RowsKeepOutside(s: Layer, act: Action, i: int, y1: int, x0: int, x1: int, k: int)
    requires Fits(s) && ValidPen(act.pen) && 0 <= k < |s.marks|
    requires forall i', j' ::
      (i <= i' <= y1 && x0 <= j' <= x1 && Contains(act.pen.shape, j', i', act.x, act.y, act.pen.thickness)) ==>
      Offset(act.width, i', j') != k
    ensures SweepRows(s, act, i, y1, x0, x1).marks[k] == s.marks[k]
    ensures PixelAt(SweepRows(s, act, i, y1, x0, x1).pixels, k) == PixelAt(s.pixels, k)
    decreases y1 - i + 1
  {
    if i <= y1 {
      RowKeepsOutside(s, act, i, x0, x1, k);
      RowsKeepOutside(SweepRow(s, act, i, x0, x1), act, i + 1, y1, x0, x1, k);
    }
  }

  lemma {:induction false} RowKeepsOutside(s: Layer, act: Action, i: int, j: int, x1: int, k: int)
    requires Fits(s) && ValidPen(act.pen) && 0 <= k < |s.marks|
    requires forall j' ::
      (j <= j' <= x1 && Contains(act.pen.shape, j', i, act.x, act.y, act.pen.thickness)) ==>
      Offset(act.width, i, j') != k
    ensures SweepRow(s, act, i, j, x1).marks[k] == s.marks[k]
    ensures PixelAt(SweepRow(s, act, i, j, x1).pixels, k) == PixelAt(s.pixels, k)
    decreases x1 - j + 1
  {
    if j <= x1 {
      var s' := Step(s, act, i, j);
      if Offset(act.width, i, j) == k {
        assert Settled(s, act, i, j);
      }
      RowKeepsOutside(s', act, i, j + 1, x1, k);
    }
  }

  /** A tool whose name has no per-pixel action changes nothing. */
  lemma NonStrokeToolChangesNothing(s: Layer, act: Action)
    requires Fits(s) && ValidPen(act.pen) && !IsStrokeTool(act.pen.tool)
    ensures Sweep(s, act) == s
  {
    SweepRowsOfSettled(s, act, Top(act), Bottom(act), LeftEdge(act), RightEdge(act));
  }

  /** `r` differs from `s` at most in alpha bytes, and none of those grew. */
  predicate OnlyAlphaLowered(s: Layer, r: Layer)
  {
    |r.pixels| == |s.pixels| &&
    forall b :: 0 <= b < |s.pixels| ==> if b % 4 == 3 then r.pixels[b] <= s.pixels[b] else r.pixels[b] == s.pixels[b]
  }

  /** The eraser changes only alpha bytes, and only lowers them. */
  lemma EraserOnlyLowersAlpha(s: Layer, act: Action)
    requires Fits(s) && ValidPen(act.pen) && act.pen.tool == Eraser
    ensures OnlyAlphaLowered(s, Sweep(s, act))
  {
    EraserRowsLowerAlpha(s, act, Top(act), Bottom(act), LeftEdge(act), RightEdge(act));
  }

  lemma {:induction false} EraserRowsLowerAlpha(s: Layer, act: Action, i: int, y1: int, x0: int, x1: int)
    requires Fits(s) && ValidPen(act.pen) && act.pen.tool == Eraser
    ensures OnlyAlphaLowered(s, SweepRows(s, act, i, y1, x0, x1))
    decreases y1 - i + 1
  {
    if i <= y1 {
      var s' := SweepRow(s, act, i, x0, x1);
      EraserRowLowersAlpha(s, act, i, x0, x1);
      EraserRowsLowerAlpha(s', act, i + 1, y1, x0, x1);
      AlphaLoweredTransitive(s, s', SweepRows(s', act, i + 1, y1, x0, x1));
    }
  }

  lemma {:induction false} EraserRowLowersAlpha(s: Layer, act: Action, i: int, j: int, x1: int)
    requires Fits(s) && ValidPen(act.pen) && act.pen.tool == Eraser
    ensures OnlyAlphaLowered(s, SweepRow(s, act, i, j, x1))
    decreases x1 - j + 1
  {
    if j <= x1 {
      var s' := Step(s, act, i, j);
      EraserStepLowersAlpha(s, act, i, j);
      EraserRowLowersAlpha(s', act, i, j + 1, x1);
      AlphaLoweredTransitive(s, s', SweepRow(s', act, i, j + 1, x1));
    }
  }

  /** One eraser visit changes at most the alpha byte of its pixel, and lowers it. */
  lemma EraserStepLowersAlpha(s: Layer, act: Action, i: int, j: int)
    requires Fits(s) && ValidPen(act.pen) && act.pen.tool == Eraser
    ensures OnlyAlphaLowered(s, Step(s, act, i, j))
  {
    var r := Step(s, act, i, j);
    if Settled(s, act, i, j) {
      assert r == s;
    } else {
      var k := Offset(act.width, i, j);
      var v := EraseAlpha(s.pixels[4 * k + 3], act.pen.opacity);
      assert r.pixels == s.pixels[4 * k + 3 := v];
      AlphaByteLowered(s, r, k, v);
    }
  }

  /** Lowering the alpha byte of pixel `k` and nothing else only lowers an alpha. */
  lemma AlphaByteLowered(s: Layer, r: Layer, k: nat, v: Byte)
    requires 4 * k + 3 < |s.pixels| && v <= s.pixels[4 * k + 3] && r.pixels == s.pixels[4 * k + 3 := v]
    ensures OnlyAlphaLowered(s, r)
  {
    assert (4 * k + 3) % 4 == 3;
  }

  lemma AlphaLoweredTransitive(s: Layer, s': Layer, s'': Layer)
    requires OnlyAlphaLowered(s, s') && OnlyAlphaLowered(s', s'')
    ensures OnlyAlphaLowered(s, s'')
  {
  }

  /** The airbrush at density 0 marks the footprint but never blends a pixel. */
  lemma AirbrushZeroDensityKeepsPixels(s: Layer, act: Action)
    requires Fits(s) && ValidPen(act.pen) && act.pen.tool == Airbrush && act.pen.density == 0.0
    requires forall i, j :: 0.0 <= act.rand(i, j)
    ensures Sweep(s, act).pixels == s.pixels
  {
    AirbrushRowsKeepPixels(s, act, Top(act), Bottom(act), LeftEdge(act), RightEdge(act));
  }

  lemma {:induction false} AirbrushRowsKeepPixels(s: Layer, act: Action, i: int, y1: int, x0: int, x1: int)
    requires Fits(s) && ValidPen(act.pen) && act.pen.tool == Airbrush && act.pen.density == 0.0
    requires forall i, j :: 0.0 <= act.rand(i, j)
    ensures SweepRows(s, act, i, y1, x0, x1).pixels == s.pixels
    decreases y1 - i + 1
  {
    if i <= y1 {
      AirbrushRowKeepsPixels(s, act, i, x0, x1);
      AirbrushRowsKeepPixels(SweepRow(s, act, i, x0, x1), act, i + 1, y1, x0, x1);
    }
  }

  lemma {:induction false} AirbrushRowKeepsPixels(s: Layer, act: Action, i: int, j: int, x1: int)
    requires Fits(s) && ValidPen(act.pen) && act.pen.tool == Airbrush && act.pen.density == 0.0
    requires forall i, j :: 0.0 <= act.rand(i, j)
    ensures SweepRow(s, act, i, j, x1).pixels == s.pixels
    decreases x1 - j + 1
  {
    if j <= x1 {
      assert 0.0 <= act.rand(i, j);
      AirbrushRowKeepsPixels(Step(s, act, i, j), act, i, j + 1, x1);
    }
  }

  /** The airbrush at density 1 (every draw below 1) does exactly what the brush does. */
  lemma AirbrushFullDensityIsBrush(s: Layer, act: Action)
    requires Fits(s) && ValidPen(act.pen) && act.pen.tool == Airbrush && act.pen.density == 1.0
    requires forall i, j :: act.rand(i, j) < 1.0
    ensures Sweep(s, act) == Sweep(s, act.(pen := act.pen.(tool := Brush)))
  {
    var brush := act.(pen := act.pen.(tool := Brush));
    AirbrushRowsAsBrush(s, act, brush, Top(act), Bottom(act), LeftEdge(act), RightEdge(act));
  }

  lemma {:induction false} AirbrushRowsAsBrush(s: Layer, act: Action, brush: Action, i: int, y1: int, x0: int, x1: int)
    requires Fits(s) && ValidPen(act.pen) && act.pen.tool == Airbrush && act.pen.density == 1.0
    requires forall i, j :: act.rand(i, j) < 1.0
    requires brush == act.(pen := act.pen.(tool := Brush))
    ensures SweepRows(s, act, i, y1, x0, x1) == SweepRows(s, brush, i, y1, x0, x1)
    decreases y1 - i + 1
  {
    if i <= y1 {
      AirbrushRowAsBrush(s, act, brush, i, x0, x1);
      AirbrushRowsAsBrush(SweepRow(s, act, i, x0, x1), act, brush, i + 1, y1, x0, x1);
    }
  }

  lemma {:induction false} AirbrushRowAsBrush(s: Layer, act: Action, brush: Action, i: int, j: int, x1: int)
    requires Fits(s) && ValidPen(act.pen) && act.pen.tool == Airbrush && act.pen.density == 1.0
    requires forall i, j :: act.rand(i, j) < 1.0
    requires brush == act.(pen := act.pen.(tool := Brush))
    ensures SweepRow(s, act, i, j, x1) == SweepRow(s, brush, i, j, x1)
    decreases x1 - j + 1
  {
    if j <= x1 {
      assert act.rand(i, j) < 1.0;
      assert Step(s, act, i, j) == Step(s, brush, i, j);
      AirbrushRowAsBrush(Step(s, act, i, j), act, brush, i, j + 1, x1);
    }
  }
}
