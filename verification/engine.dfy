/**
 * The drawing engine: the canvas's byte buffer and the per-pixel marks of
 * the current stroke, the tool settings, the active colour, and the undo
 * and redo stacks, with the operations the user interface calls on them.
 */
module Drawing {
  import opened Wrappers
  import opened Pixels
  import opened Shapes
  import opened Compositing
  import opened Settings
  import opened Strokes
  import opened FloodFill
  import Picking
  import History

  /** The tool settings and the active colour, as one value. */
  datatype Config = Config(tool: Tool, shape: Shape, thickness: nat, opacity: real, density: real,
                           threshold: real, colour: Rgba)

  class Engine {
    /** Canvas size in pixels. */
    const width: nat
    const height: nat
    /** The RGBA bytes of the canvas, four per pixel, row by row. */
    var data: array<Byte>
    /** One mark per pixel: already processed in the current stroke or fill. */
    const done: array<bool>
    var tool: Tool
    var shape: Shape
    var thickness: nat
    /** Opacity, density and threshold, each a fraction in 0..1. */
    var opacity: real
    var density: real
    var threshold: real
    /** The active colour; the colour widget holds it and the picker writes it. */
    var colour: Rgba
    /** Saved copies of the buffer; the top of each stack is its last element. */
    var undoStack: seq<seq<Byte>>
    var redoStack: seq<seq<Byte>>

    predicate Valid()
      reads this
    {
      data.Length == 4 * (width * height) && done.Length == width * height &&
      0.0 <= opacity <= 1.0 && 0.0 <= density <= 1.0 && 0.0 <= threshold <= 1.0 &&
      (forall e :: e in undoStack ==> |e| == data.Length) &&
      (forall e :: e in redoStack ==> |e| == data.Length)
    }

    function Settings(): Config
      reads this
    {
      Config(tool, shape, thickness, opacity, density, threshold, colour)
    }

    /** The buffer and the stacks, as the value the history operations act on. */
    function State(): History.History
      reads this, data
    {
      History.History(data[..], undoStack, redoStack)
    }

    /** The buffer and the marks, as the value a tool action acts on. */
    function Canvas(): Layer
      reads this, data, done
    {
      Layer(data[..], done[..])
    }

    function CurrentPen(): Pen
      reads this
    {
      Pen(tool, shape, thickness, opacity, density, colour)
    }

    /** A tool action at (x, y), with `rand` standing for the random source. */
    function ActionAt(x: int, y: int, rand: (int, int) -> real): Action
      reads this
    {
      Action(width, height, CurrentPen(), rand, x, y)
    }

    /** The stacks and the buffer object are left alone. */
    twostate predicate SameCanvas()
      reads this
    {
      data == old(data) && undoStack == old(undoStack) && redoStack == old(redoStack)
    }

    /**
     * A fresh `width` x `height` canvas of opaque white pixels with no marks
     * and empty stacks. The settings start from fixed values; the user
     * interface sets its own right after.
     */
    constructor (w: nat, h: nat)
      ensures Valid() && width == w && height == h
      ensures fresh(data) && fresh(done)
      ensures forall k :: 0 <= k < w * h ==> PixelAt(data[..], k) == White
      ensures forall k :: 0 <= k < w * h ==> !done[k]
      ensures undoStack == [] && redoStack == []
      ensures Settings() == Config(Brush, Circle, 1, 1.0, 1.0, 0.0, Rgba(0, 0, 0, 255))
    {
      var buffer := new Byte[4 * (w * h)];
      var i := 0;
      while i < buffer.Length
        invariant 0 <= i <= buffer.Length
        invariant forall b :: 0 <= b < i ==> buffer[b] == 255
      {
        buffer[i] := 255;
        i := i + 1;
      }
      width, height := w, h;
      data := buffer;
      done := new bool[w * h](_ => false);
      tool, shape, thickness := Brush, Circle, 1;
      opacity, density, threshold := 1.0, 1.0, 0.0;
      colour := Rgba(0, 0, 0, 255);
      undoStack, redoStack := [], [];
    }

    /** Select a tool by name; an unknown name leaves the tool as it was. */
    method SetTool(name: string) returns (current: Tool)
      requires Valid()
      modifies this
      ensures Valid() && SameCanvas() && current == tool
      ensures Settings() == old(Settings()).(tool := match ParseTool(name) case Some(t) => t case None => old(tool))
    {
      match ParseTool(name) {
        case Some(t) => tool := t;
        case None =>
      }
      current := tool;
    }

    /** Select a shape by name; an unknown name leaves the shape as it was. */
    method SetShape(name: string) returns (current: Shape)
      requires Valid()
      modifies this
      ensures Valid() && SameCanvas() && current == shape
      ensures Settings() == old(Settings()).(shape := match ParseShape(name) case Some(s) => s case None => old(shape))
    {
      match ParseShape(name) {
        case Some(s) => shape := s;
        case None =>
      }
      current := shape;
    }

    /** Set the opacity from a slider value in 0..100. */
    method SetOpacity(v: int) returns (current: real)
      requires Valid() && 0 <= v <= OpacityMax
      modifies this
      ensures Valid() && SameCanvas() && current == opacity
      ensures Settings() == old(Settings()).(opacity := Normalise(v, OpacityMax))
    {
      opacity := Normalise(v, OpacityMax);
      current := opacity;
    }

    /** Set the airbrush density from a slider value in 0..100. */
    method SetDensity(v: int) returns (current: real)
      requires Valid() && 0 <= v <= DensityMax
      modifies this
      ensures Valid() && SameCanvas() && current == density
      ensures Settings() == old(Settings()).(density := Normalise(v, DensityMax))
    {
      density := Normalise(v, DensityMax);
      current := density;
    }

    /** Set the filler threshold from a slider value in 0..100. */
    method SetThreshold(v: int) returns (current: real)
      requires Valid() && 0 <= v <= ThresholdMax
      modifies this
      ensures Valid() && SameCanvas() && current == threshold
      ensures Settings() == old(Settings()).(threshold := Normalise(v, ThresholdMax))
    {
      threshold := Normalise(v, ThresholdMax);
      current := threshold;
    }

    method SetThickness(t: nat) returns (current: nat)
      requires Valid()
      modifies this
      ensures Valid() && SameCanvas() && current == thickness
      ensures Settings() == old(Settings()).(thickness := t)
    {
      thickness := t;
      current := thickness;
    }

    /** What the colour widget does when the user picks a colour. */
    method SetColour(c: Rgba)
      requires Valid()
      modifies this
      ensures Valid() && SameCanvas()
      ensures Settings() == old(Settings()).(colour := c)
    {
      colour := c;
    }

    /** `alphaBlend`: composite the active colour over pixel `k`. */
    method AlphaBlend(k: nat)
      requires Valid() && 4 * k + 3 < data.Length
      modifies data
      ensures data[..] == WithPixel(old(data[..]), k, Blend(old(PixelAt(data[..], k)), colour, opacity))
    {
      ghost var before := data[..];
      var m := k * 4;
      var a := Coverage(colour.a, opacity);
      var na := Underneath(a, data[m + 3]);
      var da := a + na;
      data[m + 3] := Truncate(255.0 * da);
      if da != 0.0 {
        data[m + 0] := Mix(data[m + 0], colour.r, na, a);
        data[m + 1] := Mix(data[m + 1], colour.g, na, a);
        data[m + 2] := Mix(data[m + 2], colour.b, na, a);
      } else {
        data[m], data[m + 1], data[m + 2] := 0, 0, 0;
      }
      assert data[..] == WithPixel(before, k, Blend(PixelAt(before, k), colour, opacity));
    }

    /** `brush`: blend an unmarked pixel of the shape and mark it. */
    method BrushAt(i: int, j: int, x: int, y: int)
      requires Valid() && tool == Brush
      modifies data, done
      ensures forall rand :: Canvas() == Step(old(Canvas()), ActionAt(x, y, rand), i, j)
    {
      var k := width * i + j;
      if 0 <= k < done.Length && Contains(shape, j, i, x, y, thickness) && !done[k] {
        AlphaBlend(k);
        done[k] := true;
      }
    }

    /** `airbrush`: like the brush, but blend only when the draw `rand(i, j)` is below the density. */
    method AirbrushAt(i: int, j: int, x: int, y: int, rand: (int, int) -> real)
      requires Valid() && tool == Airbrush
      modifies data, done
      ensures Canvas() == Step(old(Canvas()), ActionAt(x, y, rand), i, j)
    {
      var k := width * i + j;
      if 0 <= k < done.Length && Contains(shape, j, i, x, y, thickness) && !done[k] {
        if rand(i, j) < density {
          AlphaBlend(k);
        }
        done[k] := true;
      }
    }

    /** `eraser`: lower the alpha of an unmarked pixel of the shape and mark it. */
    method EraserAt(i: int, j: int, x: int, y: int)
      requires Valid() && tool == Eraser
      modifies data, done
      ensures forall rand :: Canvas() == Step(old(Canvas()), ActionAt(x, y, rand), i, j)
    {
      var k := width * i + j;
      if 0 <= k < done.Length && Contains(shape, j, i, x, y, thickness) && !done[k] {
        var m := k * 4;
        data[m + 3] := EraseAlpha(data[m + 3], opacity);
        done[k] := true;
      }
    }

    /** The per-pixel action of the active tool; the filler and the picker have none, and nothing changes. */
    method PixelAction(i: int, j: int, x: int, y: int, rand: (int, int) -> real)
      requires Valid()
      modifies data, done
      ensures Canvas() == Step(old(Canvas()), ActionAt(x, y, rand), i, j)
    {
      match tool {
        case Brush => BrushAt(i, j, x, y);
        case Airbrush => AirbrushAt(i, j, x, y, rand);
        case Eraser => EraserAt(i, j, x, y);
        case _ =>
      }
    }

    /** `toolAction`: visit the box around (x, y), both ends included, row by row. */
    method ToolAction(x: int, y: int, rand: (int, int) -> real)
      requires Valid()
      modifies data, done
      ensures Canvas() == Sweep(old(Canvas()), ActionAt(x, y, rand))
    {
      var y0, y1 := BoxLow(y, thickness), BoxHigh(y, thickness, height);
      var x0, x1 := BoxLow(x, thickness), BoxHigh(x, thickness, width);
      ToolActionRows(y0, y1, x0, x1, x, y, rand);
    }

    /** The outer loop of `toolAction`: visits rows i0 .. y1 in order. */
    method ToolActionRows(i0: int, y1: int, x0: int, x1: int, x: int, y: int, rand: (int, int) -> real)
      requires Valid()
      modifies data, done
      ensures Canvas() == SweepRows(old(Canvas()), ActionAt(x, y, rand), i0, y1, x0, x1)
    {
      ghost var act := ActionAt(x, y, rand);
      ghost var target := SweepRows(Canvas(), act, i0, y1, x0, x1);
      var i := i0;
      while i <= y1
        invariant SweepRows(Canvas(), act, i, y1, x0, x1) == target
        decreases y1 - i + 1
      {
        ToolActionRow(i, x0, x1, x, y, rand);
        i := i + 1;
      }
    }

    /** The inner loop of `toolAction`: visits (i, j) .. (i, x1) in order. */
    method ToolActionRow(i: int, j0: int, x1: int, x: int, y: int, rand: (int, int) -> real)
      requires Valid()
      modifies data, done
      ensures Canvas() == SweepRow(old(Canvas()), ActionAt(x, y, rand), i, j0, x1)
    {
      ghost var act := ActionAt(x, y, rand);
      ghost var target := SweepRow(Canvas(), act, i, j0, x1);
      var j := j0;
      while j <= x1
        invariant SweepRow(Canvas(), act, i, j, x1) == target
        decreases x1 - j + 1
      {
        ghost var before := Canvas();
        assert SweepRow(before, act, i, j, x1) == SweepRow(Step(before, act, i, j), act, i, j + 1, x1);
        PixelAction(i, j, x, y, rand);
        j := j + 1;
      }
    }

    /** `startStroke`: clear every mark. */
    method StartStroke()
      requires Valid()
      modifies done
      ensures forall k :: 0 <= k < done.Length ==> !done[k]
    {
      forall k | 0 <= k < done.Length {
        done[k] := false;
      }
    }

    /** The colour the filler writes: the active colour with alpha `alpha * opacity` stored as a byte. */
    function FillColour(): (c: Rgba)
      requires Valid()
      reads this
      ensures c.r == colour.r && c.g == colour.g && c.b == colour.b && c.a <= colour.a
      ensures opacity == 1.0 ==> c == colour
      ensures opacity == 0.0 ==> c.a == 0
    {
      Rgba(colour.r, colour.g, colour.b, FillAlpha(colour.a, opacity))
    }

    /** The fill seeded at (x, y) on the present buffer and marks. */
    function FillJob(x: int, y: int): Job
      reads this, data, done
    {
      Job(width, height, data[..], done[..], Point(x, y), threshold)
    }

    /**
     * One turn of the filler's loop: pop `p` off the stack and mark it; when
     * its present colour passes the test against the seed colour
     * (r0, g0, b0, a0), paint it and push its unmarked neighbours inside the
     * canvas, left, right, down, up.
     */
    method FillVisit(fifo: seq<Point>, r0: Byte, g0: Byte, b0: Byte, a0: Byte, limit: real, fill: Rgba)
      returns (p: Point, passed: bool, fifo': seq<Point>)
      requires Valid() && |fifo| > 0 && InBounds(fifo[|fifo| - 1], width, height) && limit == Limit(threshold)
      modifies data, done
      ensures Valid() && p == fifo[|fifo| - 1]
      ensures done[..] == old(done[..])[Idx(p, width, height) := true]
      ensures passed <==> Passes(PixelAt(old(data[..]), Idx(p, width, height)), Rgba(r0, g0, b0, a0), threshold)
      ensures data[..] == if passed then WithPixel(old(data[..]), Idx(p, width, height), fill) else old(data[..])
      ensures fifo' == fifo[..|fifo| - 1] + if passed then Candidates(p, width, height, done[..]) else []
    {
      p := fifo[|fifo| - 1];
      fifo' := fifo[..|fifo| - 1];
      var k := Idx(p, width, height);
      var m := 4 * k;
      done[k] := true;

      var da := data[m + 0] as int - r0 as int;
      var db := data[m + 1] as int - g0 as int;
      var dc := data[m + 2] as int - b0 as int;
      da := data[m + 3] as int - a0 as int;
      passed := ((da * da + db * db + dc * dc + da * da) as real) < limit;
      assert da * da + db * db + dc * dc + da * da == Distance(PixelAt(old(data[..]), k), Rgba(r0, g0, b0, a0));
      if passed {
        data[m + 0], data[m + 1], data[m + 2], data[m + 3] := fill.r, fill.g, fill.b, fill.a;
        assert data[..] == WithPixel(old(data[..]), k, fill);
        fifo' := PushNeighbours(p, fifo');
      } else {
        assert fifo' + [] == fifo';
      }
    }

    /** The four pushes of `filler`: the candidates among the neighbours of `p`, in push order, on top of `fifo`. */
    method PushNeighbours(p: Point, fifo: seq<Point>) returns (fifo': seq<Point>)
      requires done.Length == width * height
      ensures fifo' == fifo + Candidates(p, width, height, done[..])
    {
      ghost var marks := done[..];
      var n0, n1, n2, n3 := Point(p.x - 1, p.y), Point(p.x + 1, p.y), Point(p.x, p.y - 1), Point(p.x, p.y + 1);
      ghost var k0, k1, k2, k3 := Keep(n0, width, height, marks), Keep(n1, width, height, marks),
                                  Keep(n2, width, height, marks), Keep(n3, width, height, marks);
      fifo' := PushOne(n0, fifo);
      fifo' := PushOne(n1, fifo');
      AppendAssociative(fifo, k0, k1);
      fifo' := PushOne(n2, fifo');
      AppendAssociative(fifo, k0 + k1, k2);
      fifo' := PushOne(n3, fifo');
      AppendAssociative(fifo, k0 + k1 + k2, k3);
    }

    /** One push of `filler`: `q` goes on top of `fifo` when it is inside the canvas and not marked. */
    method PushOne(q: Point, fifo: seq<Point>) returns (fifo': seq<Point>)
      requires done.Length == width * height
      ensures fifo' == fifo + Keep(q, width, height, done[..])
    {
      fifo' := fifo;
      if InBounds(q, width, height) && !done[Idx(q, width, height)] {
        fifo' := fifo' + [q];
      }
    }

    /**
     * `filler`: flood the region of (x, y) with the fill colour, taking
     * pixels off a stack. Every pixel taken off is marked; one whose present
     * colour passes the test against the seed's original colour is painted,
     * and its unmarked neighbours inside the canvas are pushed.
     */
    method Fill(x: int, y: int)
      requires Valid() && 0 <= x < width && 0 <= y < height
      modifies data, done
      ensures forall q :: InBounds(q, width, height) ==>
        PixelAt(data[..], Idx(q, width, height)) ==
          if Reached(old(FillJob(x, y)), q) then FillColour() else PixelAt(old(data[..]), Idx(q, width, height))
      ensures forall q :: InBounds(q, width, height) ==>
        (done[Idx(q, width, height)] <==>
          old(done[Idx(q, width, height)]) || q == Point(x, y) ||
          exists p :: Reached(old(FillJob(x, y)), p) && q in Neighbours(p))
    {
      ghost var job := FillJob(x, y);
      var seed := Point(x, y);
      var k := Idx(seed, width, height);
      var m := k * 4;
      var r0, g0, b0, a0 := data[m + 0], data[m + 1], data[m + 2], data[m + 3];
      var fill := FillColour();
      var limit := Limit(threshold);
      var fifo := [seed];
      ghost var painted: set<Point> := {};
      ghost var popped: set<Point> := {};
      FillStart(job, fill);
      while |fifo| > 0
        invariant Valid() && job == old(FillJob(x, y)) && fill == old(FillColour())
        invariant Rgba(r0, g0, b0, a0) == ColourOf(job, job.seed) && limit == Limit(threshold)
        invariant FillInvariant(job, fill, data[..], done[..], fifo, painted, popped)
        decreases Unseen(done[..], width, height), Stale(fifo, Unseen(done[..], width, height))
      {
        ghost var s0, d0, f0 := data[..], done[..], fifo;
        assert f0[|f0| - 1] in f0;
        var p, passed;
        p, passed, fifo := FillVisit(fifo, r0, g0, b0, a0, limit, fill);
        FillStep(job, fill, s0, d0, f0, painted, popped, p, passed);
        FillMeasure(d0, width, height, f0, p, if passed then Candidates(p, width, height, done[..]) else []);
        if passed {
          painted := painted + {p};
        }
        popped := popped + {p};
      }
      FillResult(job, fill, data[..], done[..], painted, popped);
    }

    /** The probe the picker uses at (x, y). */
    function ProbeAt(x: int, y: int): Picking.Probe
      reads this
    {
      Picking.Probe(width, height, shape, thickness, x, y)
    }

    /** The averaging branch of `picker`: sum the footprint's channels over the box and divide by the count. */
    method SampleArea(x: int, y: int) returns (c: Rgba)
      ensures c == Picking.Average(Picking.Area(data[..], ProbeAt(x, y)))
    {
      var y0, y1 := BoxLow(y, thickness), BoxHigh(y, thickness, height);
      var x0, x1 := BoxLow(x, thickness), BoxHigh(x, thickness, width);
      ghost var target := Picking.Area(data[..], ProbeAt(x, y));
      var t := Picking.Empty;
      var i := y0;
      while i <= y1
        invariant Picking.Bounded(t)
        invariant Picking.TallyRows(data[..], ProbeAt(x, y), t, i, y1, x0, x1) == target
        decreases y1 - i + 1
      {
        t := SampleRow(x, y, i, x0, x1, t);
        i := i + 1;
      }
      c := Picking.Average(t);
    }

    /** One row of the averaging loop: visit columns `j0` .. `x1` of row `i`, adding each footprint pixel's channels to the sums. */
    method SampleRow(x: int, y: int, i: int, j0: int, x1: int, t: Picking.Tally) returns (t': Picking.Tally)
      requires Picking.Bounded(t)
      ensures t' == Picking.TallyRow(data[..], ProbeAt(x, y), t, i, j0, x1)
    {
      ghost var s, pr := data[..], ProbeAt(x, y);
      var r: nat, g: nat, b: nat, a: nat, n: nat, poisoned := t.r, t.g, t.b, t.a, t.n, t.poisoned;
      var j := j0;
      while j <= x1
        invariant Picking.Bounded(Picking.Tally(r, g, b, a, n, poisoned))
        invariant Picking.TallyRow(s, pr, Picking.Tally(r, g, b, a, n, poisoned), i, j, x1) ==
                  Picking.TallyRow(s, pr, t, i, j0, x1)
        decreases x1 - j + 1
      {
        ghost var before := Picking.Tally(r, g, b, a, n, poisoned);
        if Contains(shape, j, i, x, y, thickness) {
          var m := 4 * (width * i + j);
          if 0 <= m && m + 3 < data.Length {
            r, g, b, a := r + data[m + 0], g + data[m + 1], b + data[m + 2], a + data[m + 3];
          } else {
            poisoned := true;
          }
          n := n + 1;
        }
        assert Picking.Tally(r, g, b, a, n, poisoned) == Picking.Visit(s, pr, before, i, j);
        j := j + 1;
      }
      t' := Picking.Tally(r, g, b, a, n, poisoned);
    }

    /** `picker`: with a thickness above 1 average the footprint, otherwise copy the pixel under (x, y). */
    method Pick(x: int, y: int)
      requires Valid() && Picking.CanPick(data[..], ProbeAt(x, y))
      modifies this
      ensures Valid() && SameCanvas()
      ensures Settings() == old(Settings()).(colour := Picking.Picked(old(data[..]), old(ProbeAt(x, y))))
    {
      var k := width * y + x;
      var m := k * 4;
      var c: Rgba;
      if thickness > 1 {
        c := SampleArea(x, y);
      } else {
        c := Rgba(data[m + 0], data[m + 1], data[m + 2], data[m + 3]);
      }
      colour := c;
    }

    /** `snapshot`: push a copy of the buffer on the undo stack and empty the redo stack. */
    method Snapshot()
      requires Valid()
      modifies this
      ensures Valid() && data == old(data) && Settings() == old(Settings())
      ensures State() == History.Snapshot(old(State()))
    {
      undoStack := undoStack + [data[..]];
      redoStack := [];
    }

    /** `undo`: false with nothing to undo; otherwise save the buffer for redo and restore the top of the undo stack. */
    method Undo() returns (ok: bool)
      requires Valid()
      modifies this
      ensures Valid() && Settings() == old(Settings())
      ensures (ok, State()) == History.Undo(old(State()))
      ensures if ok then fresh(data) else data == old(data)
    {
      if |undoStack| < 1 {
        return false;
      }
      ghost var before := State();
      redoStack := redoStack + [data[..]];
      var top := undoStack[|undoStack| - 1];
      undoStack := undoStack[..|undoStack| - 1];
      data := new Byte[|top|](b requires 0 <= b < |top| => top[b]);
      ok := true;
      assert data[..] == top;
      assert State() == History.Undo(before).1;
    }

    /** `redo`: the mirror image of `undo`. */
    method Redo() returns (ok: bool)
      requires Valid()
      modifies this
      ensures Valid() && Settings() == old(Settings())
      ensures (ok, State()) == History.Redo(old(State()))
      ensures if ok then fresh(data) else data == old(data)
    {
      if |redoStack| < 1 {
        return false;
      }
      ghost var before := State();
      undoStack := undoStack + [data[..]];
      var top := redoStack[|redoStack| - 1];
      redoStack := redoStack[..|redoStack| - 1];
      data := new Byte[|top|](b requires 0 <= b < |top| => top[b]);
      ok := true;
      assert data[..] == top;
      assert State() == History.Redo(before).1;
    }

    /** `undoable`. */
    function CanUndo(): (r: bool)
      reads this, data
      ensures r <==> History.Undoable(State())
    {
      |undoStack| > 0
    }

    /** `redoable`. */
    function CanRedo(): (r: bool)
      reads this, data
      ensures r <==> History.Redoable(State())
    {
      |redoStack| > 0
    }
  }
}
