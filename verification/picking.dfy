/**
 * The colour picker. With a thickness above 1 it averages the pixels of the
 * footprint over the same box the stroke tools sweep, both ends included;
 * otherwise it copies the one pixel under the pointer.
 */
module Picking {
  import opened Pixels
  import opened Shapes

  /** Where and how the picker samples: canvas size, shape, thickness and pointer. */
  datatype Probe = Probe(width: nat, height: nat, shape: Shape, thickness: nat, x: int, y: int)

  /**
   * Running sums of the four channels and the number of footprint visits.
   * `poisoned` records a visit whose index lies outside the buffer: its
   * reads yield `undefined`, which turns every sum into NaN for good.
   */
  datatype Tally = Tally(r: nat, g: nat, b: nat, a: nat, n: nat, poisoned: bool)

  const Empty: Tally := Tally(0, 0, 0, 0, 0, false)

  /** Each sum is at most 255 per counted visit. */
  predicate Bounded(t: Tally)
  {
    t.r <= 255 * t.n && t.g <= 255 * t.n && t.b <= 255 * t.n && t.a <= 255 * t.n
  }

  /** Whether the four bytes of visit (i, j) lie inside the buffer. */
  predicate Readable(s: seq<Byte>, pr: Probe, i: int, j: int)
  {
    0 <= Offset(pr.width, i, j) && 4 * Offset(pr.width, i, j) + 3 < |s|
  }

  /** Visit (i, j): a footprint pixel adds its channels, or poisons the sums when it cannot be read. */
  function Visit(s: seq<Byte>, pr: Probe, t: Tally, i: int, j: int): (r: Tally)
    requires Bounded(t)
    ensures Bounded(r)
    ensures r.n == t.n + (if Contains(pr.shape, j, i, pr.x, pr.y, pr.thickness) then 1 else 0)
    ensures t.poisoned ==> r.poisoned
    ensures r.poisoned <==>
      t.poisoned || (Contains(pr.shape, j, i, pr.x, pr.y, pr.thickness) && !Readable(s, pr, i, j))
  {
    if !Contains(pr.shape, j, i, pr.x, pr.y, pr.thickness) then t
    else if Readable(s, pr, i, j) then
      var c := PixelAt(s, Offset(pr.width, i, j));
      Tally(t.r + c.r, t.g + c.g, t.b + c.b, t.a + c.a, t.n + 1, t.poisoned)
    else
      t.(n := t.n + 1, poisoned := true)
  }

  /** Visits (i, j) .. (i, x1) in order. */
  function TallyRow(s: seq<Byte>, pr: Probe, t: Tally, i: int, j: int, x1: int): (r: Tally)
    requires Bounded(t)
    ensures Bounded(r)
    ensures t.n <= r.n && (t.poisoned ==> r.poisoned)
    decreases x1 - j + 1
  {
    if j > x1 then t else TallyRow(s, pr, Visit(s, pr, t, i, j), i, j + 1, x1)
  }

  /** Rows i .. y1, each over columns x0 .. x1. */
  function TallyRows(s: seq<Byte>, pr: Probe, t: Tally, i: int, y1: int, x0: int, x1: int): (r: Tally)
    requires Bounded(t)
    ensures Bounded(r)
    ensures t.n <= r.n && (t.poisoned ==> r.poisoned)
    decreases y1 - i + 1
  {
    if i > y1 then t else TallyRows(s, pr, TallyRow(s, pr, t, i, x0, x1), i + 1, y1, x0, x1)
  }

  /** The tally over the whole box around the pointer. */
  function Area(s: seq<Byte>, pr: Probe): (r: Tally)
    ensures Bounded(r)
  {
    TallyRows(s, pr, Empty, BoxLow(pr.y, pr.thickness), BoxHigh(pr.y, pr.thickness, pr.height),
              BoxLow(pr.x, pr.thickness), BoxHigh(pr.x, pr.thickness, pr.width))
  }

  /** `v` divided by `n` and truncated, which is at most 255 when `v` is at most 255 per unit of `n`. */
  function Mean(v: nat, n: nat): (q: Byte)
    requires 0 < n && v <= 255 * n
    ensures q * n <= v < (q + 1) * n
  {
    MeanBelow(v, n);
    v / n
  }

  lemma MeanBelow(v: nat, n: nat)
    requires 0 < n && v <= 255 * n
    ensures v / n <= 255
  {
    var q := v / n;
    assert q * n + v % n == v;
    assert (q - 255) * n == q * n - 255 * n;
    NonPositiveFactor(q - 255, n);
  }

  /**
   * The colour the average yields: each channel's sum over the count,
   * truncated; a poisoned tally or an empty one (0 / 0) is NaN in every
   * channel, which truncates to 0.
   */
  function Average(t: Tally): (c: Rgba)
    requires Bounded(t)
    ensures t.poisoned || t.n == 0 ==> c == Rgba(0, 0, 0, 0)
    ensures !t.poisoned && t.n > 0 ==>
      c.r * t.n <= t.r < (c.r + 1) * t.n && c.g * t.n <= t.g < (c.g + 1) * t.n &&
      c.b * t.n <= t.b < (c.b + 1) * t.n && c.a * t.n <= t.a < (c.a + 1) * t.n
  {
    if t.poisoned || t.n == 0 then Rgba(0, 0, 0, 0)
    else Rgba(Mean(t.r, t.n), Mean(t.g, t.n), Mean(t.b, t.n), Mean(t.a, t.n))
  }

  /** The picker's precondition: a one-pixel pick reads a pixel of the buffer. */
  predicate CanPick(s: seq<Byte>, pr: Probe)
  {
    pr.thickness > 1 || Readable(s, pr, pr.y, pr.x)
  }

  /** The colour the picker sets. */
  function Picked(s: seq<Byte>, pr: Probe): (c: Rgba)
    requires CanPick(s, pr)
    ensures pr.thickness <= 1 ==> c == PixelAt(s, Offset(pr.width, pr.y, pr.x))
    ensures pr.thickness > 1 && (Area(s, pr).poisoned || Area(s, pr).n == 0) ==> c == Rgba(0, 0, 0, 0)
    ensures pr.thickness > 1 && !Area(s, pr).poisoned && Area(s, pr).n > 0 ==>
      var t := Area(s, pr);
      c.r * t.n <= t.r < (c.r + 1) * t.n && c.g * t.n <= t.g < (c.g + 1) * t.n &&
      c.b * t.n <= t.b < (c.b + 1) * t.n && c.a * t.n <= t.a < (c.a + 1) * t.n
  {
    if pr.thickness > 1 then Average(Area(s, pr)) else PixelAt(s, Offset(pr.width, pr.y, pr.x))
  }

  /** A row that passes a footprint visit counts it, and is poisoned if that visit is unreadable. */
  lemma {:induction false} RowReaches(s: seq<Byte>, pr: Probe, t: Tally, i: int, j: int, x1: int, j': int)
    requires Bounded(t) && j <= j' <= x1 && Contains(pr.shape, j', i, pr.x, pr.y, pr.thickness)
    ensures t.n < TallyRow(s, pr, t, i, j, x1).n
    ensures !Readable(s, pr, i, j') ==> TallyRow(s, pr, t, i, j, x1).poisoned
    decreases x1 - j + 1
  {
    if j < j' {
      RowReaches(s, pr, Visit(s, pr, t, i, j), i, j + 1, x1, j');
    }
  }

  /** The same for a run of rows that passes the visit (i', j'). */
  lemma {:induction false} RowsReach(s: seq<Byte>, pr: Probe, t: Tally, i: int, y1: int, x0: int, x1: int, i': int, j': int)
    requires Bounded(t) && i <= i' <= y1 && x0 <= j' <= x1 && Contains(pr.shape, j', i', pr.x, pr.y, pr.thickness)
    ensures t.n < TallyRows(s, pr, t, i, y1, x0, x1).n
    ensures !Readable(s, pr, i', j') ==> TallyRows(s, pr, t, i, y1, x0, x1).poisoned
    decreases y1 - i + 1
  {
    if i < i' {
      RowsReach(s, pr, TallyRow(s, pr, t, i, x0, x1), i + 1, y1, x0, x1, i', j');
    } else {
      RowReaches(s, pr, t, i, x0, x1, j');
    }
  }

  /** With the pointer on the canvas and a thickness above 1, the pixel under the pointer is counted. */
  lemma CentreCounted(s: seq<Byte>, pr: Probe)
    requires 0 <= pr.x < pr.width && 0 <= pr.y < pr.height && pr.thickness > 1
    ensures Area(s, pr).n > 0
  {
    assert Contains(pr.shape, pr.x, pr.y, pr.x, pr.y, pr.thickness);
    RowsReach(s, pr, Empty, BoxLow(pr.y, pr.thickness), BoxHigh(pr.y, pr.thickness, pr.height),
              BoxLow(pr.x, pr.thickness), BoxHigh(pr.x, pr.thickness, pr.width), pr.y, pr.x);
  }

  /**
   * Near the bottom edge the box includes row `height`, one past the last:
   * with a circle or a square, once the pointer is within `thickness` of
   * that row the visit below it is unreadable and the picked colour is
   * transparent black, whatever the canvas holds.
   */
  lemma BottomEdgeGivesTransparentBlack(s: seq<Byte>, pr: Probe)
    requires |s| == 4 * (pr.width * pr.height)
    requires pr.shape != Diamond && pr.thickness > 1
    requires 0 <= pr.x <= pr.width && pr.y <= pr.height <= pr.y + pr.thickness
    ensures Picked(s, pr) == Rgba(0, 0, 0, 0)
  {
    var h := pr.height;
    SameColumnContained(pr.shape, pr.x, h, pr.y, pr.thickness);
    assert !Readable(s, pr, h, pr.x) by {
      assert Offset(pr.width, h, pr.x) >= pr.width * pr.height;
    }
    RowsReach(s, pr, Empty, BoxLow(pr.y, pr.thickness), BoxHigh(pr.y, pr.thickness, pr.height),
              BoxLow(pr.x, pr.thickness), BoxHigh(pr.x, pr.thickness, pr.width), h, pr.x);
  }

  /** A circle or a square holds the pixels of its own column up to `t` rows away. */
  lemma SameColumnContained(shape: Shape, x: int, y: int, y0: int, t: int)
    requires shape != Diamond && y0 <= y <= y0 + t
    ensures Contains(shape, x, y, x, y0, t)
  {
    if shape == Circle {
      var d := y - y0;
      assert t * t - d * d == (t - d) * (t + d);
    }
  }

  /** Every visit of the rows i .. y1 and columns x0 .. x1 is readable. */
  predicate AllReadable(s: seq<Byte>, pr: Probe, i: int, y1: int, x0: int, x1: int)
  {
    forall i', j' :: i <= i' <= y1 && x0 <= j' <= x1 ==> Readable(s, pr, i', j')
  }

  lemma {:induction false} RowStaysClean(s: seq<Byte>, pr: Probe, t: Tally, i: int, j: int, x1: int)
    requires Bounded(t) && !t.poisoned && AllReadable(s, pr, i, i, j, x1)
    ensures !TallyRow(s, pr, t, i, j, x1).poisoned
    decreases x1 - j + 1
  {
    if j <= x1 {
      assert Readable(s, pr, i, j);
      RowStaysClean(s, pr, Visit(s, pr, t, i, j), i, j + 1, x1);
    }
  }

  lemma {:induction false} RowsStayClean(s: seq<Byte>, pr: Probe, t: Tally, i: int, y1: int, x0: int, x1: int)
    requires Bounded(t) && !t.poisoned && AllReadable(s, pr, i, y1, x0, x1)
    ensures !TallyRows(s, pr, t, i, y1, x0, x1).poisoned
    decreases y1 - i + 1
  {
    if i <= y1 {
      RowStaysClean(s, pr, t, i, x0, x1);
      RowsStayClean(s, pr, TallyRow(s, pr, t, i, x0, x1), i + 1, y1, x0, x1);
    }
  }

  /** When the box stays off the last row and the last column plus one, no read is undefined. */
  lemma InteriorBoxIsClean(s: seq<Byte>, pr: Probe)
    requires |s| == 4 * (pr.width * pr.height)
    requires pr.y + pr.thickness < pr.height && pr.x + pr.thickness < pr.width
    ensures !Area(s, pr).poisoned
  {
    var y0, y1 := BoxLow(pr.y, pr.thickness), BoxHigh(pr.y, pr.thickness, pr.height);
    var x0, x1 := BoxLow(pr.x, pr.thickness), BoxHigh(pr.x, pr.thickness, pr.width);
    forall i', j' | y0 <= i' <= y1 && x0 <= j' <= x1
      ensures Readable(s, pr, i', j')
    {
      IndexInside(pr.width, pr.height, i', j');
    }
    RowsStayClean(s, pr, Empty, y0, y1, x0, x1);
  }

  /** A pixel inside the canvas has an index below `width * height`. */
  lemma IndexInside(w: nat, h: nat, i: int, j: int)
    requires 0 <= i < h && 0 <= j < w
    ensures w * i + j < w * h
  {
    assert w * h - w * i == w * (h - i);
    NonPositiveFactor(1 - (h - i), w);
  }

  /** Unless poisoned, every sum is the count times the channel of `c`. */
  predicate SumsOf(t: Tally, c: Rgba)
  {
    !t.poisoned ==>
    t.r == t.n * c.r && t.g == t.n * c.g && t.b == t.n * c.b && t.a == t.n * c.a
  }

  /** Every pixel of the buffer has colour `c`. */
  predicate UniformBuffer(s: seq<Byte>, c: Rgba)
  {
    forall k: nat :: k < |s| / 4 ==> PixelAt(s, k) == c
  }

  /** Adding one more pixel of colour `c` keeps every sum the count times `c`. */
  lemma AddPixel(t: Tally, c: Rgba, poisoned: bool)
    requires SumsOf(t, c) && !t.poisoned
    ensures SumsOf(Tally(t.r + c.r, t.g + c.g, t.b + c.b, t.a + c.a, t.n + 1, poisoned), c)
  {
    OneMore(t.n, c.r);
    OneMore(t.n, c.g);
    OneMore(t.n, c.b);
    OneMore(t.n, c.a);
  }

  lemma VisitOfUniform(s: seq<Byte>, pr: Probe, t: Tally, c: Rgba, i: int, j: int)
    requires Bounded(t) && SumsOf(t, c) && UniformBuffer(s, c)
    ensures SumsOf(Visit(s, pr, t, i, j), c)
  {
    if !t.poisoned && Contains(pr.shape, j, i, pr.x, pr.y, pr.thickness) && Readable(s, pr, i, j) {
      assert PixelAt(s, Offset(pr.width, i, j)) == c;
      AddPixel(t, c, t.poisoned);
    }
  }

  lemma {:induction false} RowOfUniform(s: seq<Byte>, pr: Probe, t: Tally, c: Rgba, i: int, j: int, x1: int)
    requires Bounded(t) && SumsOf(t, c) && UniformBuffer(s, c)
    ensures SumsOf(TallyRow(s, pr, t, i, j, x1), c)
    decreases x1 - j + 1
  {
    if j <= x1 {
      VisitOfUniform(s, pr, t, c, i, j);
      RowOfUniform(s, pr, Visit(s, pr, t, i, j), c, i, j + 1, x1);
    }
  }

  lemma {:induction false} RowsOfUniform(s: seq<Byte>, pr: Probe, t: Tally, c: Rgba, i: int, y1: int, x0: int, x1: int)
    requires Bounded(t) && SumsOf(t, c) && UniformBuffer(s, c)
    ensures SumsOf(TallyRows(s, pr, t, i, y1, x0, x1), c)
    decreases y1 - i + 1
  {
    if i <= y1 {
      RowOfUniform(s, pr, t, c, i, x0, x1);
      RowsOfUniform(s, pr, TallyRow(s, pr, t, i, x0, x1), c, i + 1, y1, x0, x1);
    }
  }

  /** On a canvas of one colour, a clean, non-empty average gives back that colour. */
  lemma UniformAreaGivesItsColour(s: seq<Byte>, pr: Probe, c: Rgba)
    requires UniformBuffer(s, c) && !Area(s, pr).poisoned && Area(s, pr).n > 0
    ensures Average(Area(s, pr)) == c
  {
    RowsOfUniform(s, pr, Empty, c, BoxLow(pr.y, pr.thickness), BoxHigh(pr.y, pr.thickness, pr.height),
                  BoxLow(pr.x, pr.thickness), BoxHigh(pr.x, pr.thickness, pr.width));
    var t := Area(s, pr);
    var avg := Average(t);
    assert avg.r == c.r by { MeanOfMultiple(c.r, t.n); }
    assert avg.g == c.g by { MeanOfMultiple(c.g, t.n); }
    assert avg.b == c.b by { MeanOfMultiple(c.b, t.n); }
    assert avg.a == c.a by { MeanOfMultiple(c.a, t.n); }
  }

  lemma OneMore(n: nat, v: nat)
    ensures n * v + v == (n + 1) * v
  {
  }

  lemma MeanOfMultiple(v: Byte, n: nat)
    requires 0 < n
    ensures n * v <= 255 * n && Mean(n * v, n) == v
  {
    assert 255 * n - n * v == n * (255 - v);
    var q := Mean(n * v, n);
    assert (q - v) * n == q * n - n * v;
    NonPositiveFactor(q - v, n);
    assert (v - q - 1) * n == n * v - (q + 1) * n;
    NegativeFactor(v - q - 1, n);
  }
}
