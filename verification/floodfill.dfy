/**
 * What the bucket filler computes: the colour test against the seed's
 * original colour, and the 4-connected region of pixels that pass it,
 * grown from the seed through pixels not yet marked.
 */
module FloodFill {
  import opened Pixels

  datatype Point = Point(x: int, y: int)

  /** Largest squared distance between two RGBA colours. */
  const MaxDistance: int := 4 * 255 * 255

  /** The four neighbours, in the order the filler pushes them: left, right, down, up. */
  function Neighbours(p: Point): seq<Point>
  {
    [Point(p.x - 1, p.y), Point(p.x + 1, p.y), Point(p.x, p.y - 1), Point(p.x, p.y + 1)]
  }

  predicate InBounds(p: Point, width: nat, height: nat)
  {
    0 <= p.x < width && 0 <= p.y < height
  }

  /** The index of an in-bounds pixel in a buffer stored row by row. */
  function Idx(p: Point, width: nat, height: nat): (k: nat)
    requires InBounds(p, width, height)
    ensures k < width * height
  {
    assert width * p.y + p.x < width * (p.y + 1) <= width * height by {
      assert width * (p.y + 1) == width * p.y + width;
      MulMonotone(width, p.y + 1, height);
    }
    Offset(width, p.y, p.x)
  }

  lemma MulMonotone(w: nat, a: nat, b: nat)
    requires a <= b
    ensures w * a <= w * b
  {
    assert w * b - w * a == w * (b - a);
  }

  /** Distinct in-bounds pixels have distinct indices. */
  lemma IdxInjective(p: Point, q: Point, width: nat, height: nat)
    requires InBounds(p, width, height) && InBounds(q, width, height) && p != q
    ensures Idx(p, width, height) != Idx(q, width, height)
  {
    if p.y == q.y {
    } else if p.y < q.y {
      MulMonotone(width, p.y + 1, q.y);
      assert width * (p.y + 1) == width * p.y + width;
    } else {
      MulMonotone(width, q.y + 1, p.y);
      assert width * (q.y + 1) == width * q.y + width;
    }
  }

  /**
   * The filler's squared colour distance as the code computes it: the red
   * difference is overwritten by the alpha difference before it is used, so
   * red does not count and alpha counts twice. It is 0 exactly when green,
   * blue and alpha agree, and it never exceeds the largest distance.
   */
  function Distance(c: Rgba, seed: Rgba): (d: nat)
    ensures d == 0 <==> c.g == seed.g && c.b == seed.b && c.a == seed.a
    ensures d <= MaxDistance
  {
    var da := c.a - seed.a;
    var db := c.g - seed.g;
    var dc := c.b - seed.b;
    SquareOfDifference(da);
    SquareOfDifference(db);
    SquareOfDifference(dc);
    da * da + db * db + dc * dc + da * da
  }

  /** The square of a difference of two bytes is at most 255 * 255, and 0 only for equal bytes. */
  lemma SquareOfDifference(x: int)
    requires -255 <= x <= 255
    ensures 0 <= x * x <= 255 * 255
    ensures x * x == 0 <==> x == 0
  {
    var ax: nat := if x < 0 then -x else x;
    assert x * x == ax * ax;
    MulMonotone(ax, ax, 255);
    MulMonotone(255, ax, 255);
    if ax > 0 {
      MulMonotone(ax, 1, ax);
    }
  }

  /** The red channel plays no part in the colour test. */
  lemma RedIgnored(c: Rgba, seed: Rgba, red: Byte)
    ensures Distance(c.(r := red), seed) == Distance(c, seed)
  {
  }

  /** A difference in alpha alone weighs twice its square. */
  lemma AlphaCountsTwice(c: Rgba, seed: Rgba)
    requires c.r == seed.r && c.g == seed.g && c.b == seed.b
    ensures Distance(c, seed) == 2 * (c.a - seed.a) * (c.a - seed.a)
  {
  }

  /** A product of two reals, with its sign. */
  function Scale(a: real, b: real): (r: real)
    ensures a > 0.0 && b > 0.0 ==> r > 0.0
    ensures a == 0.0 || b == 0.0 ==> r == 0.0
  {
    a * b
  }

  /** The squared threshold scaled to the largest distance. */
  function Limit(threshold: real): (r: real)
    ensures threshold == 0.0 ==> r == 0.0
    ensures threshold > 0.0 ==> r > 0.0
  {
    Scale(Scale(threshold, threshold), MaxDistance as real)
  }

  /**
   * The colour test: strictly below the limit. At threshold 0 no colour
   * passes, not even the seed's own; above 0 every colour at distance 0
   * from the seed passes.
   */
  predicate Passes(c: Rgba, seed: Rgba, threshold: real)
    ensures threshold == 0.0 ==> !Passes(c, seed, threshold)
    ensures threshold > 0.0 && Distance(c, seed) == 0 ==> Passes(c, seed, threshold)
  {
    (Distance(c, seed) as real) < Limit(threshold)
  }

  /** One fill: canvas size, buffer and marks before the fill, seed pixel and threshold. */
  datatype Job = Job(width: nat, height: nat, pixels: seq<Byte>, marks: seq<bool>, seed: Point, threshold: real)

  predicate ValidJob(job: Job)
  {
    |job.pixels| == 4 * (job.width * job.height) && |job.marks| == job.width * job.height &&
    InBounds(job.seed, job.width, job.height) && 0.0 <= job.threshold
  }

  function ColourOf(job: Job, p: Point): Rgba
    requires ValidJob(job) && InBounds(p, job.width, job.height)
  {
    PixelAt(job.pixels, Idx(p, job.width, job.height))
  }

  /** An in-bounds pixel whose original colour passes the test against the seed's original colour. */
  predicate Matches(job: Job, q: Point)
    requires ValidJob(job)
  {
    InBounds(q, job.width, job.height) && Passes(ColourOf(job, q), ColourOf(job, job.seed), job.threshold)
  }

  /** A pixel the fill may grow into: it matches, and it is the seed or was not marked before the fill. */
  predicate Open(job: Job, q: Point)
    requires ValidJob(job)
  {
    Matches(job, q) && (q == job.seed || !job.marks[Idx(q, job.width, job.height)])
  }

  /** A 4-connected path of open pixels that starts at the seed. */
  predicate IsPath(job: Job, path: seq<Point>)
    requires ValidJob(job)
  {
    |path| > 0 && path[0] == job.seed &&
    (forall i :: 0 <= i < |path| ==> Open(job, path[i])) &&
    (forall i :: 0 <= i < |path| - 1 ==> path[i + 1] in Neighbours(path[i]))
  }

  /**
   * The region the fill recolours: the pixels some path reaches. Every pixel
   * of it is on the canvas and passes the colour test.
   */
  ghost predicate Reached(job: Job, q: Point)
    requires ValidJob(job)
    ensures Reached(job, q) ==> Matches(job, q)
  {
    exists path :: IsPath(job, path) && path[|path| - 1] == q
  }

  /** The region is closed under stepping to an open neighbour. */
  lemma ReachedStep(job: Job, p: Point, q: Point)
    requires ValidJob(job) && Reached(job, p) && q in Neighbours(p) && Open(job, q)
    ensures Reached(job, q)
  {
    var path :| IsPath(job, path) && path[|path| - 1] == p;
    ExtendPath(job, path, q);
    assert (path + [q])[|path|] == q;
  }

  lemma ExtendPath(job: Job, path: seq<Point>, q: Point)
    requires ValidJob(job) && IsPath(job, path)
    requires q in Neighbours(path[|path| - 1]) && Open(job, q)
    ensures IsPath(job, path + [q])
  {
    var path' := path + [q];
    assert forall i :: 0 <= i < |path| ==> path'[i] == path[i];
    assert forall i :: 0 <= i < |path'| ==> Open(job, path'[i]);
  }

  /** The seed is reached exactly when its own colour passes, which is exactly when the threshold is not 0. */
  lemma SeedReached(job: Job)
    requires ValidJob(job)
    ensures Reached(job, job.seed) <==> job.threshold != 0.0
  {
    if job.threshold != 0.0 {
      assert Distance(ColourOf(job, job.seed), ColourOf(job, job.seed)) == 0;
      assert Open(job, job.seed);
      assert IsPath(job, [job.seed]);
    }
  }

  /** With threshold 0 the region is empty. */
  lemma ZeroThresholdReachesNothing(job: Job, q: Point)
    requires ValidJob(job) && job.threshold == 0.0
    ensures !Reached(job, q)
  {
  }

  /**
   * A set of pixels that holds the seed (when the seed matches) and is
   * closed under open neighbours contains every pixel of every path.
   */
  lemma {:induction false} PathInside(job: Job, path: seq<Point>, region: set<Point>)
    requires ValidJob(job) && IsPath(job, path)
    requires Matches(job, job.seed) ==> job.seed in region
    requires forall p, q :: p in region && q in Neighbours(p) && Open(job, q) ==> q in region
    ensures forall i :: 0 <= i < |path| ==> path[i] in region
  {
    if |path| > 1 {
      var prefix := path[..|path| - 1];
      assert IsPath(job, prefix);
      PathInside(job, prefix, region);
      var i := |path| - 2;
      assert path[i] == prefix[i] && path[i] in region;
      assert path[i + 1] in Neighbours(path[i]) && Open(job, path[i + 1]);
    } else {
      assert Open(job, path[0]);
    }
  }

  /**
   * The region is the least such set: a set of reached pixels that holds
   * the seed when it matches and is closed under open neighbours is exactly
   * the set of reached pixels.
   */
  lemma RegionCharacterised(job: Job, region: set<Point>)
    requires ValidJob(job)
    requires forall q :: q in region ==> Reached(job, q)
    requires Matches(job, job.seed) ==> job.seed in region
    requires forall p, q :: p in region && q in Neighbours(p) && Open(job, q) ==> q in region
    ensures forall q :: Reached(job, q) <==> q in region
  {
    forall q | Reached(job, q)
      ensures q in region
    {
      var path :| IsPath(job, path) && path[|path| - 1] == q;
      PathInside(job, path, region);
    }
  }

  /**
   * On a buffer whose pixels all have the seed's colour, with no marks and a
   * positive threshold, the region is the whole canvas.
   */
  lemma {:induction false} UniformFillsEverything(job: Job, q: Point)
    requires ValidJob(job) && job.threshold != 0.0
    requires forall k :: 0 <= k < |job.marks| ==> !job.marks[k]
    requires forall p :: InBounds(p, job.width, job.height) ==> ColourOf(job, p) == ColourOf(job, job.seed)
    requires InBounds(q, job.width, job.height)
    ensures Reached(job, q)
    decreases (if q.x < job.seed.x then job.seed.x - q.x else q.x - job.seed.x) +
              (if q.y < job.seed.y then job.seed.y - q.y else q.y - job.seed.y)
  {
    SeedReached(job);
    if q != job.seed {
      var s := job.seed;
      var p := if q.x < s.x then Point(q.x + 1, q.y)
               else if q.x > s.x then Point(q.x - 1, q.y)
               else if q.y < s.y then Point(q.x, q.y + 1)
               else Point(q.x, q.y - 1);
      UniformFillsEverything(job, p);
      assert q in Neighbours(p);
      assert Open(job, q);
      ReachedStep(job, p, q);
    }
  }

  /**
   * A second fill from the same seed: once every in-bounds neighbour of the
   * seed is marked (as the first fill leaves them when its region is not
   * empty), the region is the seed alone, or nothing at threshold 0.
   */
  lemma RefillReachesOnlySeed(job: Job, q: Point)
    requires ValidJob(job)
    requires forall n :: n in Neighbours(job.seed) && InBounds(n, job.width, job.height) ==>
      job.marks[Idx(n, job.width, job.height)]
    ensures Reached(job, q) <==> q == job.seed && job.threshold != 0.0
  {
    SeedReached(job);
    if Reached(job, q) {
      var path :| IsPath(job, path) && path[|path| - 1] == q;
      if |path| > 1 {
        assert path[1] in Neighbours(job.seed) && Open(job, path[1]);
        NotOwnNeighbour(job.seed, path[1]);
        assert false;
      }
    }
  }

  lemma NotOwnNeighbour(p: Point, q: Point)
    requires q in Neighbours(p)
    ensures q != p
  {
  }

  /** After a fill whose region is not empty, every in-bounds neighbour of the seed is marked. */
  lemma FilledSeedNeighboursMarked(job: Job, marks: seq<bool>)
    requires ValidJob(job) && |marks| == |job.marks| && job.threshold != 0.0
    requires forall q :: InBounds(q, job.width, job.height) ==>
      (marks[Idx(q, job.width, job.height)] <==>
        job.marks[Idx(q, job.width, job.height)] || q == job.seed || exists p :: Reached(job, p) && q in Neighbours(p))
    ensures forall n :: n in Neighbours(job.seed) && InBounds(n, job.width, job.height) ==>
      marks[Idx(n, job.width, job.height)]
  {
    SeedReached(job);
  }

  /** A pixel the filler may hold on its stack: the seed, or an unmarked neighbour of a painted pixel. */
  ghost predicate Frontier(job: Job, painted: set<Point>, q: Point)
    requires ValidJob(job)
  {
    InBounds(q, job.width, job.height) &&
    (q == job.seed || (!job.marks[Idx(q, job.width, job.height)] && exists p :: p in painted && q in Neighbours(p)))
  }

  /**
   * The neighbour test as the code writes it: the mark is read first, at the
   * row-major index, which for a neighbour off the canvas may wrap into the
   * next or the previous row or fall outside the marks altogether (a read
   * that yields `undefined`, which counts as unset); the bound checks after
   * it then decide the test for such a neighbour.
   */
  predicate SkippedByCode(q: Point, width: nat, height: nat, marks: seq<bool>)
  {
    var k := Offset(width, q.y, q.x);
    (0 <= k < |marks| && marks[k]) || q.x < 0 || q.x >= width || q.y < 0 || q.y >= height
  }

  /**
   * `[q]` when the filler would push `q` (inside the canvas and not marked),
   * `[]` otherwise; this is exactly when the code's own test does not skip it.
   */
  function Keep(q: Point, width: nat, height: nat, marks: seq<bool>): (r: seq<Point>)
    requires |marks| == width * height
    ensures |r| <= 1
    ensures forall n :: n in r <==> n == q && InBounds(q, width, height) && !marks[Idx(q, width, height)]
    ensures r == [] <==> SkippedByCode(q, width, height, marks)
  {
    if InBounds(q, width, height) && !marks[Idx(q, width, height)] then [q] else []
  }

  /** The neighbours of `p` the filler pushes: in bounds and not marked, in push order. */
  function Candidates(p: Point, width: nat, height: nat, marks: seq<bool>): (r: seq<Point>)
    requires |marks| == width * height
    ensures |r| <= 4
    ensures forall q :: q in r <==>
      q in Neighbours(p) && InBounds(q, width, height) && !marks[Idx(q, width, height)]
  {
    KeptNeighbours(p, width, height, marks);
    Keep(Point(p.x - 1, p.y), width, height, marks) + Keep(Point(p.x + 1, p.y), width, height, marks) +
    Keep(Point(p.x, p.y - 1), width, height, marks) + Keep(Point(p.x, p.y + 1), width, height, marks)
  }

  lemma KeptNeighbours(p: Point, width: nat, height: nat, marks: seq<bool>)
    requires |marks| == width * height
    ensures forall q :: q in Keep(Point(p.x - 1, p.y), width, height, marks) + Keep(Point(p.x + 1, p.y), width, height, marks) +
                             Keep(Point(p.x, p.y - 1), width, height, marks) + Keep(Point(p.x, p.y + 1), width, height, marks) <==>
      q in Neighbours(p) && InBounds(q, width, height) && !marks[Idx(q, width, height)]
  {
    var n0, n1, n2, n3 := Point(p.x - 1, p.y), Point(p.x + 1, p.y), Point(p.x, p.y - 1), Point(p.x, p.y + 1);
    var k0, k1, k2, k3 := Keep(n0, width, height, marks), Keep(n1, width, height, marks),
                          Keep(n2, width, height, marks), Keep(n3, width, height, marks);
    forall q
      ensures q in k0 + k1 + k2 + k3 <==> q in Neighbours(p) && InBounds(q, width, height) && !marks[Idx(q, width, height)]
    {
      assert q in k0 + k1 + k2 + k3 <==> q in k0 || q in k1 || q in k2 || q in k3;
      assert q in Neighbours(p) <==> q == n0 || q == n1 || q == n2 || q == n3;
    }
  }

  lemma AppendAssociative(a: seq<Point>, b: seq<Point>, c: seq<Point>)
    ensures (a + b) + c == a + (b + c)
  {
  }

  /** Number of stack entries whose pixel is already marked (not in `unseen`): the second half of the filler's termination measure. */
  function Stale(stack: seq<Point>, unseen: set<Point>): nat
  {
    if stack == [] then 0
    else Stale(stack[..|stack| - 1], unseen) + (if stack[|stack| - 1] in unseen then 0 else 1)
  }

  /** Pushing unmarked pixels adds no stale entry. */
  lemma {:induction false} StaleAppendFresh(stack: seq<Point>, more: seq<Point>, unseen: set<Point>)
    requires forall q :: q in more ==> q in unseen
    ensures Stale(stack + more, unseen) == Stale(stack, unseen)
    decreases |more|
  {
    if more != [] {
      var init := more[..|more| - 1];
      assert stack + more == (stack + init) + [more[|more| - 1]];
      assert (stack + init + [more[|more| - 1]])[..|stack + init|] == stack + init;
      StaleAppendFresh(stack, init, unseen);
    } else {
      assert stack + more == stack;
    }
  }

  /** The in-bounds pixels not marked in `marks`. */
  ghost function Unseen(marks: seq<bool>, width: nat, height: nat): (r: set<Point>)
    requires |marks| == width * height
    ensures forall q :: q in r <==> InBounds(q, width, height) && !marks[Idx(q, width, height)]
  {
    set i, j | 0 <= i < width && 0 <= j < height && !marks[Idx(Point(i, j), width, height)] :: Point(i, j)
  }

  /** The marks: those set before the fill, and the popped pixels. */
  ghost predicate MarksOk(job: Job, marks: seq<bool>, popped: set<Point>)
    requires ValidJob(job)
  {
    |marks| == |job.marks| &&
    forall q :: InBounds(q, job.width, job.height) ==>
      (marks[Idx(q, job.width, job.height)] <==> job.marks[Idx(q, job.width, job.height)] || q in popped)
  }

  /** The buffer: the fill colour on painted pixels, the original colour elsewhere. */
  ghost predicate PixelsOk(job: Job, fill: Rgba, pixels: seq<Byte>, painted: set<Point>)
    requires ValidJob(job)
  {
    |pixels| == |job.pixels| &&
    forall q :: InBounds(q, job.width, job.height) ==>
      PixelAt(pixels, Idx(q, job.width, job.height)) == if q in painted then fill else ColourOf(job, q)
  }

  /** Every stack entry is on the frontier. */
  ghost predicate StackOk(job: Job, painted: set<Point>, stack: seq<Point>)
    requires ValidJob(job)
  {
    forall q :: q in stack ==> Frontier(job, painted, q)
  }

  /**
   * Every popped pixel was on the frontier; the painted pixels are exactly
   * the popped ones that match, and all of them are reached.
   */
  ghost predicate PoppedOk(job: Job, painted: set<Point>, popped: set<Point>)
    requires ValidJob(job)
  {
    (forall q :: q in popped ==> Frontier(job, painted, q)) &&
    painted <= popped &&
    (forall q :: q in popped && Matches(job, q) ==> q in painted) &&
    (forall q :: q in painted ==> Reached(job, q))
  }

  /** The seed has been popped or waits on the stack, and every neighbour of a painted pixel is marked, popped or waiting. */
  ghost predicate ClosedOk(job: Job, painted: set<Point>, popped: set<Point>, stack: seq<Point>)
    requires ValidJob(job)
  {
    (job.seed in popped || job.seed in stack) &&
    forall p, n :: p in painted && n in Neighbours(p) && InBounds(n, job.width, job.height) ==>
      job.marks[Idx(n, job.width, job.height)] || n in popped || n in stack
  }

  /**
   * The filler's loop invariant over the buffer, the marks and the stack,
   * with `painted` the pixels painted so far and `popped` those taken off
   * the stack so far.
   */
  ghost predicate FillInvariant(job: Job, fill: Rgba, pixels: seq<Byte>, marks: seq<bool>,
                                stack: seq<Point>, painted: set<Point>, popped: set<Point>)
    requires ValidJob(job)
  {
    MarksOk(job, marks, popped) && PixelsOk(job, fill, pixels, painted) && StackOk(job, painted, stack) &&
    PoppedOk(job, painted, popped) && ClosedOk(job, painted, popped, stack)
  }

  /** Before the loop: the buffer and marks as given, the seed alone on the stack. */
  lemma FillStart(job: Job, fill: Rgba)
    requires ValidJob(job)
    ensures FillInvariant(job, fill, job.pixels, job.marks, [job.seed], {}, {})
  {
  }

  /** Marking the popped pixel `p`. */
  lemma MarksStep(job: Job, marks: seq<bool>, popped: set<Point>, p: Point)
    requires ValidJob(job) && MarksOk(job, marks, popped) && InBounds(p, job.width, job.height)
    ensures MarksOk(job, marks[Idx(p, job.width, job.height) := true], popped + {p})
  {
    forall q | InBounds(q, job.width, job.height) && q != p
      ensures Idx(q, job.width, job.height) != Idx(p, job.width, job.height)
    {
      IdxInjective(p, q, job.width, job.height);
    }
  }

  /** Painting `p` changes its pixel to `fill` and no other pixel. */
  lemma PixelsStep(job: Job, fill: Rgba, pixels: seq<Byte>, painted: set<Point>, p: Point)
    requires ValidJob(job) && PixelsOk(job, fill, pixels, painted) && InBounds(p, job.width, job.height)
    ensures PixelsOk(job, fill, WithPixel(pixels, Idx(p, job.width, job.height), fill), painted + {p})
  {
    forall q | InBounds(q, job.width, job.height) && q != p
      ensures PixelAt(WithPixel(pixels, Idx(p, job.width, job.height), fill), Idx(q, job.width, job.height)) ==
        PixelAt(pixels, Idx(q, job.width, job.height))
    {
      IdxInjective(p, q, job.width, job.height);
      WithPixelOthers(pixels, Idx(p, job.width, job.height), fill, Idx(q, job.width, job.height));
    }
  }

  /** Painting more pixels keeps a pixel on the frontier. */
  lemma FrontierGrows(job: Job, painted: set<Point>, more: set<Point>, q: Point)
    requires ValidJob(job) && Frontier(job, painted, q) && painted <= more
    ensures Frontier(job, more, q)
  {
  }

  /** The stack after popping `p` and, when `p` is painted, pushing its candidates. */
  lemma StackStep(job: Job, marks: seq<bool>, popped: set<Point>, painted: set<Point>, stack: seq<Point>,
                  p: Point, paint: bool)
    requires ValidJob(job) && StackOk(job, painted, stack) && |stack| > 0 && p == stack[|stack| - 1]
    requires InBounds(p, job.width, job.height) && |marks| == |job.marks|
    requires MarksOk(job, marks[Idx(p, job.width, job.height) := true], popped)
    ensures var marks' := marks[Idx(p, job.width, job.height) := true];
      StackOk(job, if paint then painted + {p} else painted,
              stack[..|stack| - 1] + (if paint then Candidates(p, job.width, job.height, marks') else []))
  {
    var marks' := marks[Idx(p, job.width, job.height) := true];
    var painted' := if paint then painted + {p} else painted;
    var rest := stack[..|stack| - 1];
    var pushed := if paint then Candidates(p, job.width, job.height, marks') else [];
    forall q | q in rest + pushed
      ensures Frontier(job, painted', q)
    {
      if q in rest {
        assert q in stack;
        FrontierGrows(job, painted, painted', q);
      } else {
        assert !marks'[Idx(q, job.width, job.height)];
      }
    }
  }

  /** The popped set after popping `p`, painted or not. */
  lemma PoppedStep(job: Job, fill: Rgba, pixels: seq<Byte>, painted: set<Point>, popped: set<Point>,
                   p: Point, paint: bool)
    requires ValidJob(job) && PoppedOk(job, painted, popped) && PixelsOk(job, fill, pixels, painted)
    requires Frontier(job, painted, p)
    requires p !in painted ==> (paint <==> Matches(job, p))
    ensures PoppedOk(job, if paint then painted + {p} else painted, popped + {p})
  {
    var painted' := if paint then painted + {p} else painted;
    forall q | q in popped + {p}
      ensures Frontier(job, painted', q)
    {
      if q != p {
        assert q in popped;
      }
      FrontierGrows(job, painted, painted', q);
    }
    if paint && p !in painted {
      if p == job.seed {
        assert IsPath(job, [p]);
      } else {
        var p0 :| p0 in painted && p in Neighbours(p0);
        ReachedStep(job, p0, p);
      }
    }
  }

  /** The seed and closure conditions after popping `p` and pushing `pushed`. */
  lemma ClosedStep(job: Job, marks: seq<bool>, painted: set<Point>, popped: set<Point>, stack: seq<Point>,
                   p: Point, paint: bool)
    requires ValidJob(job) && ClosedOk(job, painted, popped, stack) && |stack| > 0 && p == stack[|stack| - 1]
    requires InBounds(p, job.width, job.height) && |marks| == |job.marks|
    requires MarksOk(job, marks[Idx(p, job.width, job.height) := true], popped + {p})
    ensures var marks' := marks[Idx(p, job.width, job.height) := true];
      ClosedOk(job, if paint then painted + {p} else painted, popped + {p},
               stack[..|stack| - 1] + (if paint then Candidates(p, job.width, job.height, marks') else []))
  {
    var w, h := job.width, job.height;
    var marks' := marks[Idx(p, w, h) := true];
    var stack' := stack[..|stack| - 1] + (if paint then Candidates(p, w, h, marks') else []);
    PopKeepsRest(stack, if paint then Candidates(p, w, h, marks') else []);
    NeighboursCovered(job, marks', painted, popped, stack, stack', p, paint);
  }

  /** Popping the top keeps every other entry on the stack, whatever is pushed. */
  lemma PopKeepsRest(stack: seq<Point>, pushed: seq<Point>)
    requires |stack| > 0
    ensures forall q :: q in stack && q != stack[|stack| - 1] ==> q in stack[..|stack| - 1] + pushed
  {
    forall q | q in stack && q != stack[|stack| - 1]
      ensures q in stack[..|stack| - 1] + pushed
    {
      var i :| 0 <= i < |stack| && stack[i] == q;
      assert stack[..|stack| - 1][i] == q;
    }
  }

  /** Every neighbour of a painted pixel stays marked, popped or on the stack after the step. */
  lemma NeighboursCovered(job: Job, marks': seq<bool>, painted: set<Point>, popped: set<Point>,
                          stack: seq<Point>, stack': seq<Point>, p: Point, paint: bool)
    requires ValidJob(job) && InBounds(p, job.width, job.height)
    requires MarksOk(job, marks', popped + {p})
    requires forall p0, n :: p0 in painted && n in Neighbours(p0) && InBounds(n, job.width, job.height) ==>
      job.marks[Idx(n, job.width, job.height)] || n in popped || n in stack
    requires forall q :: q in stack && q != p ==> q in stack'
    requires paint ==> forall n :: n in Candidates(p, job.width, job.height, marks') ==> n in stack'
    ensures forall p0, n :: p0 in (if paint then painted + {p} else painted) && n in Neighbours(p0) && InBounds(n, job.width, job.height) ==>
      job.marks[Idx(n, job.width, job.height)] || n in popped + {p} || n in stack'
  {
    var w, h := job.width, job.height;
    forall p0, n | p0 in (if paint then painted + {p} else painted) && n in Neighbours(p0) && InBounds(n, w, h)
      ensures job.marks[Idx(n, w, h)] || n in popped + {p} || n in stack'
    {
      if p0 == p && paint {
        if !marks'[Idx(n, w, h)] {
          assert n in Candidates(p, w, h, marks');
        }
      } else {
        assert p0 in painted;
      }
    }
  }

  /** One turn of the loop: pop `p`, mark it, and when it passes the test paint it and push its candidates. */
  lemma FillStep(job: Job, fill: Rgba, pixels: seq<Byte>, marks: seq<bool>,
                 stack: seq<Point>, painted: set<Point>, popped: set<Point>, p: Point, paint: bool)
    requires ValidJob(job) && FillInvariant(job, fill, pixels, marks, stack, painted, popped)
    requires |stack| > 0 && p == stack[|stack| - 1]
    requires InBounds(p, job.width, job.height)
    requires p !in painted ==> (paint <==> Matches(job, p))
    ensures var marks' := marks[Idx(p, job.width, job.height) := true];
      FillInvariant(job, fill,
                    if paint then WithPixel(pixels, Idx(p, job.width, job.height), fill) else pixels,
                    marks',
                    stack[..|stack| - 1] + (if paint then Candidates(p, job.width, job.height, marks') else []),
                    if paint then painted + {p} else painted, popped + {p})
  {
    assert p in stack;
    MarksStep(job, marks, popped, p);
    if paint {
      PixelsStep(job, fill, pixels, painted, p);
    }
    StackStep(job, marks, popped + {p}, painted, stack, p, paint);
    PoppedStep(job, fill, pixels, painted, popped, p, paint);
    ClosedStep(job, marks, painted, popped, stack, p, paint);
  }

  /**
   * The termination measure of one turn: either an unmarked pixel gets
   * marked, or a stale entry leaves the stack and only unmarked pixels
   * are pushed.
   */
  lemma FillMeasure(marks: seq<bool>, width: nat, height: nat, stack: seq<Point>, p: Point, pushed: seq<Point>)
    requires |marks| == width * height && |stack| > 0 && p == stack[|stack| - 1] && InBounds(p, width, height)
    requires forall q :: q in pushed ==>
      InBounds(q, width, height) && !marks[Idx(p, width, height) := true][Idx(q, width, height)]
    ensures var marks' := marks[Idx(p, width, height) := true];
      var u, u' := Unseen(marks, width, height), Unseen(marks', width, height);
      u' < u || (u' == u && Stale(stack[..|stack| - 1] + pushed, u') < Stale(stack, u))
  {
    var k := Idx(p, width, height);
    var marks' := marks[k := true];
    var u, u' := Unseen(marks, width, height), Unseen(marks', width, height);
    forall q | InBounds(q, width, height) && q != p
      ensures q in u' <==> q in u
    {
      IdxInjective(p, q, width, height);
    }
    assert u' <= u && p !in u';
    if p !in u {
      assert u' == u;
      StaleAppendFresh(stack[..|stack| - 1], pushed, u');
    }
  }

  /** When the stack is empty, the painted pixels are exactly the region. */
  lemma PaintedIsRegion(job: Job, painted: set<Point>, popped: set<Point>)
    requires ValidJob(job) && job.seed in popped
    requires forall q :: q in popped && Matches(job, q) ==> q in painted
    requires forall q :: q in painted ==> Reached(job, q)
    requires forall p, n :: p in painted && n in Neighbours(p) && InBounds(n, job.width, job.height) ==>
      job.marks[Idx(n, job.width, job.height)] || n in popped
    ensures forall q :: Reached(job, q) <==> q in painted
  {
    PaintedIsClosed(job, painted, popped);
    RegionCharacterised(job, painted);
  }

  /** With the stack empty, every open neighbour of a painted pixel is painted. */
  lemma PaintedIsClosed(job: Job, painted: set<Point>, popped: set<Point>)
    requires ValidJob(job) && job.seed in popped
    requires forall q :: q in popped && Matches(job, q) ==> q in painted
    requires forall p, n :: p in painted && n in Neighbours(p) && InBounds(n, job.width, job.height) ==>
      job.marks[Idx(n, job.width, job.height)] || n in popped
    ensures forall p, q :: p in painted && q in Neighbours(p) && Open(job, q) ==> q in painted
  {
    forall p, q | p in painted && q in Neighbours(p) && Open(job, q)
      ensures q in painted
    {
      assert Matches(job, q) && InBounds(q, job.width, job.height);
      assert q in popped;
    }
  }

  /** When the stack is empty, the marked pixels are the ones marked before, the seed, and the neighbours of painted pixels. */
  lemma MarksResult(job: Job, marks: seq<bool>, painted: set<Point>, popped: set<Point>)
    requires ValidJob(job) && MarksOk(job, marks, popped)
    requires forall q :: q in popped ==> Frontier(job, painted, q)
    requires ClosedOk(job, painted, popped, [])
    ensures forall q :: InBounds(q, job.width, job.height) ==>
      (marks[Idx(q, job.width, job.height)] <==>
        job.marks[Idx(q, job.width, job.height)] || q == job.seed || exists p :: p in painted && q in Neighbours(p))
  {
    forall q | InBounds(q, job.width, job.height)
      ensures marks[Idx(q, job.width, job.height)] ==>
        job.marks[Idx(q, job.width, job.height)] || q == job.seed || exists p :: p in painted && q in Neighbours(p)
    {
      if q in popped {
        assert Frontier(job, painted, q);
      }
    }
    forall q, p | InBounds(q, job.width, job.height) && p in painted && q in Neighbours(p)
      ensures marks[Idx(q, job.width, job.height)]
    {
    }
  }

  /** The same, with the region in place of the painted pixels. */
  lemma MarksOfRegion(job: Job, marks: seq<bool>, painted: set<Point>)
    requires ValidJob(job) && |marks| == |job.marks|
    requires forall q :: Reached(job, q) <==> q in painted
    requires forall q :: InBounds(q, job.width, job.height) ==>
      (marks[Idx(q, job.width, job.height)] <==>
        job.marks[Idx(q, job.width, job.height)] || q == job.seed || exists p :: p in painted && q in Neighbours(p))
    ensures forall q :: InBounds(q, job.width, job.height) ==>
      (marks[Idx(q, job.width, job.height)] <==>
        job.marks[Idx(q, job.width, job.height)] || q == job.seed || exists p :: Reached(job, p) && q in Neighbours(p))
  {
    forall q | InBounds(q, job.width, job.height)
      ensures (exists p :: p in painted && q in Neighbours(p)) <==> (exists p :: Reached(job, p) && q in Neighbours(p))
    {
      if exists p :: p in painted && q in Neighbours(p) {
        var p :| p in painted && q in Neighbours(p);
        assert Reached(job, p);
      }
      if exists p :: Reached(job, p) && q in Neighbours(p) {
        var p :| Reached(job, p) && q in Neighbours(p);
        assert p in painted;
      }
    }
  }

  /**
   * When the stack is empty, the buffer holds the fill colour exactly on
   * the region, and the marked pixels are the ones marked before, the seed,
   * and the neighbours of the region.
   */
  lemma FillResult(job: Job, fill: Rgba, pixels: seq<Byte>, marks: seq<bool>, painted: set<Point>, popped: set<Point>)
    requires ValidJob(job) && FillInvariant(job, fill, pixels, marks, [], painted, popped)
    ensures forall q :: InBounds(q, job.width, job.height) ==>
      PixelAt(pixels, Idx(q, job.width, job.height)) == if Reached(job, q) then fill else ColourOf(job, q)
    ensures forall q :: InBounds(q, job.width, job.height) ==>
      (marks[Idx(q, job.width, job.height)] <==>
        job.marks[Idx(q, job.width, job.height)] || q == job.seed || exists p :: Reached(job, p) && q in Neighbours(p))
  {
    ClosedWhenEmpty(job, painted, popped);
    PaintedIsRegion(job, painted, popped);
    PixelsOfRegion(job, fill, pixels, painted);
    MarksResult(job, marks, painted, popped);
    MarksOfRegion(job, marks, painted);
  }

  /** With the stack empty, the seed is popped and every neighbour of a painted pixel is marked or popped. */
  lemma ClosedWhenEmpty(job: Job, painted: set<Point>, popped: set<Point>)
    requires ValidJob(job) && ClosedOk(job, painted, popped, [])
    ensures job.seed in popped
    ensures forall p, n :: p in painted && n in Neighbours(p) && InBounds(n, job.width, job.height) ==>
      job.marks[Idx(n, job.width, job.height)] || n in popped
  {
  }

  /** The buffer, with the region in place of the painted pixels. */
  lemma PixelsOfRegion(job: Job, fill: Rgba, pixels: seq<Byte>, painted: set<Point>)
    requires ValidJob(job) && PixelsOk(job, fill, pixels, painted)
    requires forall q :: Reached(job, q) <==> q in painted
    ensures forall q :: InBounds(q, job.width, job.height) ==>
      PixelAt(pixels, Idx(q, job.width, job.height)) == if Reached(job, q) then fill else ColourOf(job, q)
  {
  }
}
