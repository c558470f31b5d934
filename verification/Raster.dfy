/**
 Which pixels a line and a rectangle cover: a closed form for Bresenham's line,
 and the proof that it is one.
 */
module Raster {
  import opened Machine
  import opened Blocks
  import opened Arithmetic

  const WIDTH: nat := 320
  const HEIGHT: nat := 200
  const VGASIZE: nat := 0x1_0000      // what a ushort offset can reach

  datatype Point = Point(x: int, y: int)

  function Abs(a: int): nat {
    if a < 0 then -a else a
  }

  function Max(a: int, b: int): int {
    if a < b then b else a
  }

  function Min(a: int, b: int): int {
    if a < b then a else b
  }

  // ----- painting

  /** The video memory offset of a pixel, cut to a ushort. */
  function Offset(p: Point): nat {
    (WIDTH * p.y + p.x) % VGASIZE
  }

  /** Memory after every point of the list was set to colour c. */
  function Paint(pix: seq<Byte>, pts: seq<Point>, c: Byte): (r: seq<Byte>)
    requires |pix| == VGASIZE
    ensures |r| == VGASIZE
    decreases |pts|
  {
    if pts == [] then pix
    else Paint(pix, pts[..|pts| - 1], c)[Offset(pts[|pts| - 1]) := c]
  }

  ghost predicate Hits(pts: seq<Point>, o: nat) {
    exists i :: 0 <= i < |pts| && Offset(pts[i]) == o
  }

  /** Only which offsets are hit matters, not in what order. */
  lemma {:induction false} PaintAt(pix: seq<Byte>, pts: seq<Point>, c: Byte, o: nat)
    requires |pix| == VGASIZE && o < VGASIZE
    ensures Paint(pix, pts, c)[o] == if Hits(pts, o) then c else pix[o]
    decreases |pts|
  {
    if pts != [] {
      var n := |pts| - 1;
      PaintAt(pix, pts[..n], c, o);
      if Offset(pts[n]) != o {
        if Hits(pts[..n], o) {
          var i :| 0 <= i < n && Offset(pts[..n][i]) == o;
          assert Offset(pts[i]) == o;
        }
        if Hits(pts, o) {
          var i :| 0 <= i < |pts| && Offset(pts[i]) == o;
          assert pts[..n][i] == pts[i];
        }
      }
    }
  }

  lemma PaintOne(pix: seq<Byte>, p: Point, c: Byte)
    requires |pix| == VGASIZE
    ensures Paint(pix, [p], c) == pix[Offset(p) := c]
  {
    assert [p][..0] == [];
  }

  lemma {:induction false} PaintConcat(pix: seq<Byte>, a: seq<Point>, b: seq<Point>, c: Byte)
    requires |pix| == VGASIZE
    ensures Paint(pix, a + b, c) == Paint(Paint(pix, a, c), b, c)
    decreases |b|
  {
    if b == [] {
      assert a + b == a;
    } else {
      var n := |b| - 1;
      PaintConcat(pix, a, b[..n], c);
      assert (a + b)[..|a + b| - 1] == a + b[..n];
    }
  }

  // ----- the closed form of a line

  /** rise * k / run rounded to the nearest integer, halves up: how far a line has climbed after k steps. */
  function Nearest(rise: nat, run: nat, k: nat): nat {
    if run == 0 then 0 else (2 * rise * k + run) / (2 * run)
  }

  /** The error of the rounded height is at most half a pixel, and that determines it. */
  lemma NearestIff(rise: nat, run: nat, k: nat, j: nat)
    requires run > 0
    ensures j == Nearest(rise, run, k) <==> -(run as int) <= 2 * (rise * k) - 2 * (run * j) < run
  {
    var a, b := 2 * (rise * k) + run, 2 * run;
    assert a == 2 * rise * k + run;
    if -(run as int) <= 2 * (rise * k) - 2 * (run * j) < run {
      assert b * j == 2 * (run * j);
      DivUnique(a, b, j);
    } else {
      assert a == b * (a / b) + a % b;
      assert b * (a / b) == 2 * (run * (a / b));
    }
  }

  lemma NearestRange(rise: nat, run: nat, k: nat)
    requires run > 0 && k <= run
    ensures 0 <= Nearest(rise, run, k) <= rise
    ensures Nearest(rise, run, 0) == 0 && Nearest(rise, run, run) == rise
  {
    NearestIff(rise, run, 0, 0);
    NearestIff(rise, run, run, rise);
    assert rise * run == run * rise;
    NearestIff(rise, run, k, Nearest(rise, run, k));
    MulMonotone(rise, k, run);
    CancelRun(run, Nearest(rise, run, k), rise);
  }

  lemma CancelRun(run: nat, j: nat, rise: nat)
    requires run > 0 && 2 * (run * j) <= 2 * (run * rise) + run
    ensures j <= rise
  {
    if j > rise {
      MulMonotone(run, rise + 1, j);
    }
  }

  /** The incremental rule: the height steps exactly when the running error term is not negative. */
  lemma NearestStep(rise: nat, run: nat, k: nat)
    requires rise <= run && run > 0
    ensures var j := Nearest(rise, run, k);
            Nearest(rise, run, k + 1)
            == j + if 2 * rise - run + 2 * (rise * k) - 2 * (run * j) >= 0 then 1 else 0
  {
    var j := Nearest(rise, run, k);
    NearestIff(rise, run, k, j);
    assert rise * (k + 1) == rise * k + rise && run * (j + 1) == run * j + run;
    NearestIff(rise, run, k + 1, j);
    NearestIff(rise, run, k + 1, j + 1);
  }

  function Direction(from: int, to: int): int {
    if from > to then -1 else 1
  }

  /** Columns x0 to x1, each at the rounded height of the line through the two ends. */
  function XPoints(x0: int, y0: int, x1: int, y1: int): seq<Point> {
    seq(Max(0, x1 - x0 + 1), k requires 0 <= k =>
      Point(x0 + k, y0 + Direction(y0, y1) * Nearest(Abs(y1 - y0), Abs(x1 - x0), k)))
  }

  /** Rows y0 to y1, likewise. */
  function YPoints(x0: int, y0: int, x1: int, y1: int): seq<Point> {
    seq(Max(0, y1 - y0 + 1), k requires 0 <= k =>
      Point(x0 + Direction(x0, x1) * Nearest(Abs(x1 - x0), Abs(y1 - y0), k), y0 + k))
  }

  /** The pixels of a line, in the order they are plotted. */
  function LinePoints(x0: int, y0: int, x1: int, y1: int): seq<Point> {
    if Abs(y1 - y0) < Abs(x1 - x0) then
      if x1 - x0 <= 0 then XPoints(x1, y1, x0, y0) else XPoints(x0, y0, x1, y1)
    else
      if y1 - y0 <= 0 then YPoints(x1, y1, x0, y0) else YPoints(x0, y0, x1, y1)
  }

  // ----- it is a line

  /** How far p is off the line through a and b along one axis, times the line's extent along the other. */
  function Cross(a: Point, b: Point, p: Point): int {
    (p.y - a.y) * (b.x - a.x) - (p.x - a.x) * (b.y - a.y)
  }

  predicate InBox(a: Point, b: Point, p: Point) {
    Min(a.x, b.x) <= p.x <= Max(a.x, b.x) && Min(a.y, b.y) <= p.y <= Max(a.y, b.y)
  }

  /** p is a pixel of the line from a to b: inside the box of the ends, and no more than half a pixel off along the minor axis. */
  predicate OnLine(a: Point, b: Point, p: Point) {
    InBox(a, b, p) && 2 * Abs(Cross(a, b, p)) <= Max(Abs(b.x - a.x), Abs(b.y - a.y))
  }

  lemma CrossSwap(a: Point, b: Point, p: Point)
    ensures Cross(b, a, p) == -Cross(a, b, p)
    ensures OnLine(a, b, p) == OnLine(b, a, p)
  {
    var u, v, x, y := b.x - a.x, b.y - a.y, p.x - a.x, p.y - a.y;
    assert (y - v) * (-u) - (x - u) * (-v) == -(y * u - x * v);
  }

  lemma XPointOnLine(x0: int, y0: int, x1: int, y1: int, k: nat)
    requires x0 < x1 && Abs(y1 - y0) <= x1 - x0 && k <= x1 - x0
    ensures OnLine(Point(x0, y0), Point(x1, y1), XPoints(x0, y0, x1, y1)[k])
  {
    var run, rise, d := x1 - x0, Abs(y1 - y0), Direction(y0, y1);
    var j := Nearest(rise, run, k);
    NearestIff(rise, run, k, j);
    NearestRange(rise, run, k);
    var p := XPoints(x0, y0, x1, y1)[k];
    assert p == Point(x0 + k, y0 + d * j);
    CrossOfStep(d, j, run, k, rise);
    assert y1 - y0 == d * rise;
    assert Cross(Point(x0, y0), Point(x1, y1), p) == (d * j) * run - k * (d * rise);
  }

  lemma CrossOfStep(d: int, j: nat, run: nat, k: nat, rise: nat)
    requires d == 1 || d == -1
    ensures (d * j) * run - k * (d * rise) == d * (run * j - rise * k)
  {
    assert (d * j) * run == d * (run * j) && k * (d * rise) == d * (rise * k);
  }

  function Flip(p: Point): Point {
    Point(p.y, p.x)
  }

  lemma YPointOnLine(x0: int, y0: int, x1: int, y1: int, k: nat)
    requires y0 < y1 && Abs(x1 - x0) <= y1 - y0 && k <= y1 - y0
    ensures OnLine(Point(x0, y0), Point(x1, y1), YPoints(x0, y0, x1, y1)[k])
  {
    XPointOnLine(y0, x0, y1, x1, k);
    var p := YPoints(x0, y0, x1, y1)[k];
    assert Flip(p) == XPoints(y0, x0, y1, x1)[k];
    assert Cross(Point(y0, x0), Point(y1, x1), Flip(p)) == -Cross(Point(x0, y0), Point(x1, y1), p) by {
      var u, v, x, y := x1 - x0, y1 - y0, p.x - x0, p.y - y0;
      assert x * v - y * u == -(y * u - x * v);
    }
  }

  /**
   Bresenham's line for all integer endpoints: one pixel for each step along the
   longer axis, every pixel within half a pixel of the ideal line and inside the
   box of the ends, both ends included.  Drawing from either end plots the same
   pixels.
   */
  lemma LineIsExact(x0: int, y0: int, x1: int, y1: int)
    ensures var pts := LinePoints(x0, y0, x1, y1);
            && |pts| == Max(Abs(x1 - x0), Abs(y1 - y0)) + 1
            && Point(x0, y0) in pts && Point(x1, y1) in pts
            && pts == LinePoints(x1, y1, x0, y0)
            && (forall k :: 0 <= k < |pts| ==> OnLine(Point(x0, y0), Point(x1, y1), pts[k]))
            && (forall k :: 0 < k < |pts| ==>
                  if Abs(y1 - y0) < Abs(x1 - x0) then pts[k].x == pts[k - 1].x + 1 else pts[k].y == pts[k - 1].y + 1)
  {
    var pts, n := LinePoints(x0, y0, x1, y1), Max(Abs(x1 - x0), Abs(y1 - y0));
    LineEnds(x0, y0, x1, y1);
    forall k: nat | k <= n
      ensures OnLine(Point(x0, y0), Point(x1, y1), pts[k])
    {
      LinePointOnLine(x0, y0, x1, y1, k);
    }
  }

  lemma XEnds(x0: int, y0: int, x1: int, y1: int)
    requires x0 < x1 && Abs(y1 - y0) <= x1 - x0
    ensures var pts := XPoints(x0, y0, x1, y1); |pts| == x1 - x0 + 1 && pts[0] == Point(x0, y0) && pts[x1 - x0] == Point(x1, y1)
  {
    NearestRange(Abs(y1 - y0), x1 - x0, x1 - x0);
    hide Nearest;
  }

  lemma YEnds(x0: int, y0: int, x1: int, y1: int)
    requires y0 <= y1 && Abs(x1 - x0) <= y1 - y0
    ensures var pts := YPoints(x0, y0, x1, y1); |pts| == y1 - y0 + 1 && pts[0] == Point(x0, y0) && pts[y1 - y0] == Point(x1, y1)
  {
    if y0 < y1 {
      NearestRange(Abs(x1 - x0), y1 - y0, y1 - y0);
      hide Nearest;
    }
  }

  lemma LineEnds(x0: int, y0: int, x1: int, y1: int)
    ensures var pts, n := LinePoints(x0, y0, x1, y1), Max(Abs(x1 - x0), Abs(y1 - y0));
            && |pts| == n + 1
            && ((pts[0] == Point(x0, y0) && pts[n] == Point(x1, y1)) || (pts[0] == Point(x1, y1) && pts[n] == Point(x0, y0)))
  {
    hide XPoints, YPoints;
    if Abs(y1 - y0) < Abs(x1 - x0) {
      if x1 - x0 <= 0 {
        XEnds(x1, y1, x0, y0);
      } else {
        XEnds(x0, y0, x1, y1);
      }
    } else if y1 - y0 <= 0 {
      YEnds(x1, y1, x0, y0);
    } else {
      YEnds(x0, y0, x1, y1);
    }
  }

  lemma LinePointOnLine(x0: int, y0: int, x1: int, y1: int, k: nat)
    requires k <= Max(Abs(x1 - x0), Abs(y1 - y0))
    ensures OnLine(Point(x0, y0), Point(x1, y1), LinePoints(x0, y0, x1, y1)[k])
  {
    CrossSwap(Point(x0, y0), Point(x1, y1), LinePoints(x0, y0, x1, y1)[k]);
    if Abs(y1 - y0) < Abs(x1 - x0) {
      if x1 - x0 <= 0 {
        XPointOnLine(x1, y1, x0, y0, k);
      } else {
        XPointOnLine(x0, y0, x1, y1, k);
      }
    } else if y1 - y0 < 0 {
      YPointOnLine(x1, y1, x0, y0, k);
    } else if y1 - y0 > 0 {
      YPointOnLine(x0, y0, x1, y1, k);
    }
  }

  /** A level line covers exactly the pixels between its ends. */
  lemma LevelLine(x0: int, x1: int, y: int, p: Point)
    ensures p in LinePoints(x0, y, x1, y) <==> p.y == y && Min(x0, x1) <= p.x <= Max(x0, x1)
  {
    var lo, pts := Min(x0, x1), LinePoints(x0, y, x1, y);
    forall k: nat | k < |pts|
      ensures pts[k] == Point(lo + k, y)
    {
      if x0 != x1 {
        NearestIff(0, Abs(x1 - x0), k, 0);
      }
    }
    if p.y == y && lo <= p.x <= Max(x0, x1) {
      assert pts[p.x - lo] == p;
    }
  }

  // ----- rectangles

  /** The rows of a rectangle, from the bottom coordinate up to the top one, each drawn as a line. */
  function RectPoints(top: int, left: int, bottom: int, right: int): seq<Point>
    decreases top - bottom
  {
    if bottom > top then [] else RectPoints(top - 1, left, bottom, right) + LinePoints(left, top, right, top)
  }

  /** The rows cover exactly the rectangle; it is empty when bottom is above top, while left and right may come in either order. */
  lemma {:induction false} RectCovers(top: int, left: int, bottom: int, right: int, p: Point)
    ensures p in RectPoints(top, left, bottom, right)
            <==> bottom <= p.y <= top && Min(left, right) <= p.x <= Max(left, right)
    decreases top - bottom
  {
    if bottom <= top {
      RectCovers(top - 1, left, bottom, right, p);
      LevelLine(left, right, top, p);
    }
  }

  /** On screen, filling a rectangle changes the pixels inside it and no other. */
  lemma RectFillsExactly(pix: seq<Byte>, top: int, left: int, bottom: int, right: int, c: Byte, x: int, y: int)
    requires |pix| == VGASIZE
    requires 0 <= bottom && top < HEIGHT && 0 <= left < WIDTH && 0 <= right < WIDTH
    requires 0 <= x < WIDTH && 0 <= y < HEIGHT
    ensures Paint(pix, RectPoints(top, left, bottom, right), c)[WIDTH * y + x]
         == if bottom <= y <= top && Min(left, right) <= x <= Max(left, right) then c else pix[WIDTH * y + x]
  {
    var pts := RectPoints(top, left, bottom, right);
    assert Offset(Point(x, y)) == WIDTH * y + x;
    PaintAt(pix, pts, c, Offset(Point(x, y)));
    forall p | p in pts
      ensures 0 <= p.x < WIDTH && 0 <= p.y < HEIGHT
    {
      RectCovers(top, left, bottom, right, p);
    }
    HitsIff(pts, Point(x, y));
    RectCovers(top, left, bottom, right, Point(x, y));
  }

  /** Pixels on the screen have offsets of their own. */
  lemma HitsIff(pts: seq<Point>, q: Point)
    requires forall p :: p in pts ==> 0 <= p.x < WIDTH && 0 <= p.y < HEIGHT
    requires 0 <= q.x < WIDTH && 0 <= q.y < HEIGHT
    ensures Hits(pts, Offset(q)) <==> q in pts
  {
    if Hits(pts, Offset(q)) {
      var i :| 0 <= i < |pts| && Offset(pts[i]) == Offset(q);
      assert pts[i] in pts;
      OffsetOnScreen(pts[i]);
      OffsetOnScreen(q);
      assert pts[i].y == Offset(q) / WIDTH == q.y;
    }
  }

  lemma OffsetOnScreen(p: Point)
    requires 0 <= p.x < WIDTH && 0 <= p.y < HEIGHT
    ensures Offset(p) == WIDTH * p.y + p.x
    ensures Offset(p) / WIDTH == p.y
  {
    Quotient(Offset(p), WIDTH, p.y, p.x);
  }
}
