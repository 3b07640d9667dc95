/** The integer line loop of the demo renderer, `demo_draw_line` (Demo/demo_render.cpp). */
module DrawLine {
  import opened Prelude

  function Abs(x: int): nat { if x < 0 then -x else x }

  function StepSign(from: int, to: int): int { if from < to then 1 else -1 }

  datatype Point = Point(x: int, y: int)

  // ---- The walk in counted steps ----

  /** After i steps in x and j steps in y: how far the point is off the ideal line, scaled by dx. */
  function Offset(dx: nat, dy: nat, i: int, j: int): int { dx * j - dy * i }

  /** The point lies within half a pixel of the ideal line, measured along the minor axis; of two points at exactly half
      a pixel only the one on one side qualifies. */
  predicate Near(dx: nat, dy: nat, i: int, j: int) {
    var doubled := 2 * Offset(dx, dy, i, j);
    if dx == 0 && dy == 0 then doubled == 0
    else if dx >= dy then -1 * dx <= doubled < dx
    else -1 * dy < doubled <= dy
  }

  /** What every round of the loop keeps: one step along the major axis per round, near the line. */
  predicate Walk(dx: nat, dy: nat, i: int, j: int, round: nat) {
    && 0 <= i && 0 <= j
    && round == (if dx >= dy then i else j) <= Max(dx, dy)
    && Near(dx, dy, i, j)
    && (dx == dy ==> i == j)
  }

  predicate StepsX(dx: nat, dy: nat, error: int) { 2 * error + dy > 0 }

  predicate StepsY(dx: nat, dy: nat, error: int) { 2 * error < dx }

  lemma MulCancel(a: nat, x: int, y: int)
    requires a > 0 && a * x <= a * y + a / 2
    ensures x <= y
  {
    MulGap(a, x, y);
  }

  /** Neither axis overshoots, and the major axis reaches its end together with the minor one. */
  lemma WalkIsBounded(dx: nat, dy: nat, i: int, j: int, round: nat)
    requires Walk(dx, dy, i, j, round)
    ensures i <= dx && j <= dy
    ensures round == Max(dx, dy) ==> i == dx && j == dy
  {
    if dx >= dy && dx > 0 {
      MulLe(dy, i, dx);
      assert dx * j <= dx * dy + dx / 2;
      MulCancel(dx, j, dy);
      if i == dx {
        assert dx * dy <= dx * j + dx / 2;
        MulCancel(dx, dy, j);
      }
    } else if dy > dx {
      MulLe(dx, j, dy);
      assert dy * i <= dy * dx + dy / 2;
      MulCancel(dy, i, dx);
      if j == dy {
        assert dy * dx <= dy * i + dy / 2;
        MulCancel(dy, dx, i);
      }
    } else {
      assert Offset(0, 0, i, j) == 0;
    }
  }

  /** The tests on the doubled error move the major axis in every round and keep the walk near. */
  lemma WalkStep(dx: nat, dy: nat, i: int, j: int, round: nat, error: int)
    requires Walk(dx, dy, i, j, round) && round < Max(dx, dy)
    requires error == Offset(dx, dy, i, j) + dx - dy
    ensures StepsX(dx, dy, error) || StepsY(dx, dy, error)
    ensures var i' := if StepsX(dx, dy, error) then i + 1 else i;
            var j' := if StepsY(dx, dy, error) then j + 1 else j;
            && Walk(dx, dy, i', j', round + 1)
            && (if StepsY(dx, dy, error) then dx else 0) - (if StepsX(dx, dy, error) then dy else 0)
               == Offset(dx, dy, i', j') - Offset(dx, dy, i, j)
  {
    OffsetSteps(dx, dy, i, j);
    if dx == dy {
      assert Offset(dx, dy, i, j) == 0;
    }
    hide Offset;
  }

  lemma OffsetSteps(dx: nat, dy: nat, i: int, j: int)
    ensures Offset(dx, dy, i + 1, j) == Offset(dx, dy, i, j) - dy
    ensures Offset(dx, dy, i, j + 1) == Offset(dx, dy, i, j) + dx
    ensures Offset(dx, dy, i + 1, j + 1) == Offset(dx, dy, i, j) + dx - dy
  {
    assert dy * (i + 1) == dy * i + dy && dx * (j + 1) == dx * j + dx;
  }

  /** The 32-bit `doubled_error` cannot overflow while three times the longer extent fits. */
  lemma ErrorIsBounded(dx: nat, dy: nat, i: int, j: int, round: nat, error: int)
    requires Walk(dx, dy, i, j, round)
    requires error == Offset(dx, dy, i, j) + dx - dy
    ensures -3 * Max(dx, dy) <= 2 * error <= 3 * Max(dx, dy)
  {
    hide Offset;
  }

  // ---- The line as a set of points ----

  /** The visited points, in order, satisfy the line's defining properties. */
  ghost predicate IsLine(points: seq<Point>, x0: int, y0: int, x1: int, y1: int) {
    var dx, dy := Abs(x1 - x0), Abs(y1 - y0);
    && |points| == Max(dx, dy) + 1
    && points[0] == Point(x0, y0) && points[|points| - 1] == Point(x1, y1)
    && (forall k :: 0 <= k < |points| ==> OnLine(points[k], k, x0, y0, x1, y1))
    && forall k :: 0 <= k < |points| - 1 ==> Adjacent(points[k], points[k + 1])
  }

  /** The k-th point is k steps along the major axis, inside the box of the end points, and near. */
  ghost predicate OnLine(p: Point, k: nat, x0: int, y0: int, x1: int, y1: int) {
    var dx, dy := Abs(x1 - x0), Abs(y1 - y0);
    var i, j := (p.x - x0) * StepSign(x0, x1), (p.y - y0) * StepSign(y0, y1);
    && 0 <= i <= dx && 0 <= j <= dy
    && k == (if dx >= dy then i else j)
    && Near(dx, dy, i, j)
  }

  ghost predicate Adjacent(p: Point, q: Point) {
    p != q && Abs(p.x - q.x) <= 1 && Abs(p.y - q.y) <= 1
  }

  lemma PointOfSteps(x0: int, y0: int, x1: int, y1: int, i: int, j: int, round: nat)
    requires Walk(Abs(x1 - x0), Abs(y1 - y0), i, j, round)
    ensures OnLine(Point(x0 + i * StepSign(x0, x1), y0 + j * StepSign(y0, y1)), round, x0, y0, x1, y1)
    ensures (x0 + i * StepSign(x0, x1) == x1 && y0 + j * StepSign(y0, y1) == y1)
            <==> round == Max(Abs(x1 - x0), Abs(y1 - y0))
  {
    var dx, dy := Abs(x1 - x0), Abs(y1 - y0);
    WalkIsBounded(dx, dy, i, j, round);
    var sx, sy := StepSign(x0, x1), StepSign(y0, y1);
    assert (x0 + i * sx - x0) * sx == i && (y0 + j * sy - y0) * sy == j;
  }

  // ---- The image ----

  class Image {
    const width: nat
    const height: nat
    const pixels: array<int>

    constructor (width: nat, height: nat)
      ensures Valid() && fresh(pixels) && this.width == width && this.height == height
    {
      this.width, this.height := width, height;
      pixels := new int[width * height](_ => 0);
    }

    ghost predicate Valid() { pixels.Length == width * height }

    predicate Inside(p: Point) { 0 <= p.x < width && 0 <= p.y < height }

    function Index(p: Point): int { p.y * width + p.x }
  }

  /** One guarded pixel write. */
  method Plot(image: Image, p: Point, color: int, ghost before: seq<int>, ghost points: seq<Point>)
    requires image.Valid() && |before| == image.pixels.Length
    requires forall k :: 0 <= k < |before| ==> image.pixels[k] == PixelOf(image, before, points, color, k)
    modifies image.pixels
    ensures forall k :: 0 <= k < |before| ==> image.pixels[k] == PixelOf(image, before, points + [p], color, k)
  {
    ghost var now := image.pixels[..];
    if image.Inside(p) {
      IndexInRange(image.width, image.height, p.x, p.y);
      image.pixels[image.Index(p)] := color;
    }
    forall k | 0 <= k < |before|
      ensures image.pixels[k] == PixelOf(image, before, points + [p], color, k)
    {
      assert now[k] == PixelOf(image, before, points, color, k);
      PixelOfAppend(image, before, points, color, k, p);
    }
  }

  /** The defining properties leave no choice: there is one line between two end points. */
  lemma LineIsUnique(points: seq<Point>, points': seq<Point>, x0: int, y0: int, x1: int, y1: int)
    requires IsLine(points, x0, y0, x1, y1) && IsLine(points', x0, y0, x1, y1)
    ensures points == points'
  {
    hide OnLine, Adjacent;
    forall k | 0 <= k < |points| ensures points[k] == points'[k] {
      PointIsUnique(points[k], points'[k], k, x0, y0, x1, y1);
    }
  }

  lemma PointIsUnique(p: Point, q: Point, k: nat, x0: int, y0: int, x1: int, y1: int)
    requires OnLine(p, k, x0, y0, x1, y1) && OnLine(q, k, x0, y0, x1, y1)
    ensures p == q
  {
    var dx, dy := Abs(x1 - x0), Abs(y1 - y0);
    var sx, sy := StepSign(x0, x1), StepSign(y0, y1);
    StepsAreUnique(dx, dy, (p.x - x0) * sx, (p.y - y0) * sy, (q.x - x0) * sx, (q.y - y0) * sy, k);
  }

  lemma StepsAreUnique(dx: nat, dy: nat, i: int, j: int, i': int, j': int, k: nat)
    requires 0 <= i <= dx && 0 <= j <= dy && 0 <= i' <= dx && 0 <= j' <= dy
    requires k == (if dx >= dy then i else j) == (if dx >= dy then i' else j')
    requires Near(dx, dy, i, j) && Near(dx, dy, i', j')
    ensures i == i' && j == j'
  {
    if dx >= dy {
      MulGap(dx, j, j');
      MulGap(dx, j', j);
    } else {
      MulGap(dy, i, i');
      MulGap(dy, i', i);
    }
  }

  /** Some point of the line falls on pixel k. */
  ghost predicate Hit(image: Image, points: seq<Point>, k: int) {
    exists n :: 0 <= n < |points| && image.Inside(points[n]) && image.Index(points[n]) == k
  }

  /** Distinct points of the image are distinct pixels, so a pixel is hit exactly when its own point is drawn. */
  lemma HitIffDrawn(image: Image, points: seq<Point>, p: Point)
    requires image.Inside(p)
    ensures Hit(image, points, image.Index(p)) <==> p in points
  {
    if p in points {
      var n :| 0 <= n < |points| && points[n] == p;
      assert image.Inside(points[n]) && image.Index(points[n]) == image.Index(p);
    }
    if Hit(image, points, image.Index(p)) {
      var n :| 0 <= n < |points| && image.Inside(points[n]) && image.Index(points[n]) == image.Index(p);
      IndexIsInjective(image.width, p.x, p.y, points[n].x, points[n].y);
      assert points[n] == p;
    }
  }

  ghost function PixelOf(image: Image, before: seq<int>, points: seq<Point>, color: int, k: int): int
    requires 0 <= k < |before|
  {
    if Hit(image, points, k) then color else before[k]
  }

  lemma PixelOfAppend(image: Image, before: seq<int>, points: seq<Point>, color: int, k: int, p: Point)
    requires 0 <= k < |before|
    ensures PixelOf(image, before, points + [p], color, k) ==
            if image.Inside(p) && image.Index(p) == k then color else PixelOf(image, before, points, color, k)
  {
    var all := points + [p];
    if image.Inside(p) && image.Index(p) == k {
      assert all[|points|] == p;
      assert Hit(image, all, k);
    } else {
      if Hit(image, points, k) {
        var n :| 0 <= n < |points| && image.Inside(points[n]) && image.Index(points[n]) == k;
        assert all[n] == points[n];
        assert Hit(image, all, k);
      }
      if Hit(image, all, k) {
        var n :| 0 <= n < |all| && image.Inside(all[n]) && image.Index(all[n]) == k;
        assert n != |points|;
        assert points[n] == all[n];
      }
    }
  }

  /** The points plotted so far, and the next one (x, y). */
  ghost predicate Drawing(points: seq<Point>, x: int, y: int, x0: int, y0: int, x1: int, y1: int) {
    && (forall k :: 0 <= k < |points| ==> OnLine(points[k], k, x0, y0, x1, y1))
    && (forall k :: 0 <= k < |points| - 1 ==> Adjacent(points[k], points[k + 1]))
    && if points == [] then x == x0 && y == y0
       else points[0] == Point(x0, y0) && Adjacent(points[|points| - 1], Point(x, y))
  }

  lemma DrawingGrows(points: seq<Point>, x: int, y: int, x0: int, y0: int, x1: int, y1: int, next: Point)
    requires Drawing(points, x, y, x0, y0, x1, y1)
    requires OnLine(Point(x, y), |points|, x0, y0, x1, y1)
    requires Adjacent(Point(x, y), next)
    ensures Drawing(points + [Point(x, y)], next.x, next.y, x0, y0, x1, y1)
  {
    hide OnLine, Adjacent;
  }

  lemma DrawingEnds(points: seq<Point>, x0: int, y0: int, x1: int, y1: int)
    requires Drawing(points, x1, y1, x0, y0, x1, y1)
    requires OnLine(Point(x1, y1), |points|, x0, y0, x1, y1)
    requires |points| == Max(Abs(x1 - x0), Abs(y1 - y0))
    ensures IsLine(points + [Point(x1, y1)], x0, y0, x1, y1)
  {
    hide OnLine, Adjacent;
  }

  /** Moving one axis or both by one step. */
  lemma StepIsAdjacent(x: int, y: int, sx: int, sy: int, inX: bool, inY: bool)
    requires (sx == 1 || sx == -1) && (sy == 1 || sy == -1) && (inX || inY)
    ensures Adjacent(Point(x, y), Point(if inX then x + sx else x, if inY then y + sy else y))
  {}

  lemma CountStep(i: int, s: int)
    ensures (i + 1) * s == i * s + s
  {}

  /** The variables of the loop before a round: `i` and `j` steps have been made, `points` are plotted. */
  ghost predicate AtRound(points: seq<Point>, x: int, y: int, error: int, i: int, j: int,
                          x0: int, y0: int, x1: int, y1: int) {
    var dx, dy := Abs(x1 - x0), Abs(y1 - y0);
    && Walk(dx, dy, i, j, |points|)
    && x == x0 + i * StepSign(x0, x1) && y == y0 + j * StepSign(y0, y1)
    && error == Offset(dx, dy, i, j) + dx - dy
    && Drawing(points, x, y, x0, y0, x1, y1)
  }

  lemma FirstRound(x0: int, y0: int, x1: int, y1: int)
    ensures AtRound([], x0, y0, Abs(x1 - x0) - Abs(y1 - y0), 0, 0, x0, y0, x1, y1)
  {}

  lemma LastRound(points: seq<Point>, error: int, i: int, j: int, x0: int, y0: int, x1: int, y1: int)
    requires AtRound(points, x1, y1, error, i, j, x0, y0, x1, y1)
    ensures IsLine(points + [Point(x1, y1)], x0, y0, x1, y1)
  {
    hide Walk, Drawing, IsLine, OnLine, Offset;
    PointOfSteps(x0, y0, x1, y1, i, j, |points|);
    DrawingEnds(points, x0, y0, x1, y1);
  }

  /** A round that does not end the line leaves room for another one and makes the next point. */
  lemma NextRound(points: seq<Point>, x: int, y: int, error: int, i: int, j: int, x0: int, y0: int, x1: int, y1: int)
    requires AtRound(points, x, y, error, i, j, x0, y0, x1, y1) && !(x == x1 && y == y1)
    ensures var dx, dy := Abs(x1 - x0), Abs(y1 - y0);
            var inX, inY := StepsX(dx, dy, error), StepsY(dx, dy, error);
            && |points| < Max(dx, dy)
            && AtRound(points + [Point(x, y)],
                       if inX then x + StepSign(x0, x1) else x, if inY then y + StepSign(y0, y1) else y,
                       error - (if inX then dy else 0) + (if inY then dx else 0),
                       if inX then i + 1 else i, if inY then j + 1 else j, x0, y0, x1, y1)
  {
    hide Walk, Drawing, OnLine, Offset, StepsX, StepsY, Adjacent;
    var dx, dy, round := Abs(x1 - x0), Abs(y1 - y0), |points|;
    var sx, sy := StepSign(x0, x1), StepSign(y0, y1);
    var inX, inY := StepsX(dx, dy, error), StepsY(dx, dy, error);
    PointOfSteps(x0, y0, x1, y1, i, j, round);
    WalkIsInside(dx, dy, i, j, round);
    WalkStep(dx, dy, i, j, round, error);
    CountStep(i, sx);
    CountStep(j, sy);
    StepIsAdjacent(x, y, sx, sy, inX, inY);
    DrawingGrows(points, x, y, x0, y0, x1, y1, Point(if inX then x + sx else x, if inY then y + sy else y));
  }

  /** The loop. It ends for every pair of end points, draws exactly the pixels of a line from the one to
      the other and leaves every other pixel alone. */
  method Draw(image: Image, x0: int, y0: int, x1: int, y1: int, color: int) returns (ghost points: seq<Point>)
    requires image.Valid()
    modifies image.pixels
    ensures IsLine(points, x0, y0, x1, y1)
    ensures forall k :: 0 <= k < image.pixels.Length ==>
              image.pixels[k] == PixelOf(image, old(image.pixels[..]), points, color, k)
  {
    hide PixelOf, IsLine, AtRound;
    var dx: int, dy: int := Abs(x1 - x0), Abs(y1 - y0);
    var sx, sy := StepSign(x0, x1), StepSign(y0, y1);
    var x, y := x0, y0;
    var error := dx - dy;
    points := [];
    ghost var i, j := 0, 0;
    ghost var before := image.pixels[..];
    FirstRound(x0, y0, x1, y1);
    NothingHit(image, before, color);
    while true
      invariant AtRound(points, x, y, error, i, j, x0, y0, x1, y1)
      invariant forall k :: 0 <= k < |before| ==> image.pixels[k] == PixelOf(image, before, points, color, k)
      decreases Max(dx, dy) - |points|
    {
      Plot(image, Point(x, y), color, before, points);
      if x == x1 && y == y1 {
        LastRound(points, error, i, j, x0, y0, x1, y1);
        points := points + [Point(x, y)];
        break;
      }
      NextRound(points, x, y, error, i, j, x0, y0, x1, y1);
      points := points + [Point(x, y)];
      var doubled := error * 2;
      if doubled > -dy {
        error := error - dy;
        x := x + sx;
        i := i + 1;
      }
      if doubled < dx {
        error := error + dx;
        y := y + sy;
        j := j + 1;
      }
    }
  }

  lemma NothingHit(image: Image, before: seq<int>, color: int)
    ensures forall k :: 0 <= k < |before| ==> PixelOf(image, before, [], color, k) == before[k]
  {}

  lemma WalkIsInside(dx: nat, dy: nat, i: int, j: int, round: nat)
    requires Walk(dx, dy, i, j, round)
    ensures round <= Max(dx, dy)
  {}
}
