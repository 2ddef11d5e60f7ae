/**
 * The line and circle rasterisers of kernel/drivers/framebuffer.c. Coordinates are small enough
 * not to overflow. The points handed to fb_putpixel are returned in order.
 */
module Raster {
  import opened Prelude

  type Point = (int, int)

  // ----- Lines -----

  /** A point at most half a pixel off the ideal line, measured along the shorter axis. */
  ghost predicate NearLine(x1: int, y1: int, x2: int, y2: int, p: Point) {
    var dx: int := Abs(x2 - x1);
    var dy: int := Abs(y2 - y1);
    var a: int := Abs(p.0 - x1);
    var b: int := Abs(p.1 - y1);
    a <= dx && b <= dy && 2 * Abs(b * dx - a * dy) <= Max(dx, dy)
  }

  function Sign(d: int): int {
    if d > 0 then 1 else -1
  }

  /** Successive points are neighbours: one step on the longer axis, at most one on the other, towards the end. */
  predicate Neighbours(x1: int, y1: int, x2: int, y2: int, p: Point, q: Point) {
    && (q.0 == p.0 || q.0 == p.0 + Sign(x2 - x1)) && (q.1 == p.1 || q.1 == p.1 + Sign(y2 - y1))
    && (if Abs(x2 - x1) > Abs(y2 - y1) then q.0 != p.0 else q.1 != p.1)
  }

  /** `n` steps from `from` in the direction of `d`. */
  function Go(from: int, d: int, n: int): int {
    if d > 0 then from + n else from - n
  }

  lemma MulMonotone(x: int, y: int, d: int)
    requires 0 <= d
    ensures x <= y ==> x * d <= y * d
  {
    if x <= y {
      assert (y - x) * d >= 0;
    }
  }

  /** The error after a x-steps and b y-steps, and the range it stays in. */
  ghost predicate ErrorTerm(dx: int, dy: int, a: int, b: int, err: int) {
    && err == (if dx > dy then dx / 2 else -(dy / 2)) - a * dy + b * dx
    && (if dx > dy then 0 <= err < dx else -dy <= err <= 0 && (err == -dy ==> dy == 0))
  }

  /** b * dx and a * dy differ by at most half of the longer side. */
  lemma ErrorBoundsOffset(dx: int, dy: int, a: int, b: int, err: int)
    requires ErrorTerm(dx, dy, a, b, err) && 0 <= dx && 0 <= dy
    ensures 2 * Abs(b * dx - a * dy) <= Max(dx, dy)
  {
  }

  function Major(dx: int, dy: int, a: int, b: int): int {
    if dx > dy then a else b
  }

  /** Half a unit off is not a whole one: n stays within N while m stays within M, and they end together. */
  lemma Pace(m: int, M: int, n: int, N: int)
    requires 0 <= m <= M && 0 < M && 0 <= N
    requires 2 * Abs(n * M - m * N) <= M
    ensures n <= N && (m == M ==> n == N)
  {
    MulMonotone(m, M, N);
    MulMonotone(N + 1, n, M);
    MulMonotone(n + 1, N, M);
    assert (N + 1) * M == M * N + M;
    assert (n + 1) * M == n * M + M;
  }

  /** The shorter side keeps pace with the longer one, and ends with it. */
  lemma MinorKeepsPace(dx: int, dy: int, a: int, b: int, err: int)
    requires ErrorTerm(dx, dy, a, b, err) && 0 <= dx && 0 <= dy && 0 <= a && 0 <= b
    requires Major(dx, dy, a, b) <= Max(dx, dy) && (Max(dx, dy) == 0 ==> a == 0)
    ensures a <= dx && b <= dy
    ensures Major(dx, dy, a, b) == Max(dx, dy) ==> a == dx && b == dy
  {
    ErrorBoundsOffset(dx, dy, a, b, err);
    hide ErrorTerm;
    if dx > dy {
      Pace(a, dx, b, dy);
    } else if dy > 0 {
      assert Abs(a * dy - b * dx) == Abs(b * dx - a * dy);
      Pace(b, dy, a, dx);
    }
  }

  lemma MulNext(a: int, d: int)
    ensures (a + 1) * d == a * d + d
  {
  }

  /** One iteration keeps the error term and takes one step on the longer axis. */
  lemma ErrorStep(dx: int, dy: int, a: int, b: int, err: int)
    requires ErrorTerm(dx, dy, a, b, err) && 0 <= dx && 0 <= dy && 0 < Max(dx, dy)
    ensures var (stepX, stepY) := (err > -dx, err < dy);
            && ErrorTerm(dx, dy, if stepX then a + 1 else a, if stepY then b + 1 else b,
                         err - (if stepX then dy else 0) + (if stepY then dx else 0))
            && (if dx > dy then stepX else stepY)
            && Major(dx, dy, if stepX then a + 1 else a, if stepY then b + 1 else b) == Major(dx, dy, a, b) + 1
  {
    MulNext(a, dy);
    MulNext(b, dx);
  }

  /** Where the walk is after a x-steps and b y-steps. */
  function Reached(x1: int, y1: int, x2: int, y2: int, a: int, b: int): Point {
    (Go(x1, x2 - x1, a), Go(y1, y2 - y1, b))
  }

  lemma ReachedIsNear(x1: int, y1: int, x2: int, y2: int, a: int, b: int, err: int)
    requires ErrorTerm(Abs(x2 - x1), Abs(y2 - y1), a, b, err) && 0 <= a && 0 <= b
    requires Major(Abs(x2 - x1), Abs(y2 - y1), a, b) <= Max(Abs(x2 - x1), Abs(y2 - y1))
    requires Max(Abs(x2 - x1), Abs(y2 - y1)) == 0 ==> a == 0
    ensures NearLine(x1, y1, x2, y2, Reached(x1, y1, x2, y2, a, b))
    ensures Major(Abs(x2 - x1), Abs(y2 - y1), a, b) == Max(Abs(x2 - x1), Abs(y2 - y1)) <==>
            Reached(x1, y1, x2, y2, a, b) == (x2, y2)
  {
    var dx: int := Abs(x2 - x1);
    var dy: int := Abs(y2 - y1);
    MinorKeepsPace(dx, dy, a, b, err);
    ErrorBoundsOffset(dx, dy, a, b, err);
    var p := Reached(x1, y1, x2, y2, a, b);
    assert Abs(p.0 - x1) == a && Abs(p.1 - y1) == b;
  }

  /** The next point of the walk is a neighbour. */
  lemma NextIsNeighbour(x1: int, y1: int, x2: int, y2: int, a: int, b: int, stepX: bool, stepY: bool)
    requires if Abs(x2 - x1) > Abs(y2 - y1) then stepX else stepY
    ensures var (p, q) := (Reached(x1, y1, x2, y2, a, b),
                           Reached(x1, y1, x2, y2, if stepX then a + 1 else a, if stepY then b + 1 else b));
            && Neighbours(x1, y1, x2, y2, p, q)
            && q.0 == (if stepX then p.0 + Sign(x2 - x1) else p.0) && q.1 == (if stepY then p.1 + Sign(y2 - y1) else p.1)
  {
  }

  /** A path along the line from its start. */
  ghost predicate Trace(x1: int, y1: int, x2: int, y2: int, points: seq<Point>) {
    && points != [] && points[0] == (x1, y1)
    && (forall k :: 0 <= k < |points| ==> NearLine(x1, y1, x2, y2, points[k]))
    && (forall k :: 0 < k < |points| ==> Neighbours(x1, y1, x2, y2, points[k - 1], points[k]))
  }

  lemma TraceGrows(x1: int, y1: int, x2: int, y2: int, points: seq<Point>, p: Point)
    requires NearLine(x1, y1, x2, y2, p)
    requires if points == [] then p == (x1, y1)
             else Trace(x1, y1, x2, y2, points) && Neighbours(x1, y1, x2, y2, points[|points| - 1], p)
    ensures Trace(x1, y1, x2, y2, points + [p])
  {
    hide NearLine, Neighbours;
  }

  lemma Start(x1: int, y1: int, x2: int, y2: int)
    ensures var (dx, dy) := (Abs(x2 - x1) as int, Abs(y2 - y1) as int);
            && ErrorTerm(dx, dy, 0, 0, if dx > dy then dx / 2 else -(dy / 2))
            && Major(dx, dy, 0, 0) == 0 <= Max(dx, dy) && Reached(x1, y1, x2, y2, 0, 0) == (x1, y1)
  {
  }

  /** fb_draw_line */
  method Line(x1: int, y1: int, x2: int, y2: int) returns (points: seq<Point>)
    ensures |points| == Max(Abs(x2 - x1), Abs(y2 - y1)) + 1
    ensures Trace(x1, y1, x2, y2, points) && points[|points| - 1] == (x2, y2)
  {
    hide ErrorTerm, NearLine, Neighbours, Trace, Reached, Major;
    var dx := x2 - x1;
    var dy := y2 - y1;
    var sx := if dx > 0 then 1 else -1;
    var sy := if dy > 0 then 1 else -1;
    if dx < 0 {
      dx := -dx;
    }
    if dy < 0 {
      dy := -dy;
    }
    var err := if dx > dy then dx / 2 else -(dy / 2);
    var x, y := x1, y1;
    points := [];
    ghost var a: int, b: int := 0, 0;
    assert dx == Abs(x2 - x1) && dy == Abs(y2 - y1) && sx == Sign(x2 - x1) && sy == Sign(y2 - y1);
    Start(x1, y1, x2, y2);
    while true
      invariant ErrorTerm(dx, dy, a, b, err) && 0 <= a && 0 <= b && (Max(dx, dy) == 0 ==> a == 0)
      invariant |points| == Major(dx, dy, a, b) <= Max(dx, dy)
      invariant (x, y) == Reached(x1, y1, x2, y2, a, b)
      invariant if points == [] then (x, y) == (x1, y1)
                else Trace(x1, y1, x2, y2, points) && Neighbours(x1, y1, x2, y2, points[|points| - 1], (x, y))
      decreases Max(dx, dy) - |points|
    {
      ReachedIsNear(x1, y1, x2, y2, a, b, err);
      TraceGrows(x1, y1, x2, y2, points, (x, y));
      points := points + [(x, y)];
      if x == x2 && y == y2 {
        return;
      }
      ErrorStep(dx, dy, a, b, err);
      NextIsNeighbour(x1, y1, x2, y2, a, b, err > -dx, err < dy);
      var e2 := err;
      if e2 > -dx {
        err := err - dy;
        x := x + sx;
        a := a + 1;
      }
      if e2 < dy {
        err := err + dx;
        y := y + sy;
        b := b + 1;
      }
    }
  }

  // ----- Circles -----

  /** The eight reflections of the offset (x, y), in drawing order. */
  function Octants(cx: int, cy: int, x: int, y: int): seq<Point> {
    [(cx + x, cy + y), (cx + y, cy + x), (cx - y, cy + x), (cx - x, cy + y),
     (cx - x, cy - y), (cx - y, cy - x), (cx + y, cy - x), (cx + x, cy - y)]
  }

  function AllOctants(cx: int, cy: int, offsets: seq<Point>): seq<Point> {
    if offsets == [] then []
    else
      var last := offsets[|offsets| - 1];
      AllOctants(cx, cy, offsets[..|offsets| - 1]) + Octants(cx, cy, last.0, last.1)
  }

  /** An offset of the first octant: one step out on both sides leaves the circle, one step up hardly does. */
  ghost predicate NearCircle(r: int, p: Point) {
    var (x, y) := p;
    && 0 <= y <= x
    && (x + 1) * (x + 1) + (y + 1) * (y + 1) >= r * r + 2
    && x * x + (y + 1) * (y + 1) <= r * r + 5
  }

  ghost predicate CircleError(r: int, x: int, y: int, err: int) {
    err == x * x + y * y + 2 * y - r * r && -2 * x <= err <= 4 && 0 <= y
  }

  lemma CircleErrorBounds(r: int, x: int, y: int, err: int)
    requires CircleError(r, x, y, err) && y <= x
    ensures NearCircle(r, (x, y))
  {
    assert (x + 1) * (x + 1) == x * x + 2 * x + 1;
    assert (y + 1) * (y + 1) == y * y + 2 * y + 1;
  }

  lemma CircleStep(r: int, x: int, y: int, err: int)
    requires CircleError(r, x, y, err) && y <= x
    ensures var (y', e1) := if err <= 0 then (y + 1, err + 2 * (y + 1) + 1) else (y, err);
            var (x', e2) := if e1 > 0 then (x - 1, e1 - (2 * (x - 1) + 1)) else (x, e1);
            CircleError(r, x', y', e2)
  {
    assert (y + 1) * (y + 1) == y * y + 2 * y + 1;
    assert (x - 1) * (x - 1) == x * x - 2 * x + 1;
  }

  /** Successive offsets of the first octant are neighbours. */
  predicate OctantStep(p: Point, q: Point) {
    (q.0 == p.0 || q.0 == p.0 - 1) && (q.1 == p.1 || q.1 == p.1 + 1) && p != q
  }

  /** fb_draw_circle: the points plotted, and the offsets they come from. A negative radius draws nothing. */
  method Circle(cx: int, cy: int, radius: int) returns (points: seq<Point>, offsets: seq<Point>)
    ensures points == AllOctants(cx, cy, offsets)
    ensures if radius < 0 then offsets == [] else |offsets| > 0 && offsets[0] == (radius, 0)
    ensures forall k :: 0 <= k < |offsets| ==> NearCircle(radius, offsets[k])
    ensures forall k :: 0 < k < |offsets| ==> OctantStep(offsets[k - 1], offsets[k])
    ensures radius >= 0 ==> exists x, y :: x < y && OctantStep(offsets[|offsets| - 1], (x, y))
  {
    var x, y, err := radius, 0, 0;
    points, offsets := [], [];
    if radius >= 0 {
      assert CircleError(radius, x, y, err);
    }
    hide NearCircle, CircleError;
    while x >= y
      invariant radius >= 0 ==> CircleError(radius, x, y, err)
      invariant radius < 0 ==> offsets == [] && x < y
      invariant points == AllOctants(cx, cy, offsets)
      invariant offsets == [] ==> (x, y) == (radius, 0)
      invariant offsets != [] ==> offsets[0] == (radius, 0) && OctantStep(offsets[|offsets| - 1], (x, y))
      invariant forall k :: 0 <= k < |offsets| ==> NearCircle(radius, offsets[k])
      invariant forall k :: 0 < k < |offsets| ==> OctantStep(offsets[k - 1], offsets[k])
      decreases x - y
    {
      CircleErrorBounds(radius, x, y, err);
      CircleStep(radius, x, y, err);
      assert (offsets + [(x, y)])[..|offsets|] == offsets;
      points := points + Octants(cx, cy, x, y);
      offsets := offsets + [(x, y)];
      if err <= 0 {
        y := y + 1;
        err := err + (2 * y + 1);
      }
      if err > 0 {
        x := x - 1;
        err := err - (2 * x + 1);
      }
    }
  }

  lemma {:induction false} InOctants(cx: int, cy: int, offsets: seq<Point>, p: Point)
    ensures p in AllOctants(cx, cy, offsets) <==>
            exists k :: 0 <= k < |offsets| && p in Octants(cx, cy, offsets[k].0, offsets[k].1)
  {
    if offsets != [] {
      var before, last := offsets[..|offsets| - 1], |offsets| - 1;
      InOctants(cx, cy, before, p);
      assert forall k :: 0 <= k < last ==> before[k] == offsets[k];
    }
  }

  /** The drawn circle is symmetric about both axes and both diagonals through its centre. */
  lemma CircleIsSymmetric(cx: int, cy: int, offsets: seq<Point>, dx: int, dy: int)
    requires (cx + dx, cy + dy) in AllOctants(cx, cy, offsets)
    ensures (cx - dx, cy + dy) in AllOctants(cx, cy, offsets)
    ensures (cx + dx, cy - dy) in AllOctants(cx, cy, offsets)
    ensures (cx + dy, cy + dx) in AllOctants(cx, cy, offsets)
  {
    InOctants(cx, cy, offsets, (cx + dx, cy + dy));
    var k :| 0 <= k < |offsets| && (cx + dx, cy + dy) in Octants(cx, cy, offsets[k].0, offsets[k].1);
    InOctants(cx, cy, offsets, (cx - dx, cy + dy));
    InOctants(cx, cy, offsets, (cx + dx, cy - dy));
    InOctants(cx, cy, offsets, (cx + dy, cy + dx));
    Reflections(cx, cy, offsets[k].0, offsets[k].1, dx, dy);
  }

  /** A point is a reflection of (x, y) when its offsets have the same sizes, in either order. */
  predicate Reflected(x: int, y: int, dx: int, dy: int) {
    (Abs(dx) == Abs(x) && Abs(dy) == Abs(y)) || (Abs(dx) == Abs(y) && Abs(dy) == Abs(x))
  }

  lemma OctantsAreReflections(cx: int, cy: int, x: int, y: int, dx: int, dy: int)
    ensures (cx + dx, cy + dy) in Octants(cx, cy, x, y) <==> Reflected(x, y, dx, dy)
  {
    var o, p := Octants(cx, cy, x, y), (cx + dx, cy + dy);
    if p in o {
      var i :| 0 <= i < 8 && o[i] == p;
    }
    if dx == x && dy == y {
      assert o[0] == p;
    } else if dx == y && dy == x {
      assert o[1] == p;
    } else if dx == -y && dy == x {
      assert o[2] == p;
    } else if dx == -x && dy == y {
      assert o[3] == p;
    } else if dx == -x && dy == -y {
      assert o[4] == p;
    } else if dx == -y && dy == -x {
      assert o[5] == p;
    } else if dx == y && dy == -x {
      assert o[6] == p;
    } else if dx == x && dy == -y {
      assert o[7] == p;
    }
  }

  lemma Reflections(cx: int, cy: int, x: int, y: int, dx: int, dy: int)
    requires (cx + dx, cy + dy) in Octants(cx, cy, x, y)
    ensures (cx - dx, cy + dy) in Octants(cx, cy, x, y)
    ensures (cx + dx, cy - dy) in Octants(cx, cy, x, y)
    ensures (cx + dy, cy + dx) in Octants(cx, cy, x, y)
  {
    hide Octants;
    OctantsAreReflections(cx, cy, x, y, dx, dy);
    OctantsAreReflections(cx, cy, x, y, -dx, dy);
    OctantsAreReflections(cx, cy, x, y, dx, -dy);
    OctantsAreReflections(cx, cy, x, y, dy, dx);
  }

  // ----- Pixels -----

  class Framebuffer {
    const pixels: array2<nat>

    constructor (width: nat, height: nat)
      ensures pixels.Length0 == width && pixels.Length1 == height && fresh(pixels)
    {
      pixels := new nat[width, height]((_, _) => 0);
    }

    /** fb_putpixel: points outside the screen are dropped. */
    method PutPixel(x: int, y: int, color: nat)
      modifies pixels
      ensures forall i, j :: 0 <= i < pixels.Length0 && 0 <= j < pixels.Length1 ==>
                pixels[i, j] == if (i, j) == (x, y) then color else old(pixels[i, j])
    {
      if x < 0 || x >= pixels.Length0 || y < 0 || y >= pixels.Length1 {
        return;
      }
      pixels[x, y] := color;
    }

    /** Drawing colours exactly the plotted points that are on the screen. */
    method Plot(points: seq<Point>, color: nat)
      modifies pixels
      ensures forall i, j :: 0 <= i < pixels.Length0 && 0 <= j < pixels.Length1 ==>
                pixels[i, j] == if (i, j) in points then color else old(pixels[i, j])
    {
      var k := 0;
      while k < |points|
        invariant 0 <= k <= |points|
        invariant forall i, j :: 0 <= i < pixels.Length0 && 0 <= j < pixels.Length1 ==>
                    pixels[i, j] == if (i, j) in points[..k] then color else old(pixels[i, j])
      {
        PutPixel(points[k].0, points[k].1, color);
        assert points[..k + 1] == points[..k] + [points[k]];
        k := k + 1;
      }
      assert points[..k] == points;
    }
  }
}
