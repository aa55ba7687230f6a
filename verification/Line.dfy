/** `grf_line`: the error-driven loop draws, in order, the rounded points of the ideal segment. */
module Line {
  import opened Pixels

  /** k * minor / major rounded to the nearest integer, halves down. */
  function Rounded(k: int, minor: int, major: int): int
    requires 0 <= k && 0 <= minor && major > 0
  {
    (2 * (k * minor) + major - 1) / (2 * major)
  }

  /** That many steps from one coordinate towards another. */
  function Toward(from: int, to: int, steps: int): int { if from < to then from + steps else from - steps }

  function Length(a: Point, b: Point): nat { Max(Abs(b.x - a.x), Abs(b.y - a.y)) }

  /** The k-th point from a towards b: k steps along the major axis, the nearest point along the minor one. */
  function PointAt(a: Point, b: Point, k: nat): Point {
    var dx, dy := Abs(b.x - a.x), Abs(b.y - a.y);
    if dx == 0 && dy == 0 then a
    else if dx >= dy then Point(Toward(a.x, b.x, k), Toward(a.y, b.y, Rounded(k, dy, dx)))
    else Point(Toward(a.x, b.x, Rounded(k, dx, dy)), Toward(a.y, b.y, k))
  }

  function Path(a: Point, b: Point, n: nat): (p: seq<Point>)
    ensures |p| == n
  {
    seq(n, k requires 0 <= k => PointAt(a, b, k))
  }

  /** The end point first, then every point from the start up to, but not including, the end. */
  function Points(a: Point, b: Point): seq<Point> {
    [b] + Path(a, b, Length(a, b))
  }

  // Rounding.

  /** The distance of the rounded point from the ideal one, in units of 1 / (2 * major). */
  lemma RoundedIsNearest(k: int, minor: int, major: int)
    requires 0 <= k && 0 <= minor && major > 0
    ensures var d := 2 * (Rounded(k, minor, major) * major) - 2 * (k * minor);
            -major <= d < major
  {
    DivMod(2 * (k * minor) + major - 1, major, Rounded(k, minor, major));
  }

  lemma DivMod(a: int, m: nat, q: int)
    requires m > 0 && q == a / (2 * m)
    ensures 2 * (q * m) <= a < 2 * (q * m) + 2 * m
  {
    assert a == (2 * m) * q + a % (2 * m);
    assert (2 * m) * q == 2 * (q * m);
  }

  /** No other integer is that near. */
  lemma RoundedUnique(k: int, minor: int, major: int, j: int)
    requires 0 <= k && 0 <= minor && major > 0 && -major <= 2 * (j * major) - 2 * (k * minor) < major
    ensures j == Rounded(k, minor, major)
  {
    RoundedIsNearest(k, minor, major);
    SameMultiple(j, Rounded(k, minor, major), major);
  }

  lemma SameMultiple(j: int, r: int, m: int)
    requires m > 0 && -m < j * m - r * m < m
    ensures j == r
  {
    assert (j - r) * m == j * m - r * m;
    MulGrows(j - r, m);
    MulGrows(r - j, m);
  }

  lemma MulGrows(q: int, m: int)
    requires m > 0
    ensures q >= 1 ==> q * m >= m
    ensures (-q) * m == -(q * m)
  {
  }

  /** Rounding never leaves the segment. */
  lemma RoundedRange(k: int, minor: int, major: int)
    requires 0 <= k <= major && 0 <= minor && major > 0
    ensures 0 <= Rounded(k, minor, major) <= minor
    ensures Rounded(0, minor, major) == 0 && Rounded(major, minor, major) == minor
  {
    RoundedUnique(0, minor, major, 0);
    RoundedUnique(major, minor, major, minor);
    RoundedMonotone(0, k, minor, major);
    RoundedMonotone(k, major, minor, major);
  }

  lemma RoundedMonotone(k: int, l: int, minor: int, major: int)
    requires 0 <= k <= l && 0 <= minor && major > 0
    ensures Rounded(k, minor, major) <= Rounded(l, minor, major)
  {
    assert k * minor <= l * minor;
    DivMonotone(2 * (k * minor) + major - 1, 2 * (l * minor) + major - 1, 2 * major);
  }

  lemma DivMonotone(a: int, b: int, m: int)
    requires a <= b && m > 0
    ensures a / m <= b / m
  {
    var p, q := a / m, b / m;
    assert a == m * p + a % m && b == m * q + b % m;
    MulGrows(p - q, m);
    assert (p - q) * m == m * p - m * q;
  }

  // One round of the loop, with i steps made along x and j along y.

  /** Where the loop is after k rounds. */
  predicate Tracks(dx: int, dy: int, k: int, i: int, j: int)
    requires 0 <= dx && 0 <= dy && 0 <= k
  {
    if dx == 0 && dy == 0 then i == 0 && j == 0
    else if dx >= dy then i == k && j == Rounded(k, dy, dx)
    else j == k && i == Rounded(k, dx, dy)
  }

  /** The error term after i steps along x and j along y. */
  function ErrorAt(dx: int, dy: int, i: int, j: int): int { dx - dy + j * dx - i * dy }

  /** The two tests of the loop body move to the next point. */
  lemma RoundTracks(dx: int, dy: int, k: int, i: int, j: int, error: int)
    requires 0 <= dx && 0 <= dy && 0 <= k < Max(dx, dy) && Tracks(dx, dy, k, i, j)
    requires error == ErrorAt(dx, dy, i, j)
    ensures Tracks(dx, dy, k + 1, if 2 * error > -dy then i + 1 else i, if 2 * error < dx then j + 1 else j)
  {
    hide Rounded;
    if dx >= dy {
      RoundedIsNearest(k, dy, dx);
      if dx == dy {
        RoundedUnique(k, dx, dx, k);
      }
      NextRounded(k, dy, dx, j);
    } else {
      RoundedIsNearest(k, dx, dy);
      NextRounded(k, dx, dy, i);
    }
  }

  /** The next rounded value, from the distance of the last. */
  lemma NextRounded(k: int, minor: int, major: int, j: int)
    requires 0 <= k && 0 <= minor <= major && major > 0 && j == Rounded(k, minor, major)
    ensures var d := j * major - k * minor;
            Rounded(k + 1, minor, major) == if 2 * d < 2 * minor - major then j + 1 else j
  {
    RoundedIsNearest(k, minor, major);
    assert (k + 1) * minor == k * minor + minor && (j + 1) * major == j * major + major;
    RoundedUnique(k + 1, minor, major, if 2 * (j * major - k * minor) < 2 * minor - major then j + 1 else j);
  }

  /** Only after Max(dx, dy) rounds is the end reached, in both coordinates together. */
  lemma EndReached(dx: int, dy: int, k: int, i: int, j: int)
    requires 0 <= dx && 0 <= dy && 0 <= k <= Max(dx, dy) && Tracks(dx, dy, k, i, j)
    ensures 0 <= i <= dx && 0 <= j <= dy
    ensures i == dx && j == dy <==> k == Max(dx, dy)
  {
    if dx >= dy && dx > 0 {
      RoundedRange(k, dy, dx);
    } else if dy > dx {
      RoundedRange(k, dx, dy);
    }
  }

  /** The error of the loop fits 16 bits when the segment spans at most 10923 pixels each way. */
  const SPAN := 10923

  lemma ErrorFits(dx: int, dy: int, k: int, i: int, j: int)
    requires 0 <= dx <= SPAN && 0 <= dy <= SPAN && 0 <= k <= Max(dx, dy) && Tracks(dx, dy, k, i, j)
    ensures -0x8000 <= 2 * ErrorAt(dx, dy, i, j) < 0x8000
  {
    hide Rounded;
    if dx >= dy && dx > 0 {
      RoundedIsNearest(k, dy, dx);
      RoundedRange(k, dy, dx);
      TimesZero(dy, k, j, dx);
      hide Tracks;
    } else if dy > dx {
      RoundedIsNearest(k, dx, dy);
      RoundedRange(k, dx, dy);
      TimesZero(dx, k, i, dy);
      hide Tracks;
    }
  }

  lemma TimesZero(minor: int, k: int, r: int, major: int)
    ensures minor == 0 && r == 0 ==> k * minor == 0 && r * major == 0
  {
  }

  /** One pixel more, and the doubled error leaves 16 bits on the way. */
  lemma SpanIsLargest()
    ensures Tracks(SPAN + 1, 1, 5463, 5463, 1) && 2 * ErrorAt(SPAN + 1, 1, 5463, 1) == 0x8000
  {
    RoundedUnique(5463, 1, SPAN + 1, 1);
  }

  method GrfLine(x1: int16, y1: int16, x2: int16, y2: int16) returns (plotted: seq<Point>)
    requires Abs(x2 - x1) <= SPAN && Abs(y2 - y1) <= SPAN
    ensures plotted == Points(Point(x1, y1), Point(x2, y2))
    ensures |plotted| == Max(Abs(x2 - x1), Abs(y2 - y1)) + 1
    ensures forall p :: p in plotted <==> OnLine(Point(x1, y1), Point(x2, y2), p)
    ensures Point(x1, y1) in plotted && Point(x2, y2) in plotted
    ensures forall m, n :: 0 <= m < n < |plotted| ==> plotted[m] != plotted[n]
  {
    LinePixels(Point(x1, y1), Point(x2, y2));
    hide OnLine, Points;
    hide Rounded, Tracks, Path, PointAt, ErrorAt, Toward;
    hide Max;
    ghost var a, b := Point(x1, y1), Point(x2, y2);
    var deltaX: int16, deltaY: int16 := Abs(x2 - x1), Abs(y2 - y1);
    var signX, signY := if x1 < x2 then 1 else -1, if y1 < y2 then 1 else -1;
    var error: int16 := deltaX - deltaY;
    var x: int16, y: int16 := x1, y1;
    plotted := [Point(x2, y2)];
    ghost var k, i, j := 0, 0, 0;
    StartTracks(deltaX, deltaY);
    EndReached(deltaX, deltaY, k, i, j);
    ErrorStep(deltaX, deltaY, 0, 0);
    PointsArePath(a, b);
    PathGrows(a, b, 0);
    TowardEnds(x1, x2, 0);
    TowardEnds(y1, y2, 0);
    while x != x2 || y != y2
      invariant 0 <= k <= Max(deltaX, deltaY) && Tracks(deltaX, deltaY, k, i, j)
      invariant 0 <= i <= deltaX && 0 <= j <= deltaY && (x == x2 && y == y2 <==> k == Max(deltaX, deltaY))
      invariant x == Toward(x1, x2, i) && y == Toward(y1, y2, j)
      invariant error == ErrorAt(deltaX, deltaY, i, j)
      invariant plotted == [b] + Path(a, b, k)
      decreases Max(deltaX, deltaY) - k
    {
      TrackedPoint(a, b, k, i, j);
      PathGrows(a, b, k);
      plotted := plotted + [Point(x, y)];
      ErrorFits(deltaX, deltaY, k, i, j);
      RoundTracks(deltaX, deltaY, k, i, j, error);
      ErrorStep(deltaX, deltaY, i, j);
      ghost var i', j' := if 2 * error > -deltaY then i + 1 else i, if 2 * error < deltaX then j + 1 else j;
      EndReached(deltaX, deltaY, k + 1, i', j');
      TowardEnds(x1, x2, i');
      TowardEnds(y1, y2, j');
      x, y, error := Round(deltaX, deltaY, signX, signY, x, y, error);
      k, i, j := k + 1, i', j';
    }
  }

  /** The two tests, with every intermediate value in 16 bits. */
  method Round(deltaX: int16, deltaY: int16, signX: int16, signY: int16, x0: int16, y0: int16, error0: int16)
    returns (x: int16, y: int16, error: int16)
    requires 0 <= deltaX <= SPAN && 0 <= deltaY <= SPAN && -0x8000 <= 2 * error0 < 0x8000
    requires 2 * error0 > -deltaY ==> -0x8000 <= x0 + signX < 0x8000
    requires 2 * error0 < deltaX ==> -0x8000 <= y0 + signY < 0x8000
    ensures x == if 2 * error0 > -deltaY then x0 + signX else x0
    ensures y == if 2 * error0 < deltaX then y0 + signY else y0
    ensures error == error0 - (if 2 * error0 > -deltaY then deltaY else 0) + (if 2 * error0 < deltaX then deltaX else 0)
  {
    x, y, error := x0, y0, error0;
    var error2: int16 := error * 2;
    if error2 > -deltaY {
      error := error - deltaY;
      x := x + signX;
    }
    if error2 < deltaX {
      error := error + deltaX;
      y := y + signY;
    }
  }

  lemma TowardEnds(from: int16, to: int16, s: int)
    ensures Toward(from, to, 0) == from
    ensures 0 <= s <= Abs(to - from) ==> -0x8000 <= Toward(from, to, s) < 0x8000
    ensures 0 <= s <= Abs(to - from) ==> (Toward(from, to, s) == to <==> s == Abs(to - from))
    ensures Toward(from, to, s) == Toward(from, to, s - 1) + if from < to then 1 else -1
  {
  }

  lemma PathGrows(a: Point, b: Point, k: nat)
    ensures [b] + Path(a, b, 0) == [b]
    ensures [b] + Path(a, b, k + 1) == [b] + Path(a, b, k) + [PointAt(a, b, k)]
  {
    hide PointAt;
  }

  lemma ErrorStep(dx: int, dy: int, i: int, j: int)
    ensures ErrorAt(dx, dy, i + 1, j) == ErrorAt(dx, dy, i, j) - dy
    ensures ErrorAt(dx, dy, i, j + 1) == ErrorAt(dx, dy, i, j) + dx
    ensures ErrorAt(dx, dy, i + 1, j + 1) == ErrorAt(dx, dy, i, j) - dy + dx
    ensures ErrorAt(dx, dy, 0, 0) == dx - dy
  {
  }

  lemma TrackedPoint(a: Point, b: Point, k: int, i: int, j: int)
    requires 0 <= k < Length(a, b) && Tracks(Abs(b.x - a.x), Abs(b.y - a.y), k, i, j)
    ensures PointAt(a, b, k) == Point(Toward(a.x, b.x, i), Toward(a.y, b.y, j))
  {
  }

  lemma StartTracks(dx: int, dy: int)
    requires 0 <= dx && 0 <= dy
    ensures 0 <= Max(dx, dy) && Tracks(dx, dy, 0, 0, 0)
  {
    if dx >= dy && dx > 0 {
      RoundedRange(0, dy, dx);
    } else if dy > dx {
      RoundedRange(0, dx, dy);
    }
  }

  lemma PointsArePath(a: Point, b: Point)
    ensures Points(a, b) == [b] + Path(a, b, Max(Abs(b.x - a.x), Abs(b.y - a.y)))
  {
  }

  // What the points are.

  /** One of the points from start to end, both included. */
  predicate OnLine(a: Point, b: Point, p: Point) {
    exists k :: 0 <= k <= Max(Abs(b.x - a.x), Abs(b.y - a.y)) && p == PointAt(a, b, k)
  }

  /** Exactly the points from start to end are drawn, both ends among them, and none twice. */
  lemma LinePixels(a: Point, b: Point)
    ensures var all := Points(a, b);
            && |all| == Max(Abs(b.x - a.x), Abs(b.y - a.y)) + 1
            && (forall p :: p in all <==> OnLine(a, b, p))
            && a in all && b in all
            && (forall m, n :: 0 <= m < n < |all| ==> all[m] != all[n])
  {
    hide PointAt;
    var n, all := Length(a, b), Points(a, b);
    LineArrives(a, b);
    assert all[0] == PointAt(a, b, n);
    assert forall k :: 0 <= k < n ==> all[k + 1] == PointAt(a, b, k);
    forall p ensures p in all <==> OnLine(a, b, p) {
      if OnLine(a, b, p) {
        var k :| 0 <= k <= n && p == PointAt(a, b, k);
        assert p == all[if k == n then 0 else k + 1];
      }
    }
    assert OnLine(a, b, a) && OnLine(a, b, b);
    forall k, l | 0 <= k < l <= n ensures PointAt(a, b, k) != PointAt(a, b, l) {
      PointsDiffer(a, b, k, l);
    }
  }

  lemma PointsDiffer(a: Point, b: Point, k: nat, l: nat)
    requires k < l <= Length(a, b)
    ensures PointAt(a, b, k) != PointAt(a, b, l)
  {
    hide Rounded;
  }

  /** Start and end. */
  lemma LineArrives(a: Point, b: Point)
    ensures PointAt(a, b, 0) == a && PointAt(a, b, Length(a, b)) == b
  {
    var dx, dy := Abs(b.x - a.x), Abs(b.y - a.y);
    if dx >= dy && dx > 0 {
      RoundedRange(0, dy, dx);
    } else if dy > dx {
      RoundedRange(0, dx, dy);
    }
  }

  /** Neighbours touch, by a side or a corner, and differ. */
  lemma LineIsConnected(a: Point, b: Point, k: nat)
    requires k < Length(a, b)
    ensures var p, q := PointAt(a, b, k), PointAt(a, b, k + 1);
            Max(Abs(q.x - p.x), Abs(q.y - p.y)) == 1
  {
    hide Rounded;
    var dx, dy := Abs(b.x - a.x), Abs(b.y - a.y);
    if dx >= dy {
      NextRounded(k, dy, dx, Rounded(k, dy, dx));
    } else {
      NextRounded(k, dx, dy, Rounded(k, dx, dy));
    }
  }

  /** Twice the area spanned by the segment and the point p. */
  function Cross(a: Point, b: Point, p: Point): int {
    (p.y - a.y) * (b.x - a.x) - (p.x - a.x) * (b.y - a.y)
  }

  /** Along the minor axis, every point is at most half a pixel from the ideal segment. */
  lemma WithinHalfPixel(a: Point, b: Point, k: nat)
    requires k <= Length(a, b)
    ensures 2 * Abs(Cross(a, b, PointAt(a, b, k))) <= Length(a, b)
  {
    hide Rounded;
    var dx, dy := Abs(b.x - a.x), Abs(b.y - a.y);
    if dx == 0 && dy == 0 {
    } else if dx >= dy {
      var j := Rounded(k, dy, dx);
      RoundedIsNearest(k, dy, dx);
      CrossOfSteps(a, b, k, j);
    } else {
      var i := Rounded(k, dx, dy);
      RoundedIsNearest(k, dx, dy);
      CrossOfSteps(a, b, i, k);
    }
  }

  /**
   The k-th point has made k steps along the longer axis, the x axis when both are equal, and the nearest
   number of steps along the other, the smaller of two equally near.
   */
  lemma StepsOfPoint(a: Point, b: Point, k: nat)
    requires k <= Length(a, b)
    ensures var p, dx, dy := PointAt(a, b, k), Abs(b.x - a.x), Abs(b.y - a.y);
            var i, j := Abs(p.x - a.x), Abs(p.y - a.y);
            && Min(a.x, b.x) <= p.x <= Max(a.x, b.x) && Min(a.y, b.y) <= p.y <= Max(a.y, b.y)
            && (dx >= dy && dx > 0 ==> i == k && -dx <= 2 * (j * dx) - 2 * (k * dy) < dx)
            && (dy > dx ==> j == k && -dy <= 2 * (i * dy) - 2 * (k * dx) < dy)
  {
    hide Rounded;
    var dx, dy := Abs(b.x - a.x), Abs(b.y - a.y);
    if dx >= dy && dx > 0 {
      RoundedIsNearest(k, dy, dx);
      RoundedRange(k, dy, dx);
      assert Abs(PointAt(a, b, k).y - a.y) == Rounded(k, dy, dx);
    } else if dy > dx {
      RoundedIsNearest(k, dx, dy);
      RoundedRange(k, dx, dy);
      assert Abs(PointAt(a, b, k).x - a.x) == Rounded(k, dx, dy);
    }
  }

  lemma CrossOfSteps(a: Point, b: Point, i: int, j: int)
    ensures Abs(Cross(a, b, Point(Toward(a.x, b.x, i), Toward(a.y, b.y, j))))
            == Abs(j * Abs(b.x - a.x) - i * Abs(b.y - a.y))
  {
    var dx, dy := b.x - a.x, b.y - a.y;
    MulSigns(i, dy);
    MulSigns(j, dx);
  }

  lemma MulSigns(s: int, d: int)
    ensures (-s) * d == -(s * d) && s * -d == -(s * d) && (-s) * -d == s * d
  {
  }

  /** k * minor / major lies halfway between two integers. */
  predicate Halfway(k: int, minor: int, major: int)
    requires major > 0
  {
    (2 * (k * minor) + major) % (2 * major) == 0
  }

  /** Halfway means that the value was rounded down by exactly one half. */
  lemma HalfwayIff(k: int, minor: int, major: int)
    requires 0 <= k && 0 <= minor && major > 0
    ensures Halfway(k, minor, major) <==> 2 * (Rounded(k, minor, major) * major) - 2 * (k * minor) == -major
  {
    hide Rounded;
    var p, j := k * minor, Rounded(k, minor, major);
    RoundedIsNearest(k, minor, major);
    var q := (2 * p + major) / (2 * major);
    assert 2 * p + major == (2 * major) * q + (2 * p + major) % (2 * major);
    assert (2 * major) * q == 2 * (q * major) && (q - 1) * major == q * major - major;
    if Halfway(k, minor, major) {
      RoundedUnique(k, minor, major, q - 1);
    } else if 2 * (j * major) - 2 * p == -major {
      ExactMultiple(2 * p + major, j + 1, 2 * major);
    }
  }

  lemma ExactMultiple(a: int, q: int, m: int)
    requires m > 0 && a == q * m
    ensures a % m == 0
  {
    var r := a / m;
    assert a == m * r + a % m;
    MulGrows(q - r, m);
    assert (q - r) * m == q * m - r * m;
    if q - r <= 0 {
      MulGrows(r - q, m);
    }
  }

  lemma Distribute(a: int, b: int, c: int)
    ensures (a - b) * c == a * c - b * c
    ensures a * c == c * a
  {
  }

  /** Counted from the other end, the rounding agrees except at halves. */
  lemma RoundedReversed(k: int, minor: int, major: int)
    requires 0 <= k <= major && 0 <= minor && major > 0
    ensures minor - Rounded(major - k, minor, major) == Rounded(k, minor, major) <==> !Halfway(k, minor, major)
  {
    hide Rounded, Halfway;
    var j, h := Rounded(k, minor, major), Rounded(major - k, minor, major);
    Distribute(major, k, minor);
    Distribute(minor, h, major);
    RoundedIsNearest(k, minor, major);
    RoundedIsNearest(major - k, minor, major);
    HalfwayIff(k, minor, major);
    if !Halfway(k, minor, major) {
      SameMultiple(minor - h, j, major);
    }
  }

  /** The line drawn backwards has the same k-th point, exactly when the ideal point is not halfway. */
  lemma LineReversed(a: Point, b: Point, k: nat)
    requires k <= Length(a, b) && a != b
    ensures var minor := Min(Abs(b.x - a.x), Abs(b.y - a.y));
            && Length(a, b) == Length(b, a) > 0
            && (PointAt(b, a, Length(a, b) - k) == PointAt(a, b, k) <==> !Halfway(k, minor, Length(a, b)))
  {
    hide Rounded, Halfway;
    assert a.x != b.x || a.y != b.y;
    var minor, major := Min(Abs(b.x - a.x), Abs(b.y - a.y)), Length(a, b);
    RoundedReversed(k, minor, major);
    RoundedRange(k, minor, major);
    RoundedRange(major - k, minor, major);
  }
}
