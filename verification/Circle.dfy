/** `grf_circle` and `grf_circleHelper`: two error recurrences, one set of pixels. */
module Circle {
  import opened Pixels

  /**
   x is the integer nearest to the square root of r * r - y * y, in the octant 0 <= y <= x:
   the circle passes within half a pixel of (x, y) along x.
   */
  predicate OnArc(r: int, x: int, y: int) {
    0 <= y <= x && x * (x - 1) + y * y < r * r <= x * (x + 1) + y * y
  }

  function Big(c: Point, p: Point): int { Max(Abs(p.x - c.x), Abs(p.y - c.y)) }

  function Small(c: Point, p: Point): int { Min(Abs(p.x - c.x), Abs(p.y - c.y)) }

  /** The circle of radius r around c, by its symmetry. */
  predicate OnCircle(c: Point, r: int, p: Point) {
    OnArc(r, Big(c, p), Small(c, p))
  }

  /** Its squared distance from the centre differs from r * r by less than the larger offset, or by just that much less. */
  lemma CirclePixels(c: Point, r: int, p: Point)
    ensures var u, v := p.x - c.x, p.y - c.y;
            OnCircle(c, r, p) <==>
            if v <= u && -u <= v then -u <= u * u + v * v - r * r < u
            else if u <= v && -v <= u then -v <= u * u + v * v - r * r < v
            else if u <= v && v <= -u then u <= u * u + v * v - r * r < -u
            else v <= u * u + v * v - r * r < -v
  {
    SquareOf(p.x - c.x);
    SquareOf(p.y - c.y);
  }

  lemma SquareOf(u: int)
    ensures Abs(u) * Abs(u) == u * u
    ensures Abs(u) * (Abs(u) - 1) == u * u - Abs(u) && Abs(u) * (Abs(u) + 1) == u * u + Abs(u)
  {
  }

  lemma SquareMonotone(a: int, b: int)
    requires 0 <= a <= b
    ensures a * a <= b * b
    ensures a * (a + 1) <= b * (b + 1)
  {
  }

  lemma ProductMonotone(a: int, b: int)
    requires 0 <= a < b
    ensures a * (a + 1) <= b * (b - 1)
  {
  }

  /** One pixel to a column. */
  lemma ArcIsFunction(r: int, x: int, x': int, y: int)
    requires OnArc(r, x, y) && OnArc(r, x', y)
    ensures x == x'
  {
    if x < x' {
      SquareMonotone(x, x' - 1);
    } else if x' < x {
      SquareMonotone(x', x - 1);
    }
  }

  // The loop of `grf_circle`.

  predicate Tracks(r: int, x: int, y: int, error: int) {
    && 0 <= y && -1 <= x <= r
    && error == x * (x - 1) + y * y - r * r
    && r * r <= x * (x + 1) + y * y
    && (x >= y ==> error < 0)
  }

  lemma CircleStarts(r: int)
    requires r >= 1
    ensures Tracks(r, r, 0, -r)
  {
  }

  lemma CircleStep(r: int, x: int, y: int, error: int)
    requires Tracks(r, x, y, error) && x >= y
    ensures 0 <= y <= x <= r && -2 * x <= error < 0
    ensures OnArc(r, x, y)
    ensures var e := error + 2 * y + 1;
            if e >= 0 then Tracks(r, x - 1, y + 1, e - 2 * (x - 1)) else Tracks(r, x, y + 1, e)
  {
    assert (y + 1) * (y + 1) == y * y + 2 * y + 1;
    assert (x - 1) * (x - 2) == x * (x - 1) - 2 * (x - 1);
  }

  /** When the loop ends at row y, no pixel of the octant lies in row y or beyond. */
  lemma ArcEnds(r: int, x: int, y: int, error: int, bigX: int, smallY: int)
    requires Tracks(r, x, y, error) && x < y <= smallY
    ensures !OnArc(r, bigX, smallY)
  {
    if OnArc(r, bigX, smallY) {
      SquareMonotone(y, smallY);
      ProductMonotone(if x < 0 then 0 else x, bigX);
    }
  }

  /** The eight pixels of one round. */
  function Octants(c: Point, x: int, y: int): seq<Point> {
    [Point(c.x + x, c.y + y), Point(c.x - x, c.y + y), Point(c.x + x, c.y - y), Point(c.x - x, c.y - y),
     Point(c.x + y, c.y + x), Point(c.x - y, c.y + x), Point(c.x + y, c.y - x), Point(c.x - y, c.y - x)]
  }

  lemma OctantsBySymmetry(c: Point, x: int, y: int, p: Point)
    requires 0 <= y <= x
    ensures p in Octants(c, x, y) <==> Big(c, p) == x && Small(c, p) == y
  {
    if Big(c, p) == x && Small(c, p) == y {
      InOctants(c, x, y, p);
    }
  }

  lemma InOctants(c: Point, x: int, y: int, p: Point)
    requires 0 <= y <= x && Big(c, p) == x && Small(c, p) == y
    ensures p in Octants(c, x, y)
  {
    var u, v := p.x - c.x, p.y - c.y;
    var i := if Abs(u) == x then (if v >= 0 then 0 else 2) + (if u >= 0 then 0 else 1)
             else (if v >= 0 then 4 else 6) + (if u >= 0 then 0 else 1);
    assert Octants(c, x, y)[i] == p;
  }

  lemma RoundDraws(c: Point, r: int, x: int, y: int, p: Point)
    requires OnArc(r, x, y)
    ensures p in Octants(c, x, y) <==> OnCircle(c, r, p) && Small(c, p) == y
  {
    OctantsBySymmetry(c, x, y, p);
    hide Octants;
    if OnCircle(c, r, p) && Small(c, p) == y {
      ArcIsFunction(r, Big(c, p), x, y);
    }
  }

  /** Up to this radius all error terms fit 16 bits. */
  const RADIUS := 16384

  lemma ErrorFits(r: int, x: int, y: int, error: int)
    requires 1 <= r <= RADIUS && Tracks(r, x, y, error) && x >= y
    ensures y < RADIUS && -2 * RADIUS < error < 0
  {
    CircleStep(r, x, y, error);
    if x == r {
      assert y * y < r;
    }
  }

  method GrfCircle(x0: int16, y0: int16, radius: int) returns (plotted: seq<Point>)
    requires 0 <= radius <= RADIUS
    requires -0x8000 <= x0 - radius && x0 + radius < 0x8000 && -0x8000 <= y0 - radius && y0 + radius < 0x8000
    ensures radius > 0 ==> forall p :: p in plotted <==> OnCircle(Point(x0, y0), radius, p)
    ensures radius == 0 ==> forall p :: p in plotted <==> p == Point(x0, y0)
  {
    hide Octants, OnArc, OnCircle, Big, Small, Tracks;
    var c := Point(x0, y0);
    plotted := [];
    var error: int16, x: int16, y: int16 := -radius, radius, 0;
    if radius > 0 {
      CircleStarts(radius);
    }
    SmallIsNatural(c);
    while x >= y
      invariant 0 <= y
      invariant radius > 0 ==> Tracks(radius, x, y, error)
      invariant radius > 0 ==> forall p :: p in plotted <==> OnCircle(c, radius, p) && Small(c, p) < y
      invariant radius == 0 ==> if y == 0 then x == error == 0 && plotted == [] else x < y && plotted == Octants(c, 0, 0)
      decreases x - y
    {
      if radius > 0 {
        CircleStep(radius, x, y, error);
        ErrorFits(radius, x, y, error);
        forall p ensures p in Octants(c, x, y) <==> OnCircle(c, radius, p) && Small(c, p) == y {
          RoundDraws(c, radius, x, y, p);
        }
      }
      plotted := plotted + Octants(c, x, y);
      error := error + y;
      y := y + 1;
      error := error + y;
      if error >= 0 {
        x := x - 1;
        error := error - x;
        error := error - x;
      }
    }
    if radius > 0 {
      forall p ensures OnCircle(c, radius, p) ==> Small(c, p) < y {
        NothingBeyond(c, radius, x, y, error, p);
      }
    } else {
      forall p ensures p in plotted <==> p == c {
        OctantsBySymmetry(c, 0, 0, p);
        CentreAlone(c, p);
      }
    }
  }

  lemma SmallIsNatural(c: Point)
    ensures forall p :: Small(c, p) >= 0
  {
  }

  lemma CentreAlone(c: Point, p: Point)
    ensures Big(c, p) == 0 && Small(c, p) == 0 <==> p == c
  {
  }

  lemma NothingBeyond(c: Point, r: int, x: int, y: int, error: int, p: Point)
    requires Tracks(r, x, y, error) && x < y
    ensures OnCircle(c, r, p) ==> Small(c, p) < y
  {
    if Small(c, p) >= y {
      ArcEnds(r, x, y, error, Big(c, p), Small(c, p));
    }
  }

  // The corners of `grf_circleHelper`.

  predicate Has(cornername: int, bit: int)
    requires bit > 0
  {
    (cornername / bit) % 2 == 1
  }

  predicate InCorner(c: Point, right: bool, below: bool, p: Point) {
    (if right then p.x >= c.x else p.x <= c.x) && (if below then p.y >= c.y else p.y <= c.y)
  }

  predicate InCorners(c: Point, cornername: int, p: Point) {
    || (Has(cornername, 0x4) && InCorner(c, true, true, p))
    || (Has(cornername, 0x2) && InCorner(c, true, false, p))
    || (Has(cornername, 0x8) && InCorner(c, false, true, p))
    || (Has(cornername, 0x1) && InCorner(c, false, false, p))
  }

  /** The pixels of the helper: its corners of the circle, without the four axis points when r > 1. */
  predicate HelperPixel(c: Point, r: int, cornername: int, p: Point) {
    OnCircle(c, r, p) && InCorners(c, cornername, p) && Small(c, p) >= Lowest(r)
  }

  /**
   Bit by bit: 1 for left above, 2 for right above, 4 for right below, 8 for left below. On the axes
   there are pixels only at radius 1.
   */
  lemma HelperCorners(c: Point, r: int, cornername: int, p: Point)
    requires cornername >= 0
    ensures var u, v := p.x - c.x, p.y - c.y;
            HelperPixel(c, r, cornername, p) <==>
            && OnCircle(c, r, p) && (r == 1 || (u != 0 && v != 0))
            && (|| (u <= 0 && v <= 0 && cornername % 2 == 1)
                || (u >= 0 && v <= 0 && cornername % 4 >= 2)
                || (u >= 0 && v >= 0 && cornername % 8 >= 4)
                || (u <= 0 && v >= 0 && cornername % 16 >= 8))
  {
    hide OnCircle;
    BitsOfCorners(cornername);
  }

  lemma BitsOfCorners(n: int)
    requires n >= 0
    ensures Has(n, 0x1) <==> n % 2 == 1
    ensures Has(n, 0x2) <==> n % 4 >= 2
    ensures Has(n, 0x4) <==> n % 8 >= 4
    ensures Has(n, 0x8) <==> n % 16 >= 8
  {
    SecondBit(n);
    ThirdBit(n);
    FourthBit(n);
  }

  lemma SecondBit(n: int)
    requires n >= 0
    ensures Has(n, 0x2) <==> n % 4 >= 2
  {
    assert n / 2 == 2 * (n / 4) + n % 4 / 2;
  }

  lemma ThirdBit(n: int)
    requires n >= 0
    ensures Has(n, 0x4) <==> n % 8 >= 4
  {
    assert n / 4 == 2 * (n / 8) + n % 8 / 4;
  }

  lemma FourthBit(n: int)
    requires n >= 0
    ensures Has(n, 0x8) <==> n % 16 >= 8
  {
    assert n / 8 == 2 * (n / 16) + n % 16 / 8;
  }

  function Lowest(r: int): int { if r == 1 then 0 else 1 }

  predicate AxisPoint(c: Point, r: int, p: Point) { Big(c, p) == r && Small(c, p) == 0 }

  /** The circle is exactly its four corners and its four axis points. */
  lemma CircleIsCornersAndAxes(c: Point, r: int, p: Point)
    requires r >= 1
    ensures OnCircle(c, r, p) <==>
            || HelperPixel(c, r, 1, p) || HelperPixel(c, r, 2, p) || HelperPixel(c, r, 4, p) || HelperPixel(c, r, 8, p)
            || AxisPoint(c, r, p)
  {
    hide OnArc, Big;
    CircleStarts(r);
    CircleStep(r, r, 0, -r);
    if OnCircle(c, r, p) && Small(c, p) == 0 {
      ArcIsFunction(r, Big(c, p), r, 0);
    }
  }

  // The loop of the helper, in the octant where x counts up and y down.

  predicate HelperTracks(r: int, x: int, y: int, f: int) {
    && 0 <= x <= y + 1 && 0 <= y <= r
    && f == (x + 1) * (x + 1) + y * y - y - r * r
    && (if x <= y then OnArc(r, y, x) else y * (y + 1) + x * x >= r * r)
  }

  lemma HelperStarts(r: int)
    requires r >= 1
    ensures HelperTracks(r, 0, r, 1 - r)
  {
  }

  lemma HelperStep(r: int, x: int, y: int, f: int)
    requires HelperTracks(r, x, y, f) && x < y
    ensures -2 * y < f <= 2 * x
    ensures if f >= 0 then HelperTracks(r, x + 1, y - 1, f - 2 * (y - 1) + 2 * x + 3) else HelperTracks(r, x + 1, y, f + 2 * x + 3)
    ensures var y' := if f >= 0 then y - 1 else y;
            x + 1 > y' ==> y' == x && OnArc(r, x + 1, y')
  {
    assert (x + 2) * (x + 2) == (x + 1) * (x + 1) + 2 * x + 3;
    assert (x + 1) * (x + 1) == x * x + 2 * x + 1;
    assert (y - 1) * (y - 1) == y * y - 2 * y + 1;
    assert (y - 1) * (y - 2) == y * y - 3 * y + 2;
  }

  /** The pixels of one round. */
  function Corners(c: Point, cornername: int, x: int, y: int): seq<Point> {
    (if Has(cornername, 0x4) then [Point(c.x + x, c.y + y), Point(c.x + y, c.y + x)] else [])
    + (if Has(cornername, 0x2) then [Point(c.x + x, c.y - y), Point(c.x + y, c.y - x)] else [])
    + (if Has(cornername, 0x8) then [Point(c.x - y, c.y + x), Point(c.x - x, c.y + y)] else [])
    + (if Has(cornername, 0x1) then [Point(c.x - y, c.y - x), Point(c.x - x, c.y - y)] else [])
  }

  lemma CornersBySymmetry(c: Point, cornername: int, x: int, y: int, p: Point)
    requires 0 <= x && 0 <= y
    ensures p in Corners(c, cornername, x, y) <==>
            InCorners(c, cornername, p) && Big(c, p) == Max(x, y) && Small(c, p) == Min(x, y)
  {
    hide Has;
  }

  /** The pixels of the helper up to a level. */
  predicate Drawn(c: Point, r: int, cornername: int, level: int, p: Point) {
    HelperPixel(c, r, cornername, p) && Small(c, p) <= level
  }

  lemma HelperRoundDraws(c: Point, r: int, cornername: int, x: int, y: int, p: Point)
    requires 0 <= x && 0 <= y && OnArc(r, Max(x, y), Min(x, y)) && Min(x, y) >= Lowest(r)
    ensures p in Corners(c, cornername, x, y) <==> Drawn(c, r, cornername, Min(x, y), p) && Small(c, p) == Min(x, y)
  {
    CornersBySymmetry(c, cornername, x, y, p);
    hide Corners, InCorners;
    if OnCircle(c, r, p) && Small(c, p) == Min(x, y) {
      ArcIsFunction(r, Big(c, p), Max(x, y), Min(x, y));
    }
  }

  /** The first round reaches the lowest level, and later rounds one level each, or none. */
  lemma DrawnGrows(c: Point, r: int, cornername: int, level: int)
    ensures forall p :: Drawn(c, r, cornername, level + 1, p) <==>
                        Drawn(c, r, cornername, level, p) || (Drawn(c, r, cornername, level + 1, p) && Small(c, p) == level + 1)
    ensures forall p :: Drawn(c, r, cornername, Lowest(r), p) ==> Small(c, p) == Lowest(r)
  {
  }

  lemma HelperFirst(r: int, f: int)
    requires HelperTracks(r, 0, r, f)
    ensures f == 1 - r
  {
  }

  /** When the counts have met, no pixel of the octant lies beyond x. */
  lemma HelperEnds(r: int, x: int, y: int, f: int, bigX: int, smallY: int)
    requires HelperTracks(r, x, y, f) && y <= x && (x < smallY || y < x == smallY)
    ensures !OnArc(r, bigX, smallY)
  {
    if OnArc(r, bigX, smallY) {
      SquareMonotone(x, smallY);
      ProductMonotone(y, bigX);
    }
  }

  method GrfCircleHelper(x0: int16, y0: int16, r: int, cornername: int) returns (plotted: seq<Point>)
    requires r <= RADIUS && 0 <= cornername < 256
    requires -0x8000 <= x0 - r && x0 + r < 0x8000 && -0x8000 <= y0 - r && y0 + r < 0x8000
    ensures r > 0 ==> forall p :: p in plotted <==> HelperPixel(Point(x0, y0), r, cornername, p)
    ensures r <= 0 ==> plotted == []
  {
    hide Corners, HelperPixel, Drawn, OnArc, OnCircle, Big, Small, HelperTracks;
    var c := Point(x0, y0);
    plotted := [];
    if r <= 0 {
      return;
    }
    var f: int16, ddF_x: int16, ddF_y: int16 := 1 - r, 1, -2 * r;
    var x: int16, y: int16 := 0, r;
    HelperStarts(r);
    while x < y
      invariant 0 <= x && HelperTracks(r, x, y, f) && ddF_x == 2 * x + 1 && ddF_y == -2 * y
      invariant if x == 0 then plotted == [] && y == r else
                forall p :: p in plotted <==> Drawn(c, r, cornername, Min(x, y), p)
      decreases y - x
    {
      HelperStep(r, x, y, f);
      if x == 0 {
        HelperFirst(r, f);
      }
      ghost var last := Min(x, y);
      if f >= 0 {
        y := y - 1;
        ddF_y := ddF_y + 2;
        f := f + ddF_y;
      }
      x := x + 1;
      ddF_x := ddF_x + 2;
      f := f + ddF_x;
      forall p ensures p in Corners(c, cornername, x, y) <==> Drawn(c, r, cornername, Min(x, y), p) && Small(c, p) == Min(x, y) {
        HelperRoundDraws(c, r, cornername, x, y, p);
      }
      DrawnGrows(c, r, cornername, last);
      plotted := plotted + Corners(c, cornername, x, y);
    }
    forall p ensures HelperPixel(c, r, cornername, p) <==> Drawn(c, r, cornername, Min(x, y), p) {
      HelperComplete(c, r, cornername, x, y, f, p);
    }
  }

  lemma HelperComplete(c: Point, r: int, cornername: int, x: int, y: int, f: int, p: Point)
    requires HelperTracks(r, x, y, f) && y <= x
    ensures HelperPixel(c, r, cornername, p) <==> Drawn(c, r, cornername, Min(x, y), p)
  {
    hide HelperTracks, InCorners;
    HelperLevels(r, x, y, f);
    if Small(c, p) > Min(x, y) {
      HelperEnds(r, x, y, f, Big(c, p), Small(c, p));
    }
  }

  lemma HelperLevels(r: int, x: int, y: int, f: int)
    requires HelperTracks(r, x, y, f)
    ensures 0 <= x <= y + 1
  {
  }
}
