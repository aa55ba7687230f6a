/** `grf_fillTriangle`: running sums draw each scanline once, between the two edges that cross it. */
module Triangle {
  import opened Pixels

  /** A horizontal run of pixels, both ends included. */
  datatype Span = Span(y: int, left: int, right: int)

  function Quotient(n: int, b: int): (q: int)
    requires n >= 0 && b > 0
    ensures q >= 0 && q * b <= n < q * b + b
  {
    assert n == (n / b) * b + n % b;
    n / b
  }

  /** Division truncates towards zero. */
  function Truncated(a: int, b: int): int
    requires b > 0
  {
    if a >= 0 then Quotient(a, b) else -Quotient(-a, b)
  }

  /** Where the edge from p down to q crosses scanline y. */
  function Crossing(p: Point, q: Point, y: int): int
    requires p.y < q.y
  {
    p.x + Truncated((q.x - p.x) * (y - p.y), q.y - p.y)
  }

  function Between(y: int, a: int, b: int): Span { Span(y, Min(a, b), Max(a, b)) }

  predicate Sorted(p: Point, q: Point, r: Point) { p.y <= q.y <= r.y }

  /** Scanline y of the triangle p, q, r, sorted by y. */
  function Scanline(p: Point, q: Point, r: Point, y: int): Span
    requires Sorted(p, q, r) && p.y <= y <= r.y
  {
    if p.y == r.y then Span(y, Min(p.x, Min(q.x, r.x)), Max(p.x, Max(q.x, r.x)))
    else if y < q.y || q.y == r.y then Between(y, Crossing(p, q, y), Crossing(p, r, y))
    else Between(y, Crossing(q, r, y), Crossing(p, r, y))
  }

  function Scanlines(p: Point, q: Point, r: Point): (s: seq<Span>)
    requires Sorted(p, q, r)
    ensures |s| == r.y - p.y + 1
  {
    seq(r.y - p.y + 1, k requires 0 <= k <= r.y - p.y => Scanline(p, q, r, p.y + k))
  }

  function Swap(p: Point, q: Point): (Point, Point) { if p.y > q.y then (q, p) else (p, q) }

  /** The three conditional exchanges. */
  function Sort(p: Point, q: Point, r: Point): (s: (Point, Point, Point))
    ensures Sorted(s.0, s.1, s.2)
  {
    var (a, b) := Swap(p, q);
    var (b', c) := Swap(b, r);
    var (a', b'') := Swap(a, b');
    (a', b'', c)
  }

  function Triangle(p: Point, q: Point, r: Point): seq<Span> {
    var s := Sort(p, q, r);
    Scanlines(s.0, s.1, s.2)
  }

  /** 16-bit coordinates; the row counter must also be able to leave the triangle by one row. */
  predicate OnScreen(p: Point) { -0x8000 <= p.x < 0x8000 && -0x8000 < p.y < 0x7FFF }

  /** Differences of coordinates fit 16 bits. */
  predicate Near(p: Point, q: Point) { Abs(p.x - q.x) < 0x8000 && Abs(p.y - q.y) < 0x8000 }

  predicate Drawable(p: Point, q: Point, r: Point) {
    OnScreen(p) && OnScreen(q) && OnScreen(r) && Near(p, q) && Near(q, r) && Near(p, r)
  }

  // Crossings.

  lemma TruncatedRange(a: int, b: int)
    requires b > 0
    ensures var t := Truncated(a, b);
            && (a >= 0 ==> t >= 0 && t * b <= a < t * b + b)
            && (a <= 0 ==> t <= 0 && t * b - b < a <= t * b)
  {
    hide Quotient;
    if a < 0 {
      assert (-Quotient(-a, b)) * b == -(Quotient(-a, b) * b);
    } else {
      SignOfProduct(Quotient(a, b) - 1, b);
    }
  }

  /** The offset of a crossing t rows down an edge dx wide and dy high. */
  lemma OffsetOnEdge(dx: int, dy: int, t: int)
    requires 0 <= t <= dy && dy > 0
    ensures var c := Truncated(dx * t, dy);
            && Abs(c * dy - dx * t) < dy
            && Abs(c * dy) <= Abs(dx * t)
            && Min(0, dx) <= c <= Max(0, dx)
            && (t == 0 ==> c == 0) && (t == dy ==> c == dx)
  {
    hide Truncated;
    TruncatedRange(dx * t, dy);
    TruncatedExact(dx, dy);
    CrossingMonotone(dx, dy, t);
    SignOfProduct(Truncated(dx * t, dy), dy);
    ProductRange(dx, t, dy);
  }

  /** Less than a pixel from the exact crossing, on the side of the upper end, and never beyond either end. */
  lemma CrossingOnEdge(p: Point, q: Point, y: int)
    requires p.y < q.y && p.y <= y <= q.y
    ensures var c := Crossing(p, q, y) - p.x;
            && Abs(c * (q.y - p.y) - (q.x - p.x) * (y - p.y)) < q.y - p.y
            && Abs(c * (q.y - p.y)) <= Abs((q.x - p.x) * (y - p.y))
    ensures Min(p.x, q.x) <= Crossing(p, q, y) <= Max(p.x, q.x)
    ensures Crossing(p, q, p.y) == p.x && Crossing(p, q, q.y) == q.x
  {
    hide Truncated;
    OffsetOnEdge(q.x - p.x, q.y - p.y, y - p.y);
    OffsetOnEdge(q.x - p.x, q.y - p.y, 0);
    OffsetOnEdge(q.x - p.x, q.y - p.y, q.y - p.y);
    assert p.y - p.y == 0;
  }

  lemma TruncatedExact(q: int, b: int)
    requires b > 0
    ensures Truncated(q * b, b) == q && Truncated(q * 0, b) == 0
  {
    TruncatedRange(q * b, b);
    var t := Truncated(q * b, b);
    assert (t - q) * b == t * b - q * b;
    SignOfProduct(q, b);
    if t - q >= 1 {
      SignOfProduct(t - q - 1, b);
    } else if t - q <= -1 {
      SignOfProduct(q - t - 1, b);
    }
  }

  lemma SignOfProduct(q: int, b: int)
    requires b > 0
    ensures q >= 0 ==> q * b >= 0
    ensures q <= 0 ==> q * b <= 0
    ensures (q + 1) * b == q * b + b
  {
  }

  lemma CrossingMonotone(dx: int, dy: int, t: int)
    requires 0 <= t <= dy && dy > 0
    ensures var c := Truncated(dx * t, dy);
            if dx >= 0 then 0 <= c <= dx else dx <= c <= 0
  {
    hide Truncated;
    ProductRange(dx, t, dy);
    TruncatedRange(dx * t, dy);
    if dx >= 0 {
      NotBeyond(Truncated(dx * t, dy), dx, dy);
    } else {
      NotBeyond(dx, Truncated(dx * t, dy), dy);
    }
  }

  lemma ProductRange(dx: int, t: int, dy: int)
    requires 0 <= t <= dy
    ensures if dx >= 0 then 0 <= dx * t <= dx * dy else dx * dy <= dx * t <= 0
  {
  }

  lemma NotBeyond(c: int, d: int, b: int)
    requires b > 0 && c * b <= d * b
    ensures c <= d
  {
    assert (c - d) * b == c * b - d * b;
    SignOfProduct(c - d - 1, b);
  }

  // The triangle.

  /** Every span lies between the leftmost and the rightmost vertex. */
  lemma SpansWithin(p: Point, q: Point, r: Point, y: int)
    requires Sorted(p, q, r) && p.y <= y <= r.y
    ensures var s := Scanline(p, q, r, y);
            s.y == y && Min(p.x, Min(q.x, r.x)) <= s.left <= s.right <= Max(p.x, Max(q.x, r.x))
  {
    hide Crossing;
    if p.y < r.y {
      CrossingOnEdge(p, r, y);
      if y < q.y || q.y == r.y {
        CrossingOnEdge(p, q, y);
      } else {
        CrossingOnEdge(q, r, y);
      }
    }
  }

  predicate Covers(s: Span, p: Point) { s.y == p.y && s.left <= p.x <= s.right }

  /** Every vertex is drawn. */
  lemma VerticesDrawn(p: Point, q: Point, r: Point)
    requires Sorted(p, q, r)
    ensures Covers(Scanline(p, q, r, p.y), p) && Covers(Scanline(p, q, r, q.y), q) && Covers(Scanline(p, q, r, r.y), r)
  {
    hide Crossing;
    if p.y < r.y {
      CrossingOnEdge(p, r, p.y);
      if p.y < q.y {
        CrossingOnEdge(p, q, p.y);
      }
      if q.y < r.y {
        CrossingOnEdge(q, r, q.y);
      }
    }
  }

  /** x is where the edge from p down to q meets row y, rounded towards the upper end. */
  predicate MeetsEdge(p: Point, q: Point, y: int, x: int) {
    && p.y < q.y && p.y <= y <= q.y && Min(p.x, q.x) <= x <= Max(p.x, q.x)
    && Abs((x - p.x) * (q.y - p.y) - (q.x - p.x) * (y - p.y)) < q.y - p.y
    && Abs((x - p.x) * (q.y - p.y)) <= Abs((q.x - p.x) * (y - p.y))
  }

  /** An edge meets a row in one place. */
  lemma MeetsOnce(p: Point, q: Point, y: int, x: int, x': int)
    requires MeetsEdge(p, q, y, x) && MeetsEdge(p, q, y, x')
    ensures x == x'
  {
    var dx, dy, t := q.x - p.x, q.y - p.y, y - p.y;
    ProductRange(dx, t, dy);
    NearestOnSide(x - p.x, x' - p.x, dy, dx * t);
  }

  /** Multiples of d less than d from n, and no farther from zero than n. */
  lemma NearestOnSide(c: int, c': int, d: int, n: int)
    requires d > 0 && Abs(c * d - n) < d && Abs(c * d) <= Abs(n) && Abs(c' * d - n) < d && Abs(c' * d) <= Abs(n)
    ensures c == c'
  {
    SameSide(c * d, c' * d, d, n);
    MultipleAbove(c, c', d);
    MultipleAbove(c', c, d);
  }

  lemma MultipleAbove(c: int, c': int, d: int)
    requires d > 0
    ensures c > c' ==> c * d >= c' * d + d
  {
    if c > c' {
      var k := c - c' - 1;
      SignOfProduct(k, d);
      assert c * d == (c' + 1 + k) * d == c' * d + d + k * d;
    }
  }

  lemma SameSide(e: int, f: int, d: int, n: int)
    requires Abs(e - n) < d && Abs(e) <= Abs(n) && Abs(f - n) < d && Abs(f) <= Abs(n)
    ensures -d < e - f < d
  {
  }

  /** The run of row y: between the long edge and the short edge of that row, or all of a flat triangle. */
  predicate RowOf(p: Point, q: Point, r: Point, y: int, s: Span) {
    && s.y == y && s.left <= s.right
    && (p.y == r.y ==> s.left == Min(p.x, Min(q.x, r.x)) && s.right == Max(p.x, Max(q.x, r.x)))
    && (p.y < r.y ==>
        || (MeetsEdge(p, r, y, s.left) && (MeetsEdge(p, q, y, s.right) || MeetsEdge(q, r, y, s.right)))
        || (MeetsEdge(p, r, y, s.right) && (MeetsEdge(p, q, y, s.left) || MeetsEdge(q, r, y, s.left))))
  }

  /** The ends of a scanline are the crossings of the edges that meet its row. */
  lemma EndsOnEdges(p: Point, q: Point, r: Point, y: int)
    requires Sorted(p, q, r) && p.y <= y <= r.y
    ensures RowOf(p, q, r, y, Scanline(p, q, r, y))
  {
    hide Crossing, MeetsEdge;
    if p.y < r.y {
      CrossingMeets(p, r, y);
      if y < q.y || q.y == r.y {
        CrossingMeets(p, q, y);
      } else {
        CrossingMeets(q, r, y);
      }
    }
  }

  lemma CrossingMeets(p: Point, q: Point, y: int)
    requires p.y < q.y && p.y <= y <= q.y
    ensures MeetsEdge(p, q, y, Crossing(p, q, y))
  {
    CrossingOnEdge(p, q, y);
    hide Crossing;
  }

  /** One run to each row from the highest vertex to the lowest, with the vertices sorted as s. */
  predicate Fills(s: (Point, Point, Point), spans: seq<Span>) {
    && s.0.y <= s.1.y <= s.2.y && |spans| == s.2.y - s.0.y + 1
    && forall k :: 0 <= k < |spans| ==> RowOf(s.0, s.1, s.2, s.0.y + k, spans[k])
  }

  lemma TriangleFills(p: Point, q: Point, r: Point)
    ensures exists s :: Reordered(p, q, r, s) && Fills(s, Triangle(p, q, r))
  {
    SortReorders(p, q, r);
    hide Sort, Reordered, RowOf, Scanline;
    var s := Sort(p, q, r);
    forall k | 0 <= k <= s.2.y - s.0.y ensures RowOf(s.0, s.1, s.2, s.0.y + k, Scanlines(s.0, s.1, s.2)[k]) {
      EndsOnEdges(s.0, s.1, s.2, s.0.y + k);
    }
    assert Fills(s, Triangle(p, q, r));
  }

  // The order in which the vertices are given does not matter.

  lemma TiesDoNotMatter(p: Point, q: Point, r: Point, y: int)
    requires Sorted(p, q, r) && p.y <= y <= r.y
    ensures p.y == q.y ==> Scanline(q, p, r, y) == Scanline(p, q, r, y)
    ensures q.y == r.y ==> Scanline(p, r, q, y) == Scanline(p, q, r, y)
  {
    hide Crossing;
  }

  predicate Reordered(p: Point, q: Point, r: Point, s: (Point, Point, Point)) {
    s == (p, q, r) || s == (p, r, q) || s == (q, p, r) || s == (q, r, p) || s == (r, p, q) || s == (r, q, p)
  }

  lemma SortReorders(p: Point, q: Point, r: Point)
    ensures Reordered(p, q, r, Sort(p, q, r))
  {
  }

  /** Two orders of the same vertices, both sorted. */
  lemma SortedOrdersAgree(p: Point, q: Point, r: Point, s: (Point, Point, Point))
    requires Sorted(p, q, r) && Sorted(s.0, s.1, s.2) && Reordered(p, q, r, s)
    ensures Scanlines(p, q, r) == Scanlines(s.0, s.1, s.2)
  {
    hide Crossing, Scanline;
    forall y | p.y <= y <= r.y ensures Scanline(p, q, r, y) == Scanline(s.0, s.1, s.2, y) {
      SameScanline(p, q, r, s, y);
    }
  }

  lemma SameScanline(p: Point, q: Point, r: Point, s: (Point, Point, Point), y: int)
    requires Sorted(p, q, r) && Sorted(s.0, s.1, s.2) && Reordered(p, q, r, s) && p.y <= y <= r.y
    ensures s.0.y == p.y && s.2.y == r.y && Scanline(p, q, r, y) == Scanline(s.0, s.1, s.2, y)
  {
    TiesDoNotMatter(p, q, r, y);
    hide Crossing;
    if p.y < r.y {
      hide Scanline;
    }
  }

  /** The triangle is the same in whatever order its vertices are given. */
  lemma OrderDoesNotMatter(p: Point, q: Point, r: Point, s: (Point, Point, Point))
    requires Reordered(p, q, r, s)
    ensures Triangle(p, q, r) == Triangle(s.0, s.1, s.2)
  {
    SortReorders(p, q, r);
    SortReorders(s.0, s.1, s.2);
    hide Sort, Scanlines, Reordered, Sorted;
    var a, b := Sort(p, q, r), Sort(s.0, s.1, s.2);
    ReorderedBack(p, q, r, a);
    ReorderedTwice((p, q, r), s, b);
    ReorderedTwice(a, (p, q, r), b);
    SortedOrdersAgree(a.0, a.1, a.2, b);
  }

  lemma ReorderedBack(p: Point, q: Point, r: Point, s: (Point, Point, Point))
    requires Reordered(p, q, r, s)
    ensures Reordered(s.0, s.1, s.2, (p, q, r))
  {
  }

  lemma ReorderedTwice(a: (Point, Point, Point), b: (Point, Point, Point), c: (Point, Point, Point))
    requires Reordered(a.0, a.1, a.2, b) && Reordered(b.0, b.1, b.2, c)
    ensures Reordered(a.0, a.1, a.2, c)
  {
  }

  // The program.

  method FillTriangle(a: Point, b: Point, c: Point) returns (spans: seq<Span>)
    requires Drawable(a, b, c)
    ensures spans == Triangle(a, b, c)
    ensures exists s :: Reordered(a, b, c, s) && Fills(s, spans)
  {
    TriangleFills(a, b, c);
    hide Scanlines, Sort, Fills, Reordered;
    var x0, y0, x1, y1, x2, y2 := SortVertices(a.x, a.y, b.x, b.y, c.x, c.y);
    assert Sort(a, b, c) == (Point(x0, y0), Point(x1, y1), Point(x2, y2));
    if y0 == y2 {
      spans := FillFlat(x0, y0, x1, y1, x2, y2);
    } else {
      SortedOnScreen(a, b, c);
      spans := FillSorted(x0, y0, x1, y1, x2, y2);
    }
  }

  lemma SortedOnScreen(a: Point, b: Point, c: Point)
    requires Drawable(a, b, c)
    ensures var s := Sort(a, b, c); Drawable(s.0, s.1, s.2)
  {
    hide Sort, OnScreen;
    SortReorders(a, b, c);
  }

  method SortVertices(ax: int16, ay: int16, bx: int16, yb: int16, cx: int16, cy: int16)
    returns (x0: int16, y0: int16, x1: int16, y1: int16, x2: int16, y2: int16)
    ensures (Point(x0, y0), Point(x1, y1), Point(x2, y2)) == Sort(Point(ax, ay), Point(bx, yb), Point(cx, cy))
  {
    x0, y0, x1, y1, x2, y2 := ax, ay, bx, yb, cx, cy;
    if y0 > y1 {
      y0, y1, x0, x1 := y1, y0, x1, x0;
    }
    assert (Point(x0, y0), Point(x1, y1)) == Swap(Point(ax, ay), Point(bx, yb));
    ghost var q := Point(x1, y1);
    if y1 > y2 {
      y2, y1, x2, x1 := y1, y2, x1, x2;
    }
    assert (Point(x1, y1), Point(x2, y2)) == Swap(q, Point(cx, cy));
    ghost var p, q' := Point(x0, y0), Point(x1, y1);
    if y0 > y1 {
      y0, y1, x0, x1 := y1, y0, x1, x0;
    }
    assert (Point(x0, y0), Point(x1, y1)) == Swap(p, q');
    hide Swap;
  }

  /** All vertices on one line. */
  method FillFlat(x0: int16, y0: int16, x1: int16, y1: int16, x2: int16, y2: int16) returns (spans: seq<Span>)
    requires y0 == y1 == y2
    ensures spans == Scanlines(Point(x0, y0), Point(x1, y1), Point(x2, y2))
  {
    var a, b := x0, x0;
    if x1 < a {
      a := x1;
    } else if x1 > b {
      b := x1;
    }
    if x2 < a {
      a := x2;
    } else if x2 > b {
      b := x2;
    }
    spans := [Span(y0, a, b)];
    ghost var p, q, r := Point(x0, y0), Point(x1, y1), Point(x2, y2);
    assert Scanline(p, q, r, p.y + 0) == Span(y0, a, b);
    assert Scanlines(p, q, r) == [Scanline(p, q, r, p.y + 0)];
  }

  function Product(a: int, b: int): int { a * b }

  lemma ProductSteps(a: int, b: int)
    ensures Product(a, 0) == 0 && Product(a, b + 1) == Product(a, b) + a
  {
  }

  method FillSorted(x0: int16, y0: int16, x1: int16, y1: int16, x2: int16, y2: int16) returns (spans: seq<Span>)
    requires y0 <= y1 <= y2 && y0 < y2
    requires Drawable(Point(x0, y0), Point(x1, y1), Point(x2, y2))
    ensures spans == Scanlines(Point(x0, y0), Point(x1, y1), Point(x2, y2))
  {
    hide Scanline, Product;
    ghost var p, q, r := Point(x0, y0), Point(x1, y1), Point(x2, y2);
    var dx01: int16, dy01: int16, dx02: int16, dy02: int16 := x1 - x0, y1 - y0, x2 - x0, y2 - y0;
    var dx12: int16, dy12: int16 := x2 - x1, y2 - y1;
    var last: int16 := if y1 == y2 then y1 else y1 - 1;
    spans := [];
    var sa, sb := 0, 0;
    var y: int16 := y0;
    ProductSteps(dx01, 0);
    ProductSteps(dx02, 0);
    while y <= last
      invariant y0 <= y <= last + 1
      invariant sa == Product(dx01, y - y0) && sb == Product(dx02, y - y0)
      invariant spans == Scanlines(p, q, r)[..y - y0]
    {
      var s := Row(p, q, r, y, x0, sa, dy01, x0, sb, dy02);
      spans := spans + [s];
      ProductSteps(dx01, y - y0);
      ProductSteps(dx02, y - y0);
      sa := sa + dx01;
      sb := sb + dx02;
      y := y + 1;
    }
    sa := Product(dx12, y - y1);
    sb := Product(dx02, y - y0);
    while y <= y2
      invariant last < y <= y2 + 1
      invariant sa == Product(dx12, y - y1) && sb == Product(dx02, y - y0)
      invariant spans == Scanlines(p, q, r)[..y - y0]
    {
      var s := Row(p, q, r, y, x1, sa, dy12, x0, sb, dy02);
      spans := spans + [s];
      ProductSteps(dx12, y - y1);
      ProductSteps(dx02, y - y0);
      sa := sa + dx12;
      sb := sb + dx02;
      y := y + 1;
    }
  }

  /** One scanline, from the running sums of the two edges that cross it. */
  method Row(ghost p: Point, ghost q: Point, ghost r: Point, y: int16, xa: int16, sa: int, dya: int16, xb: int16, sb: int, dyb: int16)
    returns (s: Span)
    requires Sorted(p, q, r) && p.y < r.y && p.y <= y <= r.y && OnScreen(p) && OnScreen(q) && OnScreen(r)
    requires 0 < dya && dyb == r.y - p.y && xb == p.x && sb == Product(r.x - p.x, y - p.y)
    requires if y < q.y || q.y == r.y then xa == p.x && dya == q.y - p.y && y <= q.y && sa == Product(q.x - p.x, y - p.y)
             else xa == q.x && dya == r.y - q.y && sa == Product(r.x - q.x, y - q.y)
    ensures s == Scanline(p, q, r, y)
  {
    hide Truncated;
    var a := xa + Truncated(sa, dya);
    var b := xb + Truncated(sb, dyb);
    ghost var from, to := if y < q.y || q.y == r.y then p else q, if y < q.y || q.y == r.y then q else r;
    assert a == Crossing(from, to, y) && b == Crossing(p, r, y);
    CrossingInRange(p, r, y);
    CrossingInRange(from, to, y);
    hide Product, Crossing;
    var left: int16, right: int16 := a, b;
    if left > right {
      left, right := right, left;
    }
    s := Span(y, left, right);
  }

  lemma CrossingInRange(p: Point, q: Point, y: int)
    requires p.y < q.y && p.y <= y <= q.y && OnScreen(p) && OnScreen(q)
    ensures -0x8000 <= Crossing(p, q, y) < 0x8000
  {
    CrossingOnEdge(p, q, y);
    hide Crossing;
  }
}
