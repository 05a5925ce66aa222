/** Sierpinski-gasket subdivision (module-2/src/gasket.js).

    `DivideTriangle` appends the corners of the sub-triangles of a triangle to a
    shared point list: at depth 0 the triangle itself, otherwise the recursion on
    the three corner sub-triangles only (the centre one is dropped). The method is
    proved against the value-level definition `Gasket`, and the counting, ordering
    and bounding-box facts are proved about `Gasket`.
 */
module Gasket {

  /** A 2D point of the gasket; JavaScript numbers are modelled as reals. */
  datatype Point2 = Point2(x: real, y: real)

  /** The seed triangle `vertices`: bottom-left, top, bottom-right. */
  const Seed: seq<Point2> := [Point2(-1.0, -1.0), Point2(0.0, 1.0), Point2(1.0, -1.0)]

  /** `mix(a, b, 0.5)`: the point halfway between `a` and `b`. */
  function Midpoint(a: Point2, b: Point2): (m: Point2)
    ensures m.x - a.x == b.x - m.x && m.y - a.y == b.y - m.y
  {
    Point2((a.x + b.x) / 2.0, (a.y + b.y) / 2.0)
  }

  function Pow3(n: nat): (p: nat)
    ensures p >= 1
  {
    if n == 0 then 1 else 3 * Pow3(n - 1)
  }

  /** The points `divideTriangle(triangles, a, b, c, count)` appends, in order:
      `3^count` triangles, that is `3 * 3^count` points. */
  function Gasket(a: Point2, b: Point2, c: Point2, count: nat): (g: seq<Point2>)
    ensures |g| == 3 * Pow3(count)
    decreases count
  {
    if count == 0 then
      [a, b, c]
    else
      var ab, ac, bc := Midpoint(a, b), Midpoint(a, c), Midpoint(b, c);
      Gasket(a, ab, ac, count - 1) + Gasket(c, ac, bc, count - 1) + Gasket(b, bc, ab, count - 1)
  }

  /** The first point appended at any depth is the first corner `a`. */
  lemma {:induction false} GasketStartsWithA(a: Point2, b: Point2, c: Point2, n: nat)
    ensures |Gasket(a, b, c, n)| > 0 && Gasket(a, b, c, n)[0] == a
    decreases n
  {
    if n > 0 {
      var ab, ac, bc := Midpoint(a, b), Midpoint(a, c), Midpoint(b, c);
      GasketStartsWithA(a, ab, ac, n - 1);
    }
  }

  /** The first elements of the three blocks of a concatenation of equal-length blocks. */
  lemma BlockStarts(g1: seq<Point2>, g2: seq<Point2>, g3: seq<Point2>, m: nat)
    requires |g1| == m && |g2| == m && |g3| > 0 && m > 0
    ensures (g1 + g2 + g3)[0] == g1[0] && (g1 + g2 + g3)[m] == g2[0] && (g1 + g2 + g3)[2 * m] == g3[0]
  {
  }

  /** For `n >= 1` the three corners open the three blocks of `3^n` points: `a` at 0,
      `c` at `3^n` and `b` at `2 * 3^n`. (No induction here: the attribute keeps
      Dafny from adding an induction hypothesis that makes the proof costly.) */
  lemma {:induction false} GasketCornerPositions(a: Point2, b: Point2, c: Point2, n: nat)
    requires n >= 1
    ensures |Gasket(a, b, c, n)| == 3 * Pow3(n)
    ensures Gasket(a, b, c, n)[0] == a
    ensures Gasket(a, b, c, n)[Pow3(n)] == c
    ensures Gasket(a, b, c, n)[2 * Pow3(n)] == b
  {
    var ab, ac, bc := Midpoint(a, b), Midpoint(a, c), Midpoint(b, c);
    var g1, g2, g3 := Gasket(a, ab, ac, n - 1), Gasket(c, ac, bc, n - 1), Gasket(b, bc, ab, n - 1);
    assert Gasket(a, b, c, n) == g1 + g2 + g3;
    assert |g1| == Pow3(n) && |g2| == Pow3(n) && |g3| == Pow3(n);
    GasketStartsWithA(a, ab, ac, n - 1);
    GasketStartsWithA(c, ac, bc, n - 1);
    GasketStartsWithA(b, bc, ab, n - 1);
    BlockStarts(g1, g2, g3, Pow3(n));
  }

  /** Each corner of the triangle survives every subdivision. (Not inductive; the
      attribute keeps the proof cheap, as above.) */
  lemma {:induction false} GasketKeepsCorners(a: Point2, b: Point2, c: Point2, n: nat)
    ensures a in Gasket(a, b, c, n) && b in Gasket(a, b, c, n) && c in Gasket(a, b, c, n)
  {
    var g := Gasket(a, b, c, n);
    if n == 0 {
      assert g == [a, b, c];
    } else {
      GasketCornerPositions(a, b, c, n);
      assert g[0] == a && g[Pow3(n)] == c && g[2 * Pow3(n)] == b;
    }
  }

  /** Depth 1 emits exactly the corner triangles `(a,ab,ac)`, `(c,ac,bc)`, `(b,bc,ab)`. */
  lemma GasketDepthOne(a: Point2, b: Point2, c: Point2)
    ensures Gasket(a, b, c, 1) ==
            [a, Midpoint(a, b), Midpoint(a, c),
             c, Midpoint(a, c), Midpoint(b, c),
             b, Midpoint(b, c), Midpoint(a, b)]
  {
  }

  /** Twice the signed area of `abc`; nonzero exactly when the corners are not collinear. */
  function Cross(a: Point2, b: Point2, c: Point2): real
  {
    (b.x - a.x) * (c.y - a.y) - (b.y - a.y) * (c.x - a.x)
  }

  /** In a proper triangle a corner is never the midpoint of two corners. */
  lemma CornerIsNoMidpoint(a: Point2, b: Point2, c: Point2)
    requires Cross(a, b, c) != 0.0
    ensures a != Midpoint(a, b) && a != Midpoint(a, c) && a != Midpoint(b, c)
  {
  }

  /** The k-th triangle (three consecutive points) of a point list, as a vertex set. */
  function TriangleAt(ps: seq<Point2>, k: nat): set<Point2>
    requires 3 * k + 3 <= |ps|
  {
    {ps[3 * k], ps[3 * k + 1], ps[3 * k + 2]}
  }

  /** The centre triangle `(ab, bc, ac)` is never emitted at depth 1: each of the
      three triangles emitted holds a corner, which is no midpoint. (Not inductive;
      the attribute keeps the proof cheap.) */
  lemma {:induction false} CentreTriangleDropped(a: Point2, b: Point2, c: Point2)
    requires Cross(a, b, c) != 0.0
    ensures var g := Gasket(a, b, c, 1);
            |g| == 9 &&
            forall k :: 0 <= k < 3 ==>
              TriangleAt(g, k) != {Midpoint(a, b), Midpoint(b, c), Midpoint(a, c)}
  {
    var g := Gasket(a, b, c, 1);
    var ab, ac, bc := Midpoint(a, b), Midpoint(a, c), Midpoint(b, c);
    GasketDepthOne(a, b, c);
    CornerIsNoMidpoint(a, b, c);
    assert Cross(b, c, a) == Cross(a, b, c);
    CornerIsNoMidpoint(b, c, a);
    assert Cross(c, a, b) == Cross(a, b, c);
    CornerIsNoMidpoint(c, a, b);
    assert Midpoint(c, a) == ac && Midpoint(b, a) == ab && Midpoint(c, b) == bc;
    assert a in TriangleAt(g, 0) && a !in {ab, bc, ac};
    assert c in TriangleAt(g, 1) && c !in {ab, bc, ac};
    assert b in TriangleAt(g, 2) && b !in {ab, bc, ac};
  }

  /** The drawing area `[-1, 1] x [-1, 1]`. */
  predicate InBox(p: Point2)
  {
    -1.0 <= p.x <= 1.0 && -1.0 <= p.y <= 1.0
  }

  /** When the corners lie in the box, so does every point of the gasket. */
  lemma {:induction false} GasketInBox(a: Point2, b: Point2, c: Point2, n: nat)
    requires InBox(a) && InBox(b) && InBox(c)
    ensures forall p :: p in Gasket(a, b, c, n) ==> InBox(p)
    decreases n
  {
    if n > 0 {
      var ab, ac, bc := Midpoint(a, b), Midpoint(a, c), Midpoint(b, c);
      assert InBox(ab) && InBox(ac) && InBox(bc);
      GasketInBox(a, ab, ac, n - 1);
      GasketInBox(c, ac, bc, n - 1);
      GasketInBox(b, bc, ab, n - 1);
    }
  }

  /** The caller's `triangles` array, which the recursion pushes onto in place. */
  class PointList {
    var items: seq<Point2>

    constructor ()
      ensures items == []
    {
      items := [];
    }
  }

  /** `addTriangle`: pushes `a`, `b`, `c` in that order and nothing else. */
  method AddTriangle(triangles: PointList, a: Point2, b: Point2, c: Point2)
    modifies triangles
    ensures triangles.items == old(triangles.items) + [a, b, c]
  {
    triangles.items := triangles.items + [a, b, c];
  }

  /** `divideTriangle`: only appends, and what it appends is `Gasket(a, b, c, count)`,
      `3 * 3^count` points in all. */
  method DivideTriangle(triangles: PointList, a: Point2, b: Point2, c: Point2, count: nat)
    modifies triangles
    ensures triangles.items == old(triangles.items) + Gasket(a, b, c, count)
    ensures |old(triangles.items)| <= |triangles.items| &&
            forall i :: 0 <= i < |old(triangles.items)| ==> triangles.items[i] == old(triangles.items)[i]
    ensures |triangles.items| == |old(triangles.items)| + 3 * Pow3(count)
    ensures count == 0 ==> triangles.items == old(triangles.items) + [a, b, c]
    decreases count
  {
    if count == 0 {
      AddTriangle(triangles, a, b, c);
    } else {
      var ab := Midpoint(a, b);
      var ac := Midpoint(a, c);
      var bc := Midpoint(b, c);
      var rest := count - 1;
      DivideTriangle(triangles, a, ab, ac, rest);
      DivideTriangle(triangles, c, ac, bc, rest);
      DivideTriangle(triangles, b, bc, ab, rest);
    }
  }

  /** `createTriangles`: subdivides the seed triangle into a fresh list. The result has
      `3 * 3^n` points, starts with the seed's first corner, keeps all three seed
      corners, and stays inside the drawing area. */
  method CreateTriangles(numToSubDiv: nat) returns (points: seq<Point2>)
    ensures points == Gasket(Seed[0], Seed[1], Seed[2], numToSubDiv)
    ensures |points| == 3 * Pow3(numToSubDiv) && points[0] == Seed[0]
    ensures forall v :: v in Seed ==> v in points
    ensures forall p :: p in points ==> InBox(p)
  {
    var list := new PointList();
    DivideTriangle(list, Seed[0], Seed[1], Seed[2], numToSubDiv);
    points := list.items;
    GasketStartsWithA(Seed[0], Seed[1], Seed[2], numToSubDiv);
    GasketKeepsCorners(Seed[0], Seed[1], Seed[2], numToSubDiv);
    GasketInBox(Seed[0], Seed[1], Seed[2], numToSubDiv);
  }

  /** The seed triangle is a proper (non-collinear) triangle. */
  lemma SeedIsProper()
    ensures Cross(Seed[0], Seed[1], Seed[2]) != 0.0
  {
  }
}
