/** Model of src/encoding.rs: the vector data model of the compressor (points,
    polygons, encodings), point arithmetic, the closed edge loop of a polygon and
    the even-odd ray-casting test that decides whether a point is inside it.

    Coordinates are `real` where the program uses `f32`: the facts proved here are
    structural (edge count, wrap-around, parity, a division that is never by zero)
    and do not depend on rounding. */
module Geometry {

  /** An unsigned 8-bit value (`u8`). */
  type Byte = x: int | 0 <= x < 256

  /** An unsigned 32-bit value (`u32`). */
  type U32 = x: int | 0 <= x < 0x1_0000_0000

  datatype Point = Point(x: real, y: real)

  /** `image::Rgba<u8>`: three colour channels and an alpha channel. */
  datatype Color = Color(r: Byte, g: Byte, b: Byte, a: Byte)

  datatype Polygon = Polygon(vertices: seq<Point>, color: Color)

  /** Polygons in painter's order and the canvas dimensions `(w, h)`. */
  datatype Encoding = Encoding(polygons: seq<Polygon>, width: U32, height: U32)

  /** A directed edge from its first to its second point. */
  type Edge = (Point, Point)

  // ---------------------------------------------------------------------------
  // Point arithmetic (the `Add` and `Sub` implementations)

  /** `add`: subtracting either summand from the sum gives back the other. */
  function Add(p: Point, q: Point): (r: Point)
    ensures Sub(r, q) == p && Sub(r, p) == q
  {
    Point(p.x + q.x, p.y + q.y)
  }

  /** `sub`: adding `q` back to the difference gives `p`, coordinate by coordinate. */
  function Sub(p: Point, q: Point): (r: Point)
    ensures r.x + q.x == p.x && r.y + q.y == p.y
  {
    Point(p.x - q.x, p.y - q.y)
  }

  /** Addition and subtraction act coordinate by coordinate, so they undo each
      other and addition commutes. */
  lemma AddSubComponentwise(p: Point, q: Point)
    ensures Add(p, q).x == p.x + q.x && Add(p, q).y == p.y + q.y
    ensures Sub(p, q).x == p.x - q.x && Sub(p, q).y == p.y - q.y
    ensures Sub(Add(p, q), q) == p && Add(Sub(p, q), q) == p
    ensures Add(p, q) == Add(q, p)
  {
  }

  // ---------------------------------------------------------------------------
  // The closed edge loop

  /** The edges of the polygon with vertices `vs`: edge `i` runs from vertex `i`
      to vertex `i + 1`, and the last one closes the loop back to vertex 0. */
  function EdgeList(vs: seq<Point>): (es: seq<Edge>)
    ensures |es| == |vs|
  {
    seq(|vs|, i requires 0 <= i < |vs| => (vs[i], vs[(i + 1) % |vs|]))
  }

  /** `Polygon::edges`: pushes one pair per vertex, in vertex order. */
  method Edges(polygon: Polygon) returns (es: seq<Edge>)
    ensures es == EdgeList(polygon.vertices)
  {
    es := [];
    var len := |polygon.vertices|;
    for i := 0 to len
      invariant es == EdgeList(polygon.vertices)[..i]
    {
      es := es + [(polygon.vertices[i], polygon.vertices[(i + 1) % len])];
    }
  }

  /** The edge list has one edge per vertex, starts each edge at its own vertex,
      chains every edge into the next and closes back at the first vertex; an
      empty vertex list has no edges. */
  lemma EdgeListClosedLoop(vs: seq<Point>)
    ensures |EdgeList(vs)| == |vs|
    ensures vs == [] ==> EdgeList(vs) == []
    ensures forall i :: 0 <= i < |vs| ==> EdgeList(vs)[i].0 == vs[i]
    ensures forall i :: 0 <= i < |vs| - 1 ==> EdgeList(vs)[i].1 == vs[i + 1]
    ensures forall i :: 0 <= i < |vs| ==> EdgeList(vs)[i].1 == EdgeList(vs)[(i + 1) % |vs|].0
    ensures |vs| > 0 ==> EdgeList(vs)[|vs| - 1].1 == vs[0]
  {
    var n := |vs|;
    forall i | 0 <= i < n
      ensures EdgeList(vs)[i].1 == EdgeList(vs)[(i + 1) % n].0
      ensures i < n - 1 ==> EdgeList(vs)[i].1 == vs[i + 1]
    {
      SuccessorIndex(i, n);
    }
  }

  /** Index `i + 1` taken modulo `n` wraps only at the last index. */
  lemma SuccessorIndex(i: nat, n: nat)
    requires i < n
    ensures (i + 1) % n == if i < n - 1 then i + 1 else 0
  {
  }

  // ---------------------------------------------------------------------------
  // The even-odd crossing rule

  /** Exactly one endpoint of `e` lies strictly above the horizontal line at `py`. */
  predicate Straddles(py: real, e: Edge)
  {
    (e.0.y > py) != (e.1.y > py)
  }

  /** Where the (non-horizontal) edge `e` meets the horizontal line at `py`. */
  function CrossingX(py: real, e: Edge): real
    requires e.0.y != e.1.y
  {
    (e.1.x - e.0.x) * (py - e.0.y) / (e.1.y - e.0.y) + e.0.x
  }

  /** The crossing condition of the ray-casting test: the edge straddles the
      point's row, and the point lies strictly left of where the edge meets it.
      The division is well defined because a straddling edge is never horizontal
      and the second conjunct is only evaluated when the first holds. */
  predicate Crosses(pt: Point, e: Edge)
  {
    Straddles(pt.y, e) && pt.x < CrossingX(pt.y, e)
  }

  /** A crossing edge is never horizontal, so the test never divides by zero. */
  lemma CrossingEdgeNotHorizontal(pt: Point, e: Edge)
    requires Crosses(pt, e)
    ensures e.0.y != e.1.y
  {
  }

  /** Number of edges of `es` the point crosses. */
  function CrossingCount(pt: Point, es: seq<Edge>): nat
  {
    if es == [] then 0
    else CrossingCount(pt, es[..|es| - 1]) + (if Crosses(pt, es[|es| - 1]) then 1 else 0)
  }

  lemma CrossingCountSnoc(pt: Point, es: seq<Edge>, e: Edge)
    ensures CrossingCount(pt, es + [e]) == CrossingCount(pt, es) + (if Crosses(pt, e) then 1 else 0)
  {
    assert (es + [e])[..|es|] == es;
  }

  /** Number of edges of `es` that straddle the row `py`. */
  function StraddleCount(py: real, es: seq<Edge>): nat
  {
    if es == [] then 0
    else StraddleCount(py, es[..|es| - 1]) + (if Straddles(py, es[|es| - 1]) then 1 else 0)
  }

  /** The even-odd rule: inside iff an odd number of edges are crossed. */
  predicate Inside(pt: Point, polygon: Polygon)
  {
    CrossingCount(pt, EdgeList(polygon.vertices)) % 2 == 1
  }

  /** `Point::inside_polygon`: toggles a flag for every crossing edge. */
  method InsidePolygon(pt: Point, polygon: Polygon) returns (inside: bool)
    ensures inside == Inside(pt, polygon)
  {
    var edges := Edges(polygon);
    inside := false;
    for i := 0 to |edges|
      invariant inside == (CrossingCount(pt, edges[..i]) % 2 == 1)
    {
      if Crosses(pt, edges[i]) {
        inside := !inside;
      }
      assert edges[..i + 1] == edges[..i] + [edges[i]];
      CrossingCountSnoc(pt, edges[..i], edges[i]);
    }
    assert edges[..|edges|] == edges;
  }

  /** A polygon without vertices has no edges, so nothing is inside it. */
  lemma NothingInsideEmptyPolygon(pt: Point, polygon: Polygon)
    requires polygon.vertices == []
    ensures !Inside(pt, polygon)
  {
  }

  // ---------------------------------------------------------------------------
  // Parity of a closed loop

  /** Whether vertex `v` lies strictly above the row `py`. */
  predicate Above(py: real, v: Point)
  {
    v.y > py
  }

  /** The open path through `vs`: edges `(vs[i], vs[i + 1])`, without the closing edge. */
  function PathEdges(vs: seq<Point>): (es: seq<Edge>)
    requires |vs| > 0
    ensures |es| == |vs| - 1
  {
    seq(|vs| - 1, i requires 0 <= i < |vs| - 1 => (vs[i], vs[i + 1]))
  }

  lemma StraddleCountSnoc(py: real, es: seq<Edge>, e: Edge)
    ensures StraddleCount(py, es + [e]) == StraddleCount(py, es) + (if Straddles(py, e) then 1 else 0)
  {
    assert (es + [e])[..|es|] == es;
  }

  /** Along an open path the row is straddled an odd number of times exactly
      when the path starts and ends on different sides of it. */
  lemma {:induction false} PathStraddleParity(py: real, vs: seq<Point>)
    requires |vs| > 0
    ensures StraddleCount(py, PathEdges(vs)) % 2
            == (if Above(py, vs[0]) != Above(py, vs[|vs| - 1]) then 1 else 0)
  {
    var n := |vs|;
    if n > 1 {
      var front := vs[..n - 1];
      PathStraddleParity(py, front);
      assert PathEdges(vs) == PathEdges(front) + [(vs[n - 2], vs[n - 1])];
      StraddleCountSnoc(py, PathEdges(front), (vs[n - 2], vs[n - 1]));
    }
  }

  /** The edge loop is the open path followed by the closing edge. */
  lemma EdgeListIsClosedPath(vs: seq<Point>)
    requires |vs| > 0
    ensures EdgeList(vs) == PathEdges(vs) + [(vs[|vs| - 1], vs[0])]
  {
    var n := |vs|;
    var closed := PathEdges(vs) + [(vs[n - 1], vs[0])];
    forall i | 0 <= i < n
      ensures EdgeList(vs)[i] == closed[i]
    {
      SuccessorIndex(i, n);
    }
  }

  /** A closed loop straddles any row an even number of times. */
  lemma {:induction false} ClosedLoopStraddlesEvenly(py: real, vs: seq<Point>)
    ensures StraddleCount(py, EdgeList(vs)) % 2 == 0
  {
    var n := |vs|;
    if n > 0 {
      EdgeListIsClosedPath(vs);
      StraddleCountSnoc(py, PathEdges(vs), (vs[n - 1], vs[0]));
      PathStraddleParity(py, vs);
    }
  }

  // ---------------------------------------------------------------------------
  // Where a crossing can happen

  /** The point where a straddling edge meets the row lies between the edge's
      endpoints horizontally. */
  lemma CrossingBetweenEndpoints(py: real, e: Edge)
    requires Straddles(py, e)
    ensures e.0.x <= CrossingX(py, e) || e.1.x <= CrossingX(py, e)
    ensures CrossingX(py, e) <= e.0.x || CrossingX(py, e) <= e.1.x
  {
    var t := (py - e.0.y) / (e.1.y - e.0.y);
    StepFraction(py, e.0.y, e.1.y);
    ProductOverQuotient(e.1.x - e.0.x, py - e.0.y, e.1.y - e.0.y);
    ScaledStepBetween(e.0.x, e.1.x, t);
  }

  /** The fraction of the way from `y0` to `y1` at which the row `py` lies. */
  lemma StepFraction(py: real, y0: real, y1: real)
    requires (y0 > py) != (y1 > py)
    ensures 0.0 <= (py - y0) / (y1 - y0) <= 1.0
  {
    if y0 > py {
      NegatedQuotient(py - y0, y1 - y0);
      QuotientInUnit(y0 - py, y0 - y1);
    } else {
      QuotientInUnit(py - y0, y1 - y0);
    }
  }

  lemma NegatedQuotient(num: real, den: real)
    requires den != 0.0
    ensures num / den == (-num) / (-den)
  {
  }

  lemma ProductOverQuotient(p: real, num: real, den: real)
    requires den != 0.0
    ensures p * num / den == p * (num / den)
  {
  }

  lemma QuotientInUnit(num: real, den: real)
    requires 0.0 <= num <= den && den > 0.0
    ensures 0.0 <= num / den <= 1.0
  {
  }

  lemma ScaledStepBetween(u: real, v: real, t: real)
    requires 0.0 <= t <= 1.0
    ensures u <= u + (v - u) * t || v <= u + (v - u) * t
    ensures u + (v - u) * t <= u || u + (v - u) * t <= v
  {
    if u <= v {
      ProductNonnegative(v - u, t);
      ProductNonnegative(v - u, 1.0 - t);
      assert (v - u) - (v - u) * t == (v - u) * (1.0 - t);
    } else {
      ProductNonnegative(u - v, t);
      ProductNonnegative(u - v, 1.0 - t);
      assert (u - v) - (u - v) * t == (u - v) * (1.0 - t);
      assert (v - u) * t == -((u - v) * t);
    }
  }

  lemma ProductNonnegative(p: real, q: real)
    requires p >= 0.0 && q >= 0.0
    ensures p * q >= 0.0
  {
  }

  /** When every straddling edge is crossed, the two counts agree. */
  lemma {:induction false} CountsAgreeWhenAllCrossed(pt: Point, es: seq<Edge>)
    requires forall i :: 0 <= i < |es| && Straddles(pt.y, es[i]) ==> Crosses(pt, es[i])
    ensures CrossingCount(pt, es) == StraddleCount(pt.y, es)
  {
    if es != [] {
      CountsAgreeWhenAllCrossed(pt, es[..|es| - 1]);
    }
  }

  /** A point strictly left of every vertex is outside: each straddling edge is
      crossed, and a closed loop has an even number of those. */
  lemma LeftOfAllVerticesIsOutside(pt: Point, polygon: Polygon)
    requires forall i :: 0 <= i < |polygon.vertices| ==> pt.x < polygon.vertices[i].x
    ensures !Inside(pt, polygon)
  {
    var vs := polygon.vertices;
    var es := EdgeList(vs);
    forall i | 0 <= i < |es| && Straddles(pt.y, es[i])
      ensures Crosses(pt, es[i])
    {
      CrossingBetweenEndpoints(pt.y, es[i]);
      assert es[i] == (vs[i], vs[(i + 1) % |vs|]);
    }
    CountsAgreeWhenAllCrossed(pt, es);
    ClosedLoopStraddlesEvenly(pt.y, vs);
  }

  /** A positive crossing count has a crossed edge behind it. */
  lemma {:induction false} SomeEdgeCrossed(pt: Point, es: seq<Edge>)
    requires CrossingCount(pt, es) > 0
    ensures exists i :: 0 <= i < |es| && Crosses(pt, es[i])
  {
    var n := |es|;
    if !Crosses(pt, es[n - 1]) {
      SomeEdgeCrossed(pt, es[..n - 1]);
      var i :| 0 <= i < n - 1 && Crosses(pt, es[..n - 1][i]);
      assert Crosses(pt, es[i]);
    }
  }

  /** A point the even-odd test accepts lies within the vertices' extent: some
      vertex is at or below its row and some strictly above it, some vertex is at
      or left of it and some strictly right of it. */
  lemma InsideWithinVertexExtent(pt: Point, polygon: Polygon)
    requires Inside(pt, polygon)
    ensures exists i :: 0 <= i < |polygon.vertices| && polygon.vertices[i].y <= pt.y
    ensures exists i :: 0 <= i < |polygon.vertices| && pt.y < polygon.vertices[i].y
    ensures exists i :: 0 <= i < |polygon.vertices| && polygon.vertices[i].x <= pt.x
    ensures exists i :: 0 <= i < |polygon.vertices| && pt.x < polygon.vertices[i].x
  {
    var vs := polygon.vertices;
    var es := EdgeList(vs);
    SomeEdgeCrossed(pt, es);
    var i :| 0 <= i < |es| && Crosses(pt, es[i]);
    var j := (i + 1) % |vs|;
    assert es[i] == (vs[i], vs[j]);
    CrossingBetweenEndpoints(pt.y, es[i]);
    if vs[i].y > pt.y {
      assert vs[j].y <= pt.y;
    } else {
      assert pt.y < vs[j].y;
    }
    if pt.x < vs[i].x {
    } else {
      assert pt.x < vs[j].x;
    }
    if forall k :: 0 <= k < |vs| ==> pt.x < vs[k].x {
      LeftOfAllVerticesIsOutside(pt, polygon);
      assert false;
    }
  }

  /** The square with corners (0,0) and (10,10): its centre is inside and
      (15,15) is not. */
  lemma SquareExample()
    ensures Inside(Point(5.0, 5.0), Polygon([Point(0.0, 0.0), Point(10.0, 0.0), Point(10.0, 10.0), Point(0.0, 10.0)], Color(0, 0, 0, 255)))
    ensures !Inside(Point(15.0, 15.0), Polygon([Point(0.0, 0.0), Point(10.0, 0.0), Point(10.0, 10.0), Point(0.0, 10.0)], Color(0, 0, 0, 255)))
  {
    var vs := [Point(0.0, 0.0), Point(10.0, 0.0), Point(10.0, 10.0), Point(0.0, 10.0)];
    var es := EdgeList(vs);
    assert es == [(vs[0], vs[1]), (vs[1], vs[2]), (vs[2], vs[3]), (vs[3], vs[0])];
    var pt, far := Point(5.0, 5.0), Point(15.0, 15.0);
    assert es[..3] == [(vs[0], vs[1]), (vs[1], vs[2]), (vs[2], vs[3])];
    assert es[..3][..2] == [(vs[0], vs[1]), (vs[1], vs[2])];
    assert es[..3][..2][..1] == [(vs[0], vs[1])];
    assert es[..3][..2][..1][..0] == [];
    assert CrossingX(5.0, (vs[1], vs[2])) == 10.0;
    assert CrossingX(5.0, (vs[3], vs[0])) == 0.0;
    assert !Crosses(pt, es[0]) && Crosses(pt, es[1]) && !Crosses(pt, es[2]) && !Crosses(pt, es[3]);
    assert CrossingCount(pt, es[..3][..2][..1]) == 0;
    assert CrossingCount(pt, es[..3][..2]) == 1;
    assert CrossingCount(pt, es[..3]) == 1;
    assert CrossingCount(pt, es) == 1;
    assert !Straddles(15.0, es[0]) && !Straddles(15.0, es[1]) && !Straddles(15.0, es[2]) && !Straddles(15.0, es[3]);
    assert CrossingCount(far, es[..3][..2][..1]) == 0;
    assert CrossingCount(far, es[..3][..2]) == 0;
    assert CrossingCount(far, es[..3]) == 0;
    assert CrossingCount(far, es) == 0;
  }
}
