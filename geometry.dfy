/** The discrete geometry kernel: integer positions in matrix convention
    (row y, column x, y growing downwards), the four compass orientations,
    inclusive rectangular areas, poses, and the two position enumerators
    (the Manhattan ring and the diagonal strides). */
module Geometry {
  import opened Results
  import opened Seqs

  function Min(a: int, b: int): int { if a <= b then a else b }
  function Max(a: int, b: int): int { if a <= b then b else a }
  function Abs(a: int): nat { if a < 0 then -a else a }

  /** A 2D shape: number of rows, then number of columns. */
  datatype Shape = Shape(height: int, width: int)

  // ---------------------------------------------------------------------
  // Position
  // ---------------------------------------------------------------------

  datatype Position = Position(y: int, x: int) {

    /** Adding an offset is undone by subtracting it. */
    function Add(d: Position): (r: Position)
      ensures r.Sub(d) == this && r.Sub(this) == d
    {
      Position(y + d.y, x + d.x)
    }

    /** The difference is the zero offset exactly between equal positions. */
    function Sub(d: Position): (r: Position)
      ensures r == Position(0, 0) <==> this == d
    {
      Position(y - d.y, x - d.x)
    }

    /** Rotates an offset by a quarter-turn multiple: N keeps it, S negates
        it, E maps (y, x) to (x, -y) and W maps (y, x) to (-x, y). */
    function Rotate(o: Orientation): (r: Position)
      ensures Abs(r.y) + Abs(r.x) == Abs(y) + Abs(x)
      ensures r == Position(0, 0) <==> this == Position(0, 0)
    {
      match o
      case N => Position(y, x)
      case S => Position(-y, -x)
      case E => Position(x, -y)
      case W => Position(-x, y)
    }
  }

  function ManhattanDistance(p: Position, q: Position): (d: nat)
    ensures d == 0 <==> p == q
  {
    var diff := p.Sub(q);
    Abs(diff.y) + Abs(diff.x)
  }

  /** Row-major order: earlier row, or same row and earlier column. */
  predicate Before(p: Position, q: Position)
  {
    p.y < q.y || (p.y == q.y && p.x < q.x)
  }

  predicate RowMajor(s: seq<Position>)
  {
    forall i, j :: 0 <= i < j < |s| ==> Before(s[i], s[j])
  }

  lemma RowMajorDistinct(s: seq<Position>)
    requires RowMajor(s)
    ensures Distinct(s)
  {
  }

  lemma AddSubInverse(p: Position, d: Position)
    ensures p.Add(d).Sub(d) == p && p.Sub(d).Add(d) == p
  {
  }

  /** Distances do not change when both ends move by the same offset or
      turn by the same orientation. */
  lemma ManhattanInvariance(p: Position, q: Position, d: Position, o: Orientation)
    ensures ManhattanDistance(p, q) == ManhattanDistance(q, p)
    ensures ManhattanDistance(p.Add(d), q.Add(d)) == ManhattanDistance(p, q)
    ensures ManhattanDistance(p.Rotate(o), q.Rotate(o)) == ManhattanDistance(p, q)
  {
  }

  // ---------------------------------------------------------------------
  // Orientation
  // ---------------------------------------------------------------------

  datatype Orientation = N | S | E | W {

    /** Clockwise quarter turns from north. */
    function Turns(): (r: nat)
      ensures r < 4
    {
      match this
      case N => 0
      case E => 1
      case S => 2
      case W => 3
    }

    /** The displacement of `dist` steps in this direction. */
    function AsPosition(dist: int): (r: Position)
      ensures r.y == 0 || r.x == 0
      ensures Abs(r.y) + Abs(r.x) == Abs(dist)
    {
      match this
      case N => Position(-dist, 0)
      case S => Position(dist, 0)
      case E => Position(0, dist)
      case W => Position(0, -dist)
    }

    /** Turning left turns the unit step a quarter counter-clockwise. */
    function RotateLeft(): (r: Orientation)
      ensures r.Turns() == (Turns() + 3) % 4
    {
      match this
      case N => W
      case W => S
      case S => E
      case E => N
    }

    /** Turning right turns the unit step a quarter clockwise. */
    function RotateRight(): (r: Orientation)
      ensures r.Turns() == (Turns() + 1) % 4
    {
      match this
      case N => E
      case E => S
      case S => W
      case W => N
    }

    /** Turning back reverses the unit step. */
    function RotateBack(): (r: Orientation)
      ensures r != this
      ensures r.Turns() == (Turns() + 2) % 4
    {
      match this
      case N => S
      case E => W
      case S => N
      case W => E
    }
  }

  /** The orientation whose rotation undoes the rotation by `o`. */
  function Inverse(o: Orientation): Orientation
  {
    match o
    case N => N
    case S => S
    case E => W
    case W => E
  }

  lemma OrientationAlgebra(o: Orientation)
    ensures o.RotateLeft().RotateRight() == o
    ensures o.RotateRight().RotateLeft() == o
    ensures o.RotateLeft().RotateLeft() == o.RotateBack()
    ensures o.RotateRight().RotateRight() == o.RotateBack()
    ensures o.RotateBack().RotateBack() == o
  {
  }

  /** `as_position(d)` is `d` steps away, and is the northward displacement
      turned by the orientation. */
  lemma AsPositionGeometry(o: Orientation, dist: int)
    ensures ManhattanDistance(o.AsPosition(dist), Position(0, 0)) == Abs(dist)
    ensures o.AsPosition(dist) == N.AsPosition(dist).Rotate(o)
    ensures N.AsPosition(1) == Position(-1, 0)
  {
    match o
    case N =>
    case S =>
    case E =>
    case W =>
  }

  /** Turning an orientation left, right or back turns offsets by W, E or
      S on top of the original turn; N turns nothing. */
  lemma RotateComposition(p: Position, o: Orientation)
    ensures p.Rotate(N) == p
    ensures p.Rotate(o.RotateRight()) == p.Rotate(o).Rotate(E)
    ensures p.Rotate(o.RotateLeft()) == p.Rotate(o).Rotate(W)
    ensures p.Rotate(o.RotateBack()) == p.Rotate(o).Rotate(S)
  {
  }

  lemma RotateInverse(p: Position, o: Orientation)
    ensures p.Rotate(o).Rotate(Inverse(o)) == p
    ensures p.Rotate(Inverse(o)).Rotate(o) == p
    ensures p.Rotate(E).Rotate(W) == p && p.Rotate(W).Rotate(E) == p
    ensures p.Rotate(S).Rotate(S) == p
  {
  }

  /** Rotating by an orientation and then by its back orientation is not
      the identity: for N it amounts to rotating by S. */
  lemma RotateBackIsNotInverse()
    ensures Position(1, 0).Rotate(N).Rotate(N.RotateBack()) == Position(-1, 0)
    ensures Position(1, 0).Rotate(N).Rotate(N.RotateBack()) != Position(1, 0)
  {
  }

  // ---------------------------------------------------------------------
  // Area
  // ---------------------------------------------------------------------

  /** One row of positions: (y, xs[0]), (y, xs[1]), ... */
  function Row(y: int, xs: seq<int>): (r: seq<Position>)
    ensures |r| == |xs|
  {
    seq(|xs|, j requires 0 <= j < |xs| => Position(y, xs[j]))
  }

  /** The nested comprehension `Position(y, x) for y in ys for x in xs`. */
  function Product(ys: seq<int>, xs: seq<int>): seq<Position>
    decreases |ys|
  {
    if ys == [] then [] else Row(ys[0], xs) + Product(ys[1..], xs)
  }

  lemma {:induction false} ProductLength(ys: seq<int>, xs: seq<int>)
    ensures |Product(ys, xs)| == |ys| * |xs|
    decreases |ys|
  {
    if ys != [] {
      ProductLength(ys[1..], xs);
    }
  }

  lemma {:induction false} ProductMember(ys: seq<int>, xs: seq<int>, p: Position)
    ensures p in Product(ys, xs) <==> p.y in ys && p.x in xs
    decreases |ys|
  {
    if ys != [] {
      ProductMember(ys[1..], xs, p);
      assert ys == [ys[0]] + ys[1..];
      if p.y == ys[0] && p.x in xs {
        var j :| 0 <= j < |xs| && xs[j] == p.x;
        assert Row(ys[0], xs)[j] == p;
      }
    }
  }

  lemma ProductMembers(ys: seq<int>, xs: seq<int>)
    ensures forall p :: p in Product(ys, xs) <==> p.y in ys && p.x in xs
  {
    forall p ensures p in Product(ys, xs) <==> p.y in ys && p.x in xs {
      ProductMember(ys, xs, p);
    }
  }

  lemma RowStep(i: int, n: int, j: int)
    ensures i * n + j == n + ((i - 1) * n + j)
  {
  }

  /** The element at row i, column j of the product sits at i * |xs| + j. */
  lemma {:induction false} ProductAt(ys: seq<int>, xs: seq<int>, i: nat, j: nat)
    requires i < |ys| && j < |xs|
    ensures i * |xs| + j < |Product(ys, xs)|
    ensures Product(ys, xs)[i * |xs| + j] == Position(ys[i], xs[j])
    decreases |ys|
  {
    if i > 0 {
      ProductAt(ys[1..], xs, i - 1, j);
      RowStep(i, |xs|, j);
    }
  }

  /** Increasing rows and columns give a row-major product. */
  lemma {:induction false} ProductRowMajor(ys: seq<int>, xs: seq<int>)
    requires Increasing(ys) && Increasing(xs)
    ensures RowMajor(Product(ys, xs))
    decreases |ys|
  {
    if ys != [] {
      var row, rest := Row(ys[0], xs), Product(ys[1..], xs);
      ProductRowMajor(ys[1..], xs);
      forall i, j | 0 <= i < j < |row + rest|
        ensures Before((row + rest)[i], (row + rest)[j])
      {
        if i < |row| && |row| <= j {
          var q := rest[j - |row|];
          assert q in rest;
          ProductMember(ys[1..], xs, q);
          var k :| 0 <= k < |ys[1..]| && ys[1..][k] == q.y;
          assert ys[k + 1] == q.y;
        } else if |row| <= i {
          assert (row + rest)[i] == rest[i - |row|];
          assert (row + rest)[j] == rest[j - |row|];
        }
      }
    }
  }

  /** An area given by inclusive row and column ranges. The source's
      constructor refuses decreasing ranges (see NewArea); every area the
      kernel itself builds is Valid. */
  datatype Area = Area(ys: (int, int), xs: (int, int)) {

    predicate Valid()
    {
      ys.0 <= ys.1 && xs.0 <= xs.1
    }

    /** The bounds are the smaller and the larger end of each range,
        whichever order the ends were given in. */
    function YMin(): (r: int)
      ensures (r == ys.0 || r == ys.1) && r <= ys.0 && r <= ys.1
    {
      Min(ys.0, ys.1)
    }

    function YMax(): (r: int)
      ensures (r == ys.0 || r == ys.1) && r >= ys.0 && r >= ys.1
    {
      Max(ys.0, ys.1)
    }

    function XMin(): (r: int)
      ensures (r == xs.0 || r == xs.1) && r <= xs.0 && r <= xs.1
    {
      Min(xs.0, xs.1)
    }

    function XMax(): (r: int)
      ensures (r == xs.0 || r == xs.1) && r >= xs.0 && r >= xs.1
    {
      Max(xs.0, xs.1)
    }

    function Height(): (h: int)
      ensures h >= 1
    {
      YMax() - YMin() + 1
    }

    function Width(): (w: int)
      ensures w >= 1
    {
      XMax() - XMin() + 1
    }

    /** Each corner is contained, and no contained position lies beyond
        it in either of its two directions. */
    function TopLeft(): (r: Position)
      ensures Contains(r)
      ensures forall p :: Contains(p) ==> r.y <= p.y && r.x <= p.x
    {
      Position(YMin(), XMin())
    }

    function TopRight(): (r: Position)
      ensures Contains(r)
      ensures forall p :: Contains(p) ==> r.y <= p.y && p.x <= r.x
    {
      Position(YMin(), XMax())
    }

    function BottomLeft(): (r: Position)
      ensures Contains(r)
      ensures forall p :: Contains(p) ==> p.y <= r.y && r.x <= p.x
    {
      Position(YMax(), XMin())
    }

    function BottomRight(): (r: Position)
      ensures Contains(r)
      ensures forall p :: Contains(p) ==> p.y <= r.y && p.x <= r.x
    {
      Position(YMax(), XMax())
    }

    /** All positions, row by row. */
    function Positions(): (r: seq<Position>)
      ensures |r| == Height() * Width()
      ensures forall p :: p in r <==> Contains(p)
    {
      var ys, xs := Range(YMin(), YMax() + 1), Range(XMin(), XMax() + 1);
      ProductLength(ys, xs);
      ProductMembers(ys, xs);
      RangeMembers(YMin(), YMax() + 1);
      RangeMembers(XMin(), XMax() + 1);
      Product(ys, xs)
    }

    /** The top and bottom rows, then the left and right ends of the rows
        in between. */
    function PositionsBorder(): (r: seq<Position>)
      ensures |r| == 2 * Width() + 2 * (Height() - 2) || (Height() == 1 && |r| == 2 * Width())
      ensures forall p :: p in r ==> Contains(p)
    {
      var top := Product([YMin(), YMax()], Range(XMin(), XMax() + 1));
      var sides := Product(Range(YMin() + 1, YMax()), [XMin(), XMax()]);
      ProductLength([YMin(), YMax()], Range(XMin(), XMax() + 1));
      ProductLength(Range(YMin() + 1, YMax()), [XMin(), XMax()]);
      ProductMembers([YMin(), YMax()], Range(XMin(), XMax() + 1));
      ProductMembers(Range(YMin() + 1, YMax()), [XMin(), XMax()]);
      RangeMembers(XMin(), XMax() + 1);
      RangeMembers(YMin() + 1, YMax());
      top + sides
    }

    /** The positions strictly inside the border, row by row. */
    function PositionsInside(): (r: seq<Position>)
      ensures |r| == (Height() - 2) * (Width() - 2) || Height() < 3 || Width() < 3
      ensures forall p :: p in r ==> Contains(p)
    {
      var ys, xs := Range(YMin() + 1, YMax()), Range(XMin() + 1, XMax());
      ProductLength(ys, xs);
      ProductMembers(ys, xs);
      RangeMembers(YMin() + 1, YMax());
      RangeMembers(XMin() + 1, XMax());
      Product(ys, xs)
    }

    /** Containment: the offset from the top-left corner lies within
        the height and the width. */
    predicate Contains(p: Position)
      ensures Contains(p) <==> 0 <= p.y - YMin() < Height() && 0 <= p.x - XMin() < Width()
    {
      YMin() <= p.y <= YMax() && XMin() <= p.x <= XMax()
    }

    function Translate(d: Position): (r: Area)
      ensures r.Valid()
    {
      Area((YMin() + d.y, YMax() + d.y), (XMin() + d.x, XMax() + d.x))
    }

    /** Rotation about the origin, matching Position.Rotate. */
    function Rotate(o: Orientation): (r: Area)
      ensures r.Valid()
    {
      match o
      case N => Area((YMin(), YMax()), (XMin(), XMax()))
      case S => Area((-YMax(), -YMin()), (-XMax(), -XMin()))
      case E => Area((XMin(), XMax()), (-YMax(), -YMin()))
      case W => Area((-XMax(), -XMin()), (YMin(), YMax()))
    }
  }

  /** Area construction: fails on a decreasing range, and otherwise its
      bounds are the given ends. */
  function NewArea(ys: (int, int), xs: (int, int)): (r: Result<Area>)
    ensures r.Ok? <==> ys.0 <= ys.1 && xs.0 <= xs.1
    ensures r.Err? ==> r.error == InvalidRange
    ensures r.Ok? ==> r.value.Valid() && r.value.ys == ys && r.value.xs == xs
    ensures r.Ok? ==> (r.value.YMin() == ys.0 && r.value.YMax() == ys.1 &&
                       r.value.XMin() == xs.0 && r.value.XMax() == xs.1)
    ensures r.Ok? ==> (r.value.Height() == ys.1 - ys.0 + 1 &&
                       r.value.Width() == xs.1 - xs.0 + 1)
  {
    if ys.0 > ys.1 then Err(InvalidRange)
    else if xs.0 > xs.1 then Err(InvalidRange)
    else Ok(Area(ys, xs))
  }

  /** `positions()` lists every contained position exactly once, in
      row-major order, height * width of them. */
  lemma AreaPositions(a: Area)
    ensures |a.Positions()| == a.Height() * a.Width()
    ensures forall p :: p in a.Positions() <==> a.Contains(p)
    ensures RowMajor(a.Positions()) && Distinct(a.Positions())
  {
    var ys, xs := Range(a.YMin(), a.YMax() + 1), Range(a.XMin(), a.XMax() + 1);
    ProductLength(ys, xs);
    forall p ensures p in a.Positions() <==> a.Contains(p) {
      ProductMember(ys, xs, p);
      RangeMember(a.YMin(), a.YMax() + 1, p.y);
      RangeMember(a.XMin(), a.XMax() + 1, p.x);
    }
    ProductRowMajor(ys, xs);
  }

  /** The position at row offset dy and column offset dx is listed at
      index dy * width + dx. */
  lemma AreaPositionAt(a: Area, dy: nat, dx: nat)
    requires dy < a.Height() && dx < a.Width()
    ensures dy * a.Width() + dx < |a.Positions()|
    ensures a.Positions()[dy * a.Width() + dx] == Position(a.YMin() + dy, a.XMin() + dx)
  {
    ProductAt(Range(a.YMin(), a.YMax() + 1), Range(a.XMin(), a.XMax() + 1), dy, dx);
  }

  /** Characterisation of the border and inside enumerations. */
  lemma BorderInsideMembers(a: Area)
    ensures forall p :: p in a.PositionsInside() <==>
              a.YMin() < p.y < a.YMax() && a.XMin() < p.x < a.XMax()
    ensures forall p :: p in a.PositionsBorder() <==>
              a.Contains(p) && (p.y == a.YMin() || p.y == a.YMax() ||
                                p.x == a.XMin() || p.x == a.XMax())
  {
    forall p
      ensures p in a.PositionsInside() <==>
                a.YMin() < p.y < a.YMax() && a.XMin() < p.x < a.XMax()
      ensures p in a.PositionsBorder() <==>
                a.Contains(p) && (p.y == a.YMin() || p.y == a.YMax() ||
                                  p.x == a.XMin() || p.x == a.XMax())
    {
      ProductMember(Range(a.YMin() + 1, a.YMax()), Range(a.XMin() + 1, a.XMax()), p);
      RangeMember(a.YMin() + 1, a.YMax(), p.y);
      RangeMember(a.XMin() + 1, a.XMax(), p.x);
      ProductMember([a.YMin(), a.YMax()], Range(a.XMin(), a.XMax() + 1), p);
      RangeMember(a.XMin(), a.XMax() + 1, p.x);
      ProductMember(Range(a.YMin() + 1, a.YMax()), [a.XMin(), a.XMax()], p);
    }
  }

  /** With at least two rows and two columns the border lists no position
      twice: its two parts are row-major and lie on different rows. */
  lemma BorderDistinct(a: Area)
    requires a.Height() >= 2 && a.Width() >= 2
    ensures Distinct(a.PositionsBorder())
  {
    var top := Product([a.YMin(), a.YMax()], Range(a.XMin(), a.XMax() + 1));
    var sides := Product(Range(a.YMin() + 1, a.YMax()), [a.XMin(), a.XMax()]);
    ProductRowMajor([a.YMin(), a.YMax()], Range(a.XMin(), a.XMax() + 1));
    ProductRowMajor(Range(a.YMin() + 1, a.YMax()), [a.XMin(), a.XMax()]);
    forall p | p in top ensures p !in sides {
      ProductMember([a.YMin(), a.YMax()], Range(a.XMin(), a.XMax() + 1), p);
      ProductMember(Range(a.YMin() + 1, a.YMax()), [a.XMin(), a.XMax()], p);
      RangeMember(a.YMin() + 1, a.YMax(), p.y);
    }
    DistinctConcat(top, sides);
  }

  /** With at least two rows and two columns, border and inside split the
      area's positions: both duplicate-free, disjoint, and together a
      permutation of `positions()`. */
  lemma BorderInsidePartition(a: Area)
    requires a.Height() >= 2 && a.Width() >= 2
    ensures Distinct(a.PositionsBorder()) && Distinct(a.PositionsInside())
    ensures forall p :: p in a.PositionsBorder() ==> p !in a.PositionsInside()
    ensures multiset(a.PositionsBorder()) + multiset(a.PositionsInside())
            == multiset(a.Positions())
    ensures |a.PositionsBorder()| + |a.PositionsInside()| == a.Height() * a.Width()
  {
    BorderDistinct(a);
    ProductRowMajor(Range(a.YMin() + 1, a.YMax()), Range(a.XMin() + 1, a.XMax()));
    BorderInsideMembers(a);
    AreaPositions(a);
    var split := a.PositionsBorder() + a.PositionsInside();
    DistinctConcat(a.PositionsBorder(), a.PositionsInside());
    SameElementsPermutation(split, a.Positions());
    assert |multiset(split)| == |multiset(a.Positions())|;
  }

  /** With a single row the border enumeration lists each position twice
      (the top and bottom rows coincide), which is why the partition above
      needs two rows and two columns. */
  lemma BorderRepeatsSingleRow(a: Area)
    requires a.Height() == 1
    ensures |a.PositionsBorder()| == 2 * a.Width()
    ensures a.PositionsBorder()[0] == a.PositionsBorder()[a.Width()]
    ensures !Distinct(a.PositionsBorder())
  {
    var xs := Range(a.XMin(), a.XMax() + 1);
    ProductLength([a.YMin(), a.YMax()], xs);
    ProductLength(Range(a.YMin() + 1, a.YMax()), [a.XMin(), a.XMax()]);
    ProductAt([a.YMin(), a.YMax()], xs, 0, 0);
    ProductAt([a.YMin(), a.YMax()], xs, 1, 0);
  }

  /** With a single column every row between the top and the bottom one
      contributes its position twice (its left and right ends coincide). */
  lemma BorderRepeatsSingleColumn(a: Area)
    requires a.Width() == 1 && a.Height() >= 3
    ensures |a.PositionsBorder()| == 2 * a.Height() - 2
    ensures a.PositionsBorder()[2] == a.PositionsBorder()[3] == Position(a.YMin() + 1, a.XMin())
    ensures !Distinct(a.PositionsBorder())
  {
    var top := Product([a.YMin(), a.YMax()], Range(a.XMin(), a.XMax() + 1));
    var sides := Product(Range(a.YMin() + 1, a.YMax()), [a.XMin(), a.XMax()]);
    ProductLength([a.YMin(), a.YMax()], Range(a.XMin(), a.XMax() + 1));
    ProductAt(Range(a.YMin() + 1, a.YMax()), [a.XMin(), a.XMax()], 0, 0);
    ProductAt(Range(a.YMin() + 1, a.YMax()), [a.XMin(), a.XMax()], 0, 1);
    ProductLength(Range(a.YMin() + 1, a.YMax()), [a.XMin(), a.XMax()]);
    assert |top| == 2 && |sides| == 2 * (a.Height() - 2);
    assert a.PositionsBorder() == top + sides;
    assert a.PositionsBorder()[2] == sides[0];
    assert a.PositionsBorder()[3] == sides[1];
  }

  /** Translation moves both ranges, keeps the dimensions, and moves
      containment along with it. */
  lemma TranslateArea(a: Area, d: Position, p: Position)
    ensures a.Translate(d).YMin() == a.YMin() + d.y && a.Translate(d).XMin() == a.XMin() + d.x
    ensures a.Translate(d).Height() == a.Height() && a.Translate(d).Width() == a.Width()
    ensures a.Translate(d).Contains(p.Add(d)) == a.Contains(p)
  {
  }

  /** Rotating an area and a position by the same orientation preserves
      containment. */
  lemma RotateContains(a: Area, o: Orientation, p: Position)
    ensures a.Rotate(o).Contains(p.Rotate(o)) == a.Contains(p)
  {
    match o
    case N =>
    case S =>
    case E =>
    case W =>
  }

  /** E and W swap the dimensions, N and S keep them; N, S twice, E then
      W, and rotating by the inverse give back a well-formed area. */
  lemma RotateArea(a: Area, o: Orientation)
    ensures o == E || o == W ==>
              a.Rotate(o).Height() == a.Width() && a.Rotate(o).Width() == a.Height()
    ensures o == N || o == S ==>
              a.Rotate(o).Height() == a.Height() && a.Rotate(o).Width() == a.Width()
    ensures a.Valid() ==> a.Rotate(N) == a
    ensures a.Valid() ==> a.Rotate(o).Rotate(Inverse(o)) == a
    ensures a.Valid() ==> a.Rotate(S).Rotate(S) == a
    ensures a.Valid() ==> a.Rotate(E).Rotate(W) == a && a.Rotate(W).Rotate(E) == a
  {
  }

  /** Rotating by an orientation and then by its back orientation amounts
      to rotating by S for N (and by the identity only when the area is
      symmetric about the origin). */
  lemma RotateAreaBack(a: Area)
    ensures a.Rotate(N).Rotate(N.RotateBack()) == a.Rotate(S)
    ensures Area((0, 1), (0, 0)).Rotate(N).Rotate(N.RotateBack()) == Area((-1, 0), (0, 0))
  {
  }

  // ---------------------------------------------------------------------
  // Pose
  // ---------------------------------------------------------------------

  datatype Pose = Pose(position: Position, orientation: Orientation) {

    /** The absolute position of an offset given in the pose's frame:
        turn it into the world frame, then add the pose's position. */
    function AbsolutePosition(relative: Position): (r: Position)
      ensures r.Sub(position).Rotate(Inverse(orientation)) == relative
    {
      position.Add(relative.Rotate(orientation))
    }

    /** The cell directly in front. */
    function FrontPosition(): (r: Position)
      ensures r == position.Add(orientation.AsPosition(1))
    {
      AbsolutePosition(N.AsPosition(1))
    }

    /** The absolute area of an area given in the pose's frame: rotate
        first, translate second. */
    function AbsoluteArea(relative: Area): (r: Area)
      ensures r.Valid()
      ensures r.Height() == (if orientation == E || orientation == W
                             then relative.Width() else relative.Height())
    {
      relative.Rotate(orientation).Translate(position)
    }
  }

  /** An offset keeps its length when the pose places it in the world;
      in particular the front position is a neighbour. */
  lemma PoseDistance(pose: Pose, relative: Position)
    ensures ManhattanDistance(pose.AbsolutePosition(relative), pose.position)
            == ManhattanDistance(relative, Position(0, 0))
    ensures ManhattanDistance(pose.FrontPosition(), pose.position) == 1
  {
    var r := relative.Rotate(pose.orientation);
    assert pose.AbsolutePosition(relative).Sub(pose.position) == r;
    assert relative.Sub(Position(0, 0)) == relative;
    var step := pose.orientation.AsPosition(1);
    assert pose.FrontPosition().Sub(pose.position) == step;
  }

  /** A pose maps relative areas and relative positions consistently. */
  lemma PoseConsistency(pose: Pose, a: Area, p: Position)
    ensures pose.AbsoluteArea(a).Contains(pose.AbsolutePosition(p)) == a.Contains(p)
    ensures pose.AbsolutePosition(Position(0, 0)) == pose.position
    ensures pose.AbsoluteArea(a) == a.Rotate(pose.orientation).Translate(pose.position)
  {
    var turned := p.Rotate(pose.orientation);
    var rotated := a.Rotate(pose.orientation);
    assert pose.AbsolutePosition(p) == pose.position.Add(turned);
    RotateContains(a, pose.orientation, p);
    TranslateArea(rotated, pose.position, turned);
    assert pose.AbsoluteArea(a) == rotated.Translate(pose.position);
    assert pose.position.Add(turned) == turned.Add(pose.position);
    assert Position(0, 0).Rotate(pose.orientation) == Position(0, 0) by {
      match pose.orientation
      case N =>
      case S =>
      case E =>
      case W =>
    }
  }

  // ---------------------------------------------------------------------
  // Manhattan boundary
  // ---------------------------------------------------------------------

  /** The ring at Manhattan distance `dist` around `c`, starting at the top
      vertex and walking clockwise in four straight diagonal lines. */
  function ManhattanBoundary(c: Position, dist: int): (r: seq<Position>)
    requires dist > 0
    ensures |r| == 4 * dist
  {
    seq(dist, i => Position(c.y - dist + i, c.x + i))
    + seq(dist, i => Position(c.y + i, c.x + dist - i))
    + seq(dist, i => Position(c.y + dist - i, c.x - i))
    + seq(dist, i => Position(c.y - i, c.x - dist + i))
  }

  /** The element at index i of the ring, by quarter. */
  lemma BoundaryAt(c: Position, dist: int, i: int)
    requires dist > 0 && 0 <= i < 4 * dist
    ensures var r := ManhattanBoundary(c, dist);
      if i < dist then r[i] == Position(c.y - dist + i, c.x + i)
      else if i < 2 * dist then r[i] == Position(c.y + (i - dist), c.x + dist - (i - dist))
      else if i < 3 * dist then r[i] == Position(c.y + dist - (i - 2 * dist), c.x - (i - 2 * dist))
      else r[i] == Position(c.y - (i - 3 * dist), c.x - dist + (i - 3 * dist))
  {
  }

  /** Every position of the ring is at distance exactly `dist`. */
  lemma BoundaryDistance(c: Position, dist: int)
    requires dist > 0
    ensures forall p :: p in ManhattanBoundary(c, dist) ==> ManhattanDistance(p, c) == dist
  {
    var r := ManhattanBoundary(c, dist);
    forall p | p in r ensures ManhattanDistance(p, c) == dist {
      var i :| 0 <= i < |r| && r[i] == p;
      BoundaryAt(c, dist, i);
    }
  }

  /** The ring starts at the top vertex and reaches the right, bottom and
      left vertices after one, two and three quarters. */
  lemma BoundaryVertices(c: Position, dist: int)
    requires dist > 0
    ensures ManhattanBoundary(c, dist)[0] == Position(c.y - dist, c.x)
    ensures ManhattanBoundary(c, dist)[dist] == Position(c.y, c.x + dist)
    ensures ManhattanBoundary(c, dist)[2 * dist] == Position(c.y + dist, c.x)
    ensures ManhattanBoundary(c, dist)[3 * dist] == Position(c.y, c.x - dist)
  {
    BoundaryAt(c, dist, 0);
    BoundaryAt(c, dist, dist);
    BoundaryAt(c, dist, 2 * dist);
    BoundaryAt(c, dist, 3 * dist);
  }

  /** Every step of the ring is one diagonal move, the last one back to
      the start. */
  lemma BoundarySteps(c: Position, dist: int)
    requires dist > 0
    ensures forall i :: 0 <= i < 4 * dist - 1 ==>
              DiagonalStep(ManhattanBoundary(c, dist)[i], ManhattanBoundary(c, dist)[i + 1])
    ensures DiagonalStep(ManhattanBoundary(c, dist)[4 * dist - 1], ManhattanBoundary(c, dist)[0])
  {
    var r := ManhattanBoundary(c, dist);
    forall i | 0 <= i < 4 * dist - 1 ensures DiagonalStep(r[i], r[i + 1]) {
      BoundaryAt(c, dist, i);
      BoundaryAt(c, dist, i + 1);
    }
    BoundaryAt(c, dist, 4 * dist - 1);
    BoundaryAt(c, dist, 0);
  }

  predicate DiagonalStep(p: Position, q: Position)
  {
    Abs(q.y - p.y) == 1 && Abs(q.x - p.x) == 1
  }

  /** The ring is duplicate-free and holds every position at distance
      `dist`, so it has exactly 4 * dist of them. */
  lemma BoundaryExact(c: Position, dist: int)
    requires dist > 0
    ensures Distinct(ManhattanBoundary(c, dist))
    ensures forall p :: p in ManhattanBoundary(c, dist) <==> ManhattanDistance(p, c) == dist
  {
    var r := ManhattanBoundary(c, dist);
    forall i, j | 0 <= i < j < |r| ensures r[i] != r[j] {
      BoundaryAt(c, dist, i);
      BoundaryAt(c, dist, j);
    }
    BoundaryDistance(c, dist);
    forall p | ManhattanDistance(p, c) == dist ensures p in r {
      var dy, dx := p.y - c.y, p.x - c.x;
      var i;
      if dy < 0 && dx >= 0 {
        i := dx;
      } else if dy >= 0 && dx > 0 {
        i := dist + dy;
      } else if dy > 0 && dx <= 0 {
        i := 2 * dist - dx;
      } else {
        i := 3 * dist - dy;
      }
      BoundaryAt(c, dist, i);
      assert r[i] == p;
    }
  }

  // ---------------------------------------------------------------------
  // Diagonal strides
  // ---------------------------------------------------------------------

  /** The corner a sweep starts from: the bottom-right corner (NW sweep)
      or the bottom-left corner (NE sweep). */
  datatype StrideDirection = NW | NE

  /** The anti-diagonal a position lies on, counted from the sweep's corner. */
  function StrideIndex(a: Area, dir: StrideDirection, p: Position): int
  {
    match dir
    case NW => (a.YMax() - p.y) + (a.XMax() - p.x)
    case NE => (a.YMax() - p.y) + (p.x - a.XMin())
  }

  /** The place of a position along its anti-diagonal. */
  function StrideOffset(a: Area, dir: StrideDirection, p: Position): int
  {
    match dir
    case NW => a.XMax() - p.x
    case NE => p.x - a.XMin()
  }

  function StrideCandidate(a: Area, dir: StrideDirection, stride: int, k: int): (p: Position)
    ensures StrideIndex(a, dir, p) == stride && StrideOffset(a, dir, p) == k
  {
    match dir
    case NW => Position(a.YMax() - stride + k, a.XMax() - k)
    case NE => Position(a.YMax() - stride + k, a.XMin() + k)
  }

  /** The k-th candidates of one stride, k in range(stride + 1). */
  function Stride(a: Area, dir: StrideDirection, stride: nat): seq<Position>
  {
    seq(stride + 1, k => StrideCandidate(a, dir, stride, k))
  }

  /** All candidates of strides 0 .. n-1, stride after stride. */
  function StrideCandidates(a: Area, dir: StrideDirection, n: nat): seq<Position>
  {
    if n == 0 then [] else StrideCandidates(a, dir, n - 1) + Stride(a, dir, n - 1)
  }

  function FilterContained(a: Area, s: seq<Position>): seq<Position>
  {
    if s == [] then []
    else (if a.Contains(s[0]) then [s[0]] else []) + FilterContained(a, s[1..])
  }

  /** The area's positions, anti-diagonal by anti-diagonal from the
      sweep's corner. */
  function DiagonalStrides(a: Area, dir: StrideDirection): (r: seq<Position>)
    ensures forall p :: p in r <==> a.Contains(p)
  {
    var cands := StrideCandidates(a, dir, a.Height() + a.Width() + 1);
    CandidatesCoverArea(a, dir);
    FilterMembers(a, cands);
    FilterContained(a, cands)
  }

  /** Every position of the area is among the candidates of its
      height + width + 1 strides. */
  lemma CandidatesCoverArea(a: Area, dir: StrideDirection)
    ensures forall p :: a.Contains(p) ==> p in StrideCandidates(a, dir, a.Height() + a.Width() + 1)
  {
    forall p | a.Contains(p) ensures p in StrideCandidates(a, dir, a.Height() + a.Width() + 1) {
      CandidatesCover(a, dir, a.Height() + a.Width() + 1, p);
    }
  }

  /** Strictly increasing (stride index, offset) pairs. */
  predicate StrideOrdered(a: Area, dir: StrideDirection, s: seq<Position>)
  {
    forall i, j :: 0 <= i < j < |s| ==>
      StrideIndex(a, dir, s[i]) < StrideIndex(a, dir, s[j]) ||
      (StrideIndex(a, dir, s[i]) == StrideIndex(a, dir, s[j]) &&
       StrideOffset(a, dir, s[i]) < StrideOffset(a, dir, s[j]))
  }

  lemma {:induction false} CandidatesOrdered(a: Area, dir: StrideDirection, n: nat)
    ensures forall p :: p in StrideCandidates(a, dir, n) ==> StrideIndex(a, dir, p) < n
    ensures StrideOrdered(a, dir, StrideCandidates(a, dir, n))
  {
    if n > 0 {
      CandidatesOrdered(a, dir, n - 1);
      var prev, last := StrideCandidates(a, dir, n - 1), Stride(a, dir, n - 1);
      assert StrideCandidates(a, dir, n) == prev + last;
      forall i, j | 0 <= i < j < |prev + last|
        ensures StrideIndex(a, dir, (prev + last)[i]) < StrideIndex(a, dir, (prev + last)[j]) ||
                (StrideIndex(a, dir, (prev + last)[i]) == StrideIndex(a, dir, (prev + last)[j]) &&
                 StrideOffset(a, dir, (prev + last)[i]) < StrideOffset(a, dir, (prev + last)[j]))
      {
        if j < |prev| {
          assert (prev + last)[i] == prev[i] && (prev + last)[j] == prev[j];
        } else if i < |prev| {
          assert prev[i] in prev;
        }
      }
    }
  }

  lemma {:induction false} CandidatesCover(a: Area, dir: StrideDirection, n: nat, p: Position)
    requires 0 <= StrideOffset(a, dir, p) <= StrideIndex(a, dir, p) < n
    ensures p in StrideCandidates(a, dir, n)
  {
    var s, k := StrideIndex(a, dir, p), StrideOffset(a, dir, p);
    if s == n - 1 {
      assert Stride(a, dir, n - 1)[k] == p;
    } else {
      CandidatesCover(a, dir, n - 1, p);
    }
  }

  lemma {:induction false} FilterMembers(a: Area, s: seq<Position>)
    ensures forall p :: p in FilterContained(a, s) <==> p in s && a.Contains(p)
  {
    if s != [] {
      FilterMembers(a, s[1..]);
      assert s == [s[0]] + s[1..];
    }
  }

  lemma {:induction false} FilterOrdered(a: Area, dir: StrideDirection, s: seq<Position>)
    requires StrideOrdered(a, dir, s)
    ensures StrideOrdered(a, dir, FilterContained(a, s))
  {
    if s != [] {
      FilterOrdered(a, dir, s[1..]);
      FilterMembers(a, s[1..]);
      var rest := FilterContained(a, s[1..]);
      forall q | q in rest
        ensures StrideIndex(a, dir, s[0]) < StrideIndex(a, dir, q) ||
                (StrideIndex(a, dir, s[0]) == StrideIndex(a, dir, q) &&
                 StrideOffset(a, dir, s[0]) < StrideOffset(a, dir, q))
      {
        var k :| 0 <= k < |s[1..]| && s[1..][k] == q;
        assert s[k + 1] == q;
      }
      var head := if a.Contains(s[0]) then [s[0]] else [];
      forall i, j | 0 <= i < j < |head + rest|
        ensures StrideIndex(a, dir, (head + rest)[i]) < StrideIndex(a, dir, (head + rest)[j]) ||
                (StrideIndex(a, dir, (head + rest)[i]) == StrideIndex(a, dir, (head + rest)[j]) &&
                 StrideOffset(a, dir, (head + rest)[i]) < StrideOffset(a, dir, (head + rest)[j]))
      {
        if i < |head| {
          assert (head + rest)[j] in rest;
        } else {
          assert (head + rest)[i] == rest[i - |head|] && (head + rest)[j] == rest[j - |head|];
        }
      }
    }
  }

  /** `diagonal_strides` emits only positions of the area, each of them
      exactly once (a permutation of `positions()`), with non-decreasing
      stride index. */
  lemma DiagonalStridesExact(a: Area, dir: StrideDirection)
    ensures forall p :: p in DiagonalStrides(a, dir) <==> a.Contains(p)
    ensures Distinct(DiagonalStrides(a, dir))
    ensures forall i, j :: 0 <= i < j < |DiagonalStrides(a, dir)| ==>
              StrideIndex(a, dir, DiagonalStrides(a, dir)[i]) <= StrideIndex(a, dir, DiagonalStrides(a, dir)[j])
    ensures multiset(DiagonalStrides(a, dir)) == multiset(a.Positions())
    ensures |DiagonalStrides(a, dir)| == a.Height() * a.Width()
  {
    var n := a.Height() + a.Width() + 1;
    var cands := StrideCandidates(a, dir, n);
    CandidatesOrdered(a, dir, n);
    FilterMembers(a, cands);
    FilterOrdered(a, dir, cands);
    CandidatesCoverArea(a, dir);
    AreaPositions(a);
    SameElementsPermutation(DiagonalStrides(a, dir), a.Positions());
    assert |multiset(DiagonalStrides(a, dir))| == |multiset(a.Positions())|;
  }
}
