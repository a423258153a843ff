/** The grid container and the agent. A grid is a height x width array of
    cells indexed by Position; its abstract value is the matrix of its
    rows (Contents). The functions on matrices below specify what the
    grid's methods compute. */
module Info {
  import opened Results
  import opened Seqs
  import opened Geometry
  import opened Cells

  type Matrix = seq<seq<Cell>>

  predicate IsMatrix(m: Matrix, h: nat, w: nat)
  {
    |m| == h && forall i :: 0 <= i < h ==> |m[i]| == w
  }

  /** What numpy turns into a two-dimensional array: at least one row, and
      all rows of the same length. */
  predicate Rectangular(m: Matrix)
  {
    |m| > 0 && forall i :: 0 <= i < |m| ==> |m[i]| == |m[0]|
  }

  predicate InMatrix(m: Matrix, p: Position)
  {
    0 <= p.y < |m| && 0 <= p.x < |m[p.y]|
  }

  lemma MatrixEquality(a: Matrix, b: Matrix, h: nat, w: nat)
    requires IsMatrix(a, h, w) && IsMatrix(b, h, w)
    requires forall i, j :: 0 <= i < h && 0 <= j < w ==> a[i][j] == b[i][j]
    ensures a == b
  {
    forall i | 0 <= i < h ensures a[i] == b[i] {
      assert forall j :: 0 <= j < w ==> a[i][j] == b[i][j];
    }
  }

  // ---------------------------------------------------------------------
  // Cell updates and swaps
  // ---------------------------------------------------------------------

  /** The matrix with the cell at p replaced by c. */
  function Update(m: Matrix, p: Position, c: Cell): Matrix
    requires InMatrix(m, p)
  {
    m[p.y := m[p.y][p.x := c]]
  }

  /** A set is seen by a later get at the same position, and by no other
      position; the shape does not change. */
  lemma UpdateGet(m: Matrix, h: nat, w: nat, p: Position, c: Cell)
    requires IsMatrix(m, h, w) && InMatrix(m, p)
    ensures IsMatrix(Update(m, p, c), h, w)
    ensures Update(m, p, c)[p.y][p.x] == c
    ensures forall i, j :: 0 <= i < h && 0 <= j < w && (i, j) != (p.y, p.x) ==>
              Update(m, p, c)[i][j] == m[i][j]
  {
  }

  /** The tuple assignment `self[p], self[q] = self[q], self[p]`. */
  function SwapCells(m: Matrix, p: Position, q: Position): Matrix
    requires InMatrix(m, p) && InMatrix(m, q)
  {
    Update(Update(m, p, m[q.y][q.x]), q, m[p.y][p.x])
  }

  /** A swap exchanges exactly the two cells. */
  lemma SwapExchanges(m: Matrix, h: nat, w: nat, p: Position, q: Position)
    requires IsMatrix(m, h, w) && InMatrix(m, p) && InMatrix(m, q)
    ensures IsMatrix(SwapCells(m, p, q), h, w)
    ensures SwapCells(m, p, q)[p.y][p.x] == m[q.y][q.x]
    ensures SwapCells(m, p, q)[q.y][q.x] == m[p.y][p.x]
    ensures forall i, j ::
              (0 <= i < h && 0 <= j < w && (i, j) != (p.y, p.x) && (i, j) != (q.y, q.x)) ==>
              SwapCells(m, p, q)[i][j] == m[i][j]
  {
  }

  /** Swapping the same two cells twice restores the matrix. */
  lemma SwapTwice(m: Matrix, h: nat, w: nat, p: Position, q: Position)
    requires IsMatrix(m, h, w) && InMatrix(m, p) && InMatrix(m, q)
    ensures InMatrix(SwapCells(m, p, q), p) && InMatrix(SwapCells(m, p, q), q)
    ensures SwapCells(SwapCells(m, p, q), p, q) == m
  {
    SwapExchanges(m, h, w, p, q);
    var once := SwapCells(m, p, q);
    SwapExchanges(once, h, w, p, q);
    MatrixEquality(SwapCells(once, p, q), m, h, w);
  }

  // ---------------------------------------------------------------------
  // Whole-matrix rotation (numpy's rot90)
  // ---------------------------------------------------------------------

  /** The number of counter-clockwise quarter turns of the array that shows
      the grid to a viewer facing `o`. */
  function QuarterTurns(o: Orientation): nat
  {
    match o
    case N => 0
    case S => 2
    case E => 1
    case W => 3
  }

  /** `rot90(m, QuarterTurns(o))` for an h x w matrix m. */
  function Rotated(m: Matrix, h: nat, w: nat, o: Orientation): (r: Matrix)
    requires IsMatrix(m, h, w)
    ensures o == E || o == W ==> IsMatrix(r, w, h)
    ensures o == N || o == S ==> IsMatrix(r, h, w)
  {
    match o
    case N => m
    case S => seq(h, i requires 0 <= i < h =>
                seq(w, j requires 0 <= j < w => m[h - 1 - i][w - 1 - j]))
    case E => seq(w, i requires 0 <= i < w =>
                seq(h, j requires 0 <= j < h => m[j][w - 1 - i]))
    case W => seq(w, i requires 0 <= i < w =>
                seq(h, j requires 0 <= j < h => m[h - 1 - j][i]))
  }

  /** For E the grid AB/CD becomes BD/AC. */
  lemma RotatedExample(a: Cell, b: Cell, c: Cell, d: Cell)
    ensures Rotated([[a, b], [c, d]], 2, 2, E) == [[b, d], [a, c]]
  {
    var r := Rotated([[a, b], [c, d]], 2, 2, E);
    assert r[0] == [b, d];
    assert r[1] == [a, c];
  }

  /** S is two E turns and W is three: each orientation is its number of
      single counter-clockwise quarter turns. */
  lemma RotatedQuarterTurns(m: Matrix, h: nat, w: nat)
    requires IsMatrix(m, h, w)
    ensures Rotated(m, h, w, S) == Rotated(Rotated(m, h, w, E), w, h, E)
    ensures Rotated(m, h, w, W) == Rotated(Rotated(m, h, w, S), h, w, E)
  {
    var e := Rotated(m, h, w, E);
    MatrixEquality(Rotated(m, h, w, S), Rotated(e, w, h, E), h, w);
    var s := Rotated(m, h, w, S);
    MatrixEquality(Rotated(m, h, w, W), Rotated(s, h, w, E), w, h);
  }

  /** N changes nothing; S twice, E then W and W then E restore the matrix. */
  lemma RotatedInverses(m: Matrix, h: nat, w: nat)
    requires IsMatrix(m, h, w)
    ensures Rotated(m, h, w, N) == m
    ensures Rotated(Rotated(m, h, w, S), h, w, S) == m
    ensures Rotated(Rotated(m, h, w, E), w, h, W) == m
    ensures Rotated(Rotated(m, h, w, W), w, h, E) == m
  {
    MatrixEquality(Rotated(Rotated(m, h, w, S), h, w, S), m, h, w);
    MatrixEquality(Rotated(Rotated(m, h, w, E), w, h, W), m, h, w);
    MatrixEquality(Rotated(Rotated(m, h, w, W), w, h, E), m, h, w);
  }

  // ---------------------------------------------------------------------
  // Sub-grid extraction
  // ---------------------------------------------------------------------

  /** The cell at local position (i, j) of the slice of an h x w matrix at
      area a: the cell at (i, j) + a's top-left corner when that lies in
      the matrix, Hidden otherwise. */
  function SliceCell(m: Matrix, h: nat, w: nat, a: Area, i: int, j: int): Cell
    requires IsMatrix(m, h, w)
  {
    var p := Position(i, j).Add(a.TopLeft());
    if 0 <= p.y < h && 0 <= p.x < w then m[p.y][p.x] else Hidden
  }

  function Slice(m: Matrix, h: nat, w: nat, a: Area): (r: Matrix)
    requires IsMatrix(m, h, w)
    ensures IsMatrix(r, a.Height(), a.Width())
  {
    seq(a.Height(), i requires 0 <= i < a.Height() =>
      seq(a.Width(), j requires 0 <= j < a.Width() => SliceCell(m, h, w, a, i, j)))
  }

  /** The local frame of a slice is the area moved to the origin: local
      position p stands for p + top-left, which lies in the area; cells
      standing for positions outside the matrix are Hidden, and so block
      sight. */
  lemma SliceAt(m: Matrix, h: nat, w: nat, a: Area, p: Position)
    requires IsMatrix(m, h, w)
    requires 0 <= p.y < a.Height() && 0 <= p.x < a.Width()
    ensures a.Contains(p.Add(a.TopLeft()))
    ensures var q := p.Add(a.TopLeft());
      if 0 <= q.y < h && 0 <= q.x < w then Slice(m, h, w, a)[p.y][p.x] == m[q.y][q.x]
      else Slice(m, h, w, a)[p.y][p.x] == Hidden && !Slice(m, h, w, a)[p.y][p.x].Transparent()
  {
  }

  /** Slicing a matrix at its own full area gives the matrix back. */
  lemma SliceFull(m: Matrix, h: nat, w: nat)
    requires IsMatrix(m, h, w) && h >= 1 && w >= 1
    ensures Slice(m, h, w, Area((0, h - 1), (0, w - 1))) == m
  {
    MatrixEquality(Slice(m, h, w, Area((0, h - 1), (0, w - 1))), m, h, w);
  }

  // ---------------------------------------------------------------------
  // Grid
  // ---------------------------------------------------------------------

  class Grid {
    const shape: Shape
    const cells: array2<Cell>

    predicate Valid()
    {
      shape == Shape(cells.Length0, cells.Length1)
    }

    /** A height x width grid of Floor. */
    constructor (height: nat, width: nat)
      ensures Valid() && shape == Shape(height, width) && fresh(cells)
      ensures forall i, j :: 0 <= i < height && 0 <= j < width ==> cells[i, j] == Floor
    {
      shape := Shape(height, width);
      cells := new Cell[height, width]((i, j) => Floor);
    }

    /** The grid's rows. */
    function Contents(): (m: Matrix)
      reads cells
      ensures IsMatrix(m, cells.Length0, cells.Length1)
      ensures forall i, j :: 0 <= i < cells.Length0 && 0 <= j < cells.Length1 ==>
                m[i][j] == cells[i, j]
    {
      seq(cells.Length0, i requires 0 <= i < cells.Length0 reads cells =>
        seq(cells.Length1, j requires 0 <= j < cells.Length1 reads cells => cells[i, j]))
    }

    predicate HasCells()
    {
      shape.height >= 1 && shape.width >= 1
    }

    /** Position membership: inside the grid's bounds, so a grid without
        rows or columns contains no position. */
    predicate Contains(p: Position)
      ensures Contains(p) ==> HasCells()
    {
      0 <= p.y < shape.height && 0 <= p.x < shape.width
    }

    /** The area ((0, height-1), (0, width-1)); it cannot be built, so the
        source raises, when the grid has no rows or no columns. When it
        exists, it contains exactly the grid's positions. */
    function FullArea(): (r: Result<Area>)
      ensures r.Ok? <==> HasCells()
      ensures r.Err? ==> r.error == InvalidRange
      ensures r.Ok? ==> (r.value.Valid() && r.value.TopLeft() == Position(0, 0) &&
                         r.value.Height() == shape.height && r.value.Width() == shape.width)
      ensures r.Ok? ==> forall p :: r.value.Contains(p) <==> Contains(p)
    {
      NewArea((0, shape.height - 1), (0, shape.width - 1))
    }

    /** The grid's positions in row-major order, each once. */
    function Positions(): (r: Result<seq<Position>>)
      ensures r.Ok? <==> HasCells()
      ensures r.Ok? ==> r.value == FullArea().value.Positions()
      ensures r.Ok? ==> (|r.value| == shape.height * shape.width &&
                         RowMajor(r.value) &&
                         forall p :: p in r.value <==> Contains(p))
    {
      match FullArea()
      case Ok(a) => AreaPositions(a); Ok(a.Positions())
      case Err(e) => Err(e)
    }

    /** The positions on the first or last row or column. */
    function PositionsBorder(): (r: Result<seq<Position>>)
      ensures r.Ok? <==> HasCells()
      ensures r.Ok? ==> r.value == FullArea().value.PositionsBorder()
      ensures r.Ok? ==> forall p :: p in r.value <==>
                Contains(p) && (p.y == 0 || p.y == shape.height - 1 ||
                                p.x == 0 || p.x == shape.width - 1)
    {
      match FullArea()
      case Ok(a) => BorderInsideMembers(a); Ok(a.PositionsBorder())
      case Err(e) => Err(e)
    }

    /** The positions off the first and last rows and columns. */
    function PositionsInside(): (r: Result<seq<Position>>)
      ensures r.Ok? <==> HasCells()
      ensures r.Ok? ==> r.value == FullArea().value.PositionsInside()
      ensures r.Ok? ==> forall p :: p in r.value <==>
                0 < p.y < shape.height - 1 && 0 < p.x < shape.width - 1
    {
      match FullArea()
      case Ok(a) => BorderInsideMembers(a); Ok(a.PositionsInside())
      case Err(e) => Err(e)
    }

    function Get(p: Position): (c: Cell)
      reads cells
      requires Valid() && Contains(p)
      ensures c == Contents()[p.y][p.x]
    {
      cells[p.y, p.x]
    }

    method Set(p: Position, c: Cell)
      requires Valid() && Contains(p)
      modifies cells
      ensures Contents() == Update(old(Contents()), p, c)
    {
      cells[p.y, p.x] := c;
      UpdateGet(old(Contents()), shape.height, shape.width, p, c);
      MatrixEquality(Contents(), Update(old(Contents()), p, c), shape.height, shape.width);
    }

    /** Exchanges two cells; fails, changing nothing, when either position
        is outside the grid. */
    method Swap(p: Position, q: Position) returns (r: Outcome)
      requires Valid()
      modifies cells
      ensures !(Contains(p) && Contains(q)) ==> r == Fail(OutOfBounds) && Contents() == old(Contents())
      ensures Contains(p) && Contains(q) ==>
                r == Pass && Contents() == SwapCells(old(Contents()), p, q)
    {
      if !Contains(p) || !Contains(q) {
        return Fail(OutOfBounds);
      }
      var atP, atQ := Get(p), Get(q);
      Set(p, atQ);
      UpdateGet(old(Contents()), shape.height, shape.width, p, atQ);
      Set(q, atP);
      r := Pass;
    }

    /** Structural equality: different shapes are unequal; equal shapes
        compare every cell, which for a grid without cells raises (its
        positions cannot be listed). */
    method Equals(other: Grid) returns (r: Result<bool>)
      requires Valid() && other.Valid()
      ensures shape != other.shape ==> r == Ok(false)
      ensures shape == other.shape && !HasCells() ==> r == Err(InvalidRange)
      ensures shape == other.shape && HasCells() ==> r == Ok(Contents() == other.Contents())
    {
      if shape != other.shape {
        return Ok(false);
      }
      if !HasCells() {
        return Err(InvalidRange);
      }
      var y := 0;
      while y < shape.height
        invariant 0 <= y <= shape.height
        invariant forall i, j :: 0 <= i < y && 0 <= j < shape.width ==> cells[i, j] == other.cells[i, j]
      {
        var x := 0;
        while x < shape.width
          invariant 0 <= x <= shape.width
          invariant forall i, j :: 0 <= i < y && 0 <= j < shape.width ==> cells[i, j] == other.cells[i, j]
          invariant forall j :: 0 <= j < x ==> cells[y, j] == other.cells[y, j]
        {
          if cells[y, x] != other.cells[y, x] {
            assert Contents()[y][x] != other.Contents()[y][x];
            return Ok(false);
          }
          x := x + 1;
        }
        y := y + 1;
      }
      MatrixEquality(Contents(), other.Contents(), shape.height, shape.width);
      return Ok(true);
    }

    /** The first position in row-major order holding x; fails when no
        cell holds it (and, as the positions cannot be listed, when the
        grid has no cells). */
    method GetPosition(x: Cell) returns (r: Result<Position>)
      requires Valid()
      ensures !HasCells() ==> r == Err(InvalidRange)
      ensures HasCells() ==> (r.Ok? <==> exists q :: Contains(q) && cells[q.y, q.x] == x)
      ensures HasCells() && r.Err? ==> r.error == NotFound
      ensures r.Ok? ==> Contains(r.value) && cells[r.value.y, r.value.x] == x
      ensures r.Ok? ==> forall q :: Contains(q) && Before(q, r.value) ==> cells[q.y, q.x] != x
    {
      if !HasCells() {
        return Err(InvalidRange);
      }
      var y := 0;
      while y < shape.height
        invariant 0 <= y <= shape.height
        invariant forall i, j :: 0 <= i < y && 0 <= j < shape.width ==> cells[i, j] != x
      {
        var col := 0;
        while col < shape.width
          invariant 0 <= col <= shape.width
          invariant forall i, j :: 0 <= i < y && 0 <= j < shape.width ==> cells[i, j] != x
          invariant forall j :: 0 <= j < col ==> cells[y, j] != x
        {
          if cells[y, col] == x {
            return Ok(Position(y, col));
          }
          col := col + 1;
        }
        y := y + 1;
      }
      return Err(NotFound);
    }

    /** A fresh grid over the given area of this one: same dimensions as
        the area, each cell copied from the position it stands for, or
        Hidden when that position is outside this grid. */
    method Subgrid(a: Area) returns (g: Grid)
      requires Valid()
      ensures fresh(g) && fresh(g.cells) && g.Valid()
      ensures g.shape == Shape(a.Height(), a.Width())
      ensures g.Contents() == Slice(Contents(), shape.height, shape.width, a)
    {
      g := new Grid(a.Height(), a.Width());
      var m := Contents();
      var y := 0;
      while y < a.Height()
        invariant 0 <= y <= a.Height()
        invariant forall i, j :: 0 <= i < y && 0 <= j < a.Width() ==>
                    g.cells[i, j] == SliceCell(m, shape.height, shape.width, a, i, j)
      {
        var x := 0;
        while x < a.Width()
          invariant 0 <= x <= a.Width()
          invariant forall i, j :: 0 <= i < y && 0 <= j < a.Width() ==>
                      g.cells[i, j] == SliceCell(m, shape.height, shape.width, a, i, j)
          invariant forall j :: 0 <= j < x ==>
                      g.cells[y, j] == SliceCell(m, shape.height, shape.width, a, y, j)
        {
          var from := Position(y, x).Add(a.TopLeft());
          g.cells[y, x] := if Contains(from) then cells[from.y, from.x] else Hidden;
          x := x + 1;
        }
        y := y + 1;
      }
      MatrixEquality(g.Contents(), Slice(m, shape.height, shape.width, a), a.Height(), a.Width());
    }

    /** A grid holding the given matrix; fails when the matrix is not
        two-dimensional (no rows, or rows of different lengths) and when
        its rows are empty (the new grid's positions cannot be listed). */
    static method FromObjects(objects: Matrix) returns (r: Result<Grid>)
      ensures !Rectangular(objects) ==> r == Err(ShapeMismatch)
      ensures Rectangular(objects) && |objects[0]| == 0 ==> r == Err(InvalidRange)
      ensures r.Ok? <==> Rectangular(objects) && |objects[0]| > 0
      ensures r.Ok? ==> (fresh(r.value) && fresh(r.value.cells) && r.value.Valid() &&
                         r.value.shape == Shape(|objects|, |objects[0]|) &&
                         r.value.Contents() == objects)
    {
      if !Rectangular(objects) {
        return Err(ShapeMismatch);
      }
      var h, w := |objects|, |objects[0]|;
      var g := new Grid(h, w);
      if w == 0 {
        return Err(InvalidRange);
      }
      var y := 0;
      while y < h
        invariant 0 <= y <= h
        invariant forall i, j :: 0 <= i < y && 0 <= j < w ==> g.cells[i, j] == objects[i][j]
      {
        var x := 0;
        while x < w
          invariant 0 <= x <= w
          invariant forall i, j :: 0 <= i < y && 0 <= j < w ==> g.cells[i, j] == objects[i][j]
          invariant forall j :: 0 <= j < x ==> g.cells[y, j] == objects[y][j]
        {
          g.cells[y, x] := objects[y][x];
          x := x + 1;
        }
        y := y + 1;
      }
      MatrixEquality(g.Contents(), objects, h, w);
      return Ok(g);
    }

    /** A fresh grid as seen by a viewer facing `o`: the array turned by
        QuarterTurns(o) counter-clockwise quarter turns. Fails when the
        grid has no cells, as the turned array cannot be rebuilt: with no
        rows left after the turn it is not a matrix, otherwise its rows
        are empty. */
    method ChangeOrientation(o: Orientation) returns (r: Result<Grid>)
      requires Valid()
      ensures r.Ok? <==> HasCells()
      ensures r.Err? ==> r.error == if (if o == E || o == W then shape.width else shape.height) == 0
                                    then ShapeMismatch else InvalidRange
      ensures r.Ok? ==> (fresh(r.value) && fresh(r.value.cells) && r.value.Valid() &&
                         r.value.Contents() == Rotated(Contents(), shape.height, shape.width, o))
      ensures r.Ok? ==> r.value.shape == if o == E || o == W then Shape(shape.width, shape.height)
                                                            else shape
    {
      var objects := Rotated(Contents(), shape.height, shape.width, o);
      r := FromObjects(objects);
    }
  }

  /** `Grid.subgrid(grid.area)` reproduces the grid. */
  lemma SubgridOfFullArea(g: Grid)
    requires g.Valid() && g.HasCells()
    ensures g.FullArea().Ok?
    ensures Slice(g.Contents(), g.shape.height, g.shape.width, g.FullArea().value) == g.Contents()
  {
    SliceFull(g.Contents(), g.shape.height, g.shape.width);
  }

  // ---------------------------------------------------------------------
  // Agent
  // ---------------------------------------------------------------------

  class Agent {
    var position: Position
    var orientation: Orientation
    var obj: Cell

    /** An agent holding `obj`, or NoneObject when none is given. */
    constructor (position: Position, orientation: Orientation, obj: Option<Cell>)
      ensures this.position == position && this.orientation == orientation
      ensures this.obj == if obj.Some? then obj.value else NoneObject
    {
      this.position := position;
      this.orientation := orientation;
      this.obj := if obj.Some? then obj.value else NoneObject;
    }

    /** The absolute position of an offset in the agent's frame: the
        pose's absolute position. */
    function PositionRelative(d: Position): (r: Position)
      reads this
      ensures r == Pose(position, orientation).AbsolutePosition(d)
    {
      var turned := d.Rotate(orientation);
      Position(position.y + turned.y, position.x + turned.x)
    }

    /** The neighbour the agent faces. */
    function PositionInFront(): (r: Position)
      reads this
      ensures r == position.Add(orientation.AsPosition(1))
    {
      PositionRelative(N.AsPosition(1))
    }

    /** The absolute area of an area in the agent's frame: it contains the
        absolute position of exactly the offsets the relative area holds. */
    function GetPovArea(relative: Area): (r: Area)
      reads this
      ensures r == Pose(position, orientation).AbsoluteArea(relative)
      ensures forall d :: r.Contains(PositionRelative(d)) <==> relative.Contains(d)
    {
      forall d
        ensures relative.Rotate(orientation).Translate(position).Contains(PositionRelative(d)) <==>
                relative.Contains(d)
      {
        PoseConsistency(Pose(position, orientation), relative, d);
      }
      relative.Rotate(orientation).Translate(position)
    }
  }
}
