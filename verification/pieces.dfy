/**
  The piece catalog of the game: the seven tetromino constants, each a 4x4
  occupancy grid with a colour and a declared bounding box, and the rotation
  transform that derives any of four orientations from the canonical grid.
 */
module Pieces {

  /** An unsigned byte: the cell type of a piece grid. */
  type u8 = x: int | 0 <= x < 256

  /** Side of the square grid every piece is stored in. */
  const PieceSide: nat := 4

  datatype BlockColor = Black | Red | Blue | Yellow | Green | Magenta | Cyan | Orange

  /**
    The four orientations. Their names are the program's own labels for the
    index maps in `Dest`; they are not relabelled by visual direction.
   */
  datatype PieceRotation = North | East | West | South

  /** A cell position, as a pair of coordinates. */
  type Cell = (int, int)

  /** A piece grid, indexed `grid[y][x]`. */
  type Grid = seq<seq<u8>>

  predicate IsGrid(g: Grid) {
    |g| == PieceSide && forall y :: 0 <= y < |g| ==> |g[y]| == PieceSide
  }

  /** A piece: its grid, its colour and the declared box `width` x `height`. */
  datatype PieceData = PieceData(data: Grid, color: BlockColor, width: nat, height: nat)

  /**
    What the rotation needs in order to index within the grid: a 4x4 grid and
    a declared box that fits inside it.
   */
  predicate WellFormed(p: PieceData) {
    IsGrid(p.data) && p.width <= PieceSide && p.height <= PieceSide
  }

  predicate InBox(x: int, y: int, width: int, height: int) {
    0 <= x < width && 0 <= y < height
  }

  /** Every cell outside the declared box is 0. */
  predicate ZeroOutsideBox(p: PieceData)
    requires IsGrid(p.data)
  {
    forall y, x :: 0 <= y < PieceSide && 0 <= x < PieceSide && !InBox(x, y, p.width, p.height) ==> p.data[y][x] == 0
  }

  /** The cells holding 1, as `(x, y)` pairs. */
  function Ones(p: PieceData): set<Cell>
    requires IsGrid(p.data)
  {
    set y, x | 0 <= y < PieceSide && 0 <= x < PieceSide && p.data[y][x] == 1 :: (x, y)
  }

  // ---------------------------------------------------------------------------
  // The rotation transform

  /** Width of the box after rotating a `width` x `height` box. */
  function RotatedWidth(rot: PieceRotation, width: nat, height: nat): nat {
    match rot
    case North => width
    case West => height
    case South => width
    case East => height
  }

  /** Height of the box after rotating a `width` x `height` box. */
  function RotatedHeight(rot: PieceRotation, width: nat, height: nat): nat {
    match rot
    case North => height
    case West => width
    case South => height
    case East => width
  }

  /**
    Where the source cell `(x, y)` of a `width` x `height` box is written, as
    `(grid_x, grid_y)`.
   */
  function Dest(rot: PieceRotation, width: nat, height: nat, x: int, y: int): Cell {
    match rot
    case North => (x, y)
    case West => (height - y - 1, x)
    case South => (width - x - 1, height - y - 1)
    case East => (y, width - x - 1)
  }

  /** The source cell that `Dest` sends to `(gx, gy)`: the inverse map. */
  function Src(rot: PieceRotation, width: nat, height: nat, gx: int, gy: int): Cell {
    match rot
    case North => (gx, gy)
    case West => (gy, height - 1 - gx)
    case South => (width - 1 - gx, height - 1 - gy)
    case East => (width - 1 - gy, gx)
  }

  /** `Dest` sends a cell of the declared box into the rotated box, and `Src` brings it back. */
  lemma DestCell(rot: PieceRotation, width: nat, height: nat, x: int, y: int)
    requires InBox(x, y, width, height)
    ensures var d := Dest(rot, width, height, x, y);
            InBox(d.0, d.1, RotatedWidth(rot, width, height), RotatedHeight(rot, width, height))
            && Src(rot, width, height, d.0, d.1) == (x, y)
  {
    match rot
    case North =>
    case East =>
    case South =>
    case West =>
  }

  /** `Src` sends a cell of the rotated box into the declared box, and `Dest` brings it back. */
  lemma SrcCell(rot: PieceRotation, width: nat, height: nat, gx: int, gy: int)
    requires InBox(gx, gy, RotatedWidth(rot, width, height), RotatedHeight(rot, width, height))
    ensures var s := Src(rot, width, height, gx, gy);
            InBox(s.0, s.1, width, height) && Dest(rot, width, height, s.0, s.1) == (gx, gy)
  {
    match rot
    case North =>
    case East =>
    case South =>
    case West =>
  }

  /**
    `Dest` is a bijection from the declared box onto the rotated box, and
    `Src` is its inverse.
   */
  lemma DestBijection(rot: PieceRotation, width: nat, height: nat)
    ensures forall x, y :: InBox(x, y, width, height) ==>
              var d := Dest(rot, width, height, x, y);
              InBox(d.0, d.1, RotatedWidth(rot, width, height), RotatedHeight(rot, width, height))
              && Src(rot, width, height, d.0, d.1) == (x, y)
    ensures forall gx, gy :: InBox(gx, gy, RotatedWidth(rot, width, height), RotatedHeight(rot, width, height)) ==>
              var s := Src(rot, width, height, gx, gy);
              InBox(s.0, s.1, width, height) && Dest(rot, width, height, s.0, s.1) == (gx, gy)
  {
    forall x, y | InBox(x, y, width, height)
      ensures var d := Dest(rot, width, height, x, y);
              InBox(d.0, d.1, RotatedWidth(rot, width, height), RotatedHeight(rot, width, height))
              && Src(rot, width, height, d.0, d.1) == (x, y)
    {
      DestCell(rot, width, height, x, y);
    }
    forall gx, gy | InBox(gx, gy, RotatedWidth(rot, width, height), RotatedHeight(rot, width, height))
      ensures var s := Src(rot, width, height, gx, gy);
              InBox(s.0, s.1, width, height) && Dest(rot, width, height, s.0, s.1) == (gx, gy)
    {
      SrcCell(rot, width, height, gx, gy);
    }
  }

  /**
    The rotated piece as a value: the box is kept or swapped, and each cell of
    the rotated box holds the source cell that the code's index map sends there.
   */
  function Rotated(p: PieceData, rot: PieceRotation): (r: PieceData)
    requires WellFormed(p)
    ensures WellFormed(r)
    ensures r.color == p.color
    ensures rot == North || rot == South ==> r.width == p.width && r.height == p.height
    ensures rot == East || rot == West ==> r.width == p.height && r.height == p.width
  {
    var rw := RotatedWidth(rot, p.width, p.height);
    var rh := RotatedHeight(rot, p.width, p.height);
    var data := seq(PieceSide, gy requires 0 <= gy < PieceSide =>
                  seq(PieceSide, gx requires 0 <= gx < PieceSide =>
                    if InBox(gx, gy, rw, rh) then
                      var s := Src(rot, p.width, p.height, gx, gy);
                      (SrcCell(rot, p.width, p.height, gx, gy); p.data[s.1][s.0])
                    else 0));
    PieceData(data, p.color, rw, rh)
  }

  /** One cell of a rotated piece. */
  lemma RotatedCell(p: PieceData, rot: PieceRotation, gx: int, gy: int)
    requires WellFormed(p) && 0 <= gx < PieceSide && 0 <= gy < PieceSide
    ensures var r := Rotated(p, rot);
            var s := Src(rot, p.width, p.height, gx, gy);
            if InBox(gx, gy, r.width, r.height) then
              InBox(s.0, s.1, p.width, p.height) && r.data[gy][gx] == p.data[s.1][s.0]
            else r.data[gy][gx] == 0
  {
    if InBox(gx, gy, RotatedWidth(rot, p.width, p.height), RotatedHeight(rot, p.width, p.height)) {
      SrcCell(rot, p.width, p.height, gx, gy);
    }
  }

  /**
    The code's copy, cell by cell: each cell of the declared box lands at its
    image under the index map, and every cell outside the rotated box is 0.
   */
  lemma RotatedMovesCells(p: PieceData, rot: PieceRotation)
    requires WellFormed(p)
    ensures ZeroOutsideBox(Rotated(p, rot))
    ensures forall y, x :: InBox(x, y, p.width, p.height) ==>
              var d := Dest(rot, p.width, p.height, x, y);
              0 <= d.1 < PieceSide && 0 <= d.0 < PieceSide && Rotated(p, rot).data[d.1][d.0] == p.data[y][x]
  {
    var r := Rotated(p, rot);
    forall y, x | 0 <= y < PieceSide && 0 <= x < PieceSide && !InBox(x, y, r.width, r.height)
      ensures r.data[y][x] == 0
    {
      RotatedCell(p, rot, x, y);
    }
    forall y, x | InBox(x, y, p.width, p.height)
      ensures var d := Dest(rot, p.width, p.height, x, y);
              0 <= d.1 < PieceSide && 0 <= d.0 < PieceSide && r.data[d.1][d.0] == p.data[y][x]
    {
      DestCell(rot, p.width, p.height, x, y);
      var d := Dest(rot, p.width, p.height, x, y);
      RotatedCell(p, rot, d.0, d.1);
    }
  }

  // ---------------------------------------------------------------------------
  // The code's loop, proved to compute `Rotated`

  /** A fresh all-zero grid. */
  function ZeroGrid(): (g: Grid)
    ensures IsGrid(g)
    ensures forall y, x :: 0 <= y < PieceSide && 0 <= x < PieceSide ==> g[y][x] == 0
  {
    seq(PieceSide, _ => seq(PieceSide, _ => 0))
  }

  /** Whether the source cell `(sx, sy)` has been copied when the loop stands at row `y`, column `x`. */
  predicate Copied(sx: int, sy: int, y: int, x: int) {
    sy < y || (sy == y && sx < x)
  }

  /** The grid the loop of `GetData` has built when it stands at row `y`, column `x`. */
  function PartialRotation(p: PieceData, rot: PieceRotation, y: int, x: int): (g: Grid)
    requires WellFormed(p)
    ensures IsGrid(g)
  {
    var rw := RotatedWidth(rot, p.width, p.height);
    var rh := RotatedHeight(rot, p.width, p.height);
    seq(PieceSide, gy requires 0 <= gy < PieceSide =>
      seq(PieceSide, gx requires 0 <= gx < PieceSide =>
        var s := Src(rot, p.width, p.height, gx, gy);
        if InBox(gx, gy, rw, rh) && Copied(s.0, s.1, y, x) then
          (SrcCell(rot, p.width, p.height, gx, gy); p.data[s.1][s.0])
        else 0))
  }

  /** One cell of the partial grid. */
  lemma PartialRotationCell(p: PieceData, rot: PieceRotation, y: int, x: int, gx: int, gy: int)
    requires WellFormed(p) && 0 <= gx < PieceSide && 0 <= gy < PieceSide
    ensures var s := Src(rot, p.width, p.height, gx, gy);
            if InBox(gx, gy, RotatedWidth(rot, p.width, p.height), RotatedHeight(rot, p.width, p.height)) then
              InBox(s.0, s.1, p.width, p.height)
              && PartialRotation(p, rot, y, x)[gy][gx] == if Copied(s.0, s.1, y, x) then p.data[s.1][s.0] else 0
            else PartialRotation(p, rot, y, x)[gy][gx] == 0
  {
    if InBox(gx, gy, RotatedWidth(rot, p.width, p.height), RotatedHeight(rot, p.width, p.height)) {
      SrcCell(rot, p.width, p.height, gx, gy);
    }
  }

  lemma PartialRotationStart(p: PieceData, rot: PieceRotation)
    requires WellFormed(p)
    ensures PartialRotation(p, rot, 0, 0) == ZeroGrid()
  {
    var g := PartialRotation(p, rot, 0, 0);
    forall gy, gx | 0 <= gy < PieceSide && 0 <= gx < PieceSide
      ensures g[gy][gx] == ZeroGrid()[gy][gx]
    {
      PartialRotationCell(p, rot, 0, 0, gx, gy);
    }
    GridExtensionality(g, ZeroGrid());
  }

  /** One iteration of the inner loop changes only the destination of `(x, y)`, one cell at a time. */
  lemma PartialRotationStepCell(p: PieceData, rot: PieceRotation, y: int, x: int, gx: int, gy: int)
    requires WellFormed(p) && InBox(x, y, p.width, p.height)
    requires 0 <= gx < PieceSide && 0 <= gy < PieceSide
    ensures PartialRotation(p, rot, y, x + 1)[gy][gx]
            == if (gx, gy) == Dest(rot, p.width, p.height, x, y) then p.data[y][x]
               else PartialRotation(p, rot, y, x)[gy][gx]
  {
    DestCell(rot, p.width, p.height, x, y);
    if InBox(gx, gy, RotatedWidth(rot, p.width, p.height), RotatedHeight(rot, p.width, p.height)) {
      SrcCell(rot, p.width, p.height, gx, gy);
    }
    PartialRotationCell(p, rot, y, x, gx, gy);
    PartialRotationCell(p, rot, y, x + 1, gx, gy);
  }

  /** One iteration of the inner loop writes exactly the destination of `(x, y)`. */
  lemma PartialRotationStep(p: PieceData, rot: PieceRotation, y: int, x: int)
    requires WellFormed(p) && InBox(x, y, p.width, p.height)
    ensures var d := Dest(rot, p.width, p.height, x, y);
            var g := PartialRotation(p, rot, y, x);
            0 <= d.1 < PieceSide && 0 <= d.0 < PieceSide
            && PartialRotation(p, rot, y, x + 1) == g[d.1 := g[d.1][d.0 := p.data[y][x]]]
  {
    DestCell(rot, p.width, p.height, x, y);
    var d := Dest(rot, p.width, p.height, x, y);
    var g := PartialRotation(p, rot, y, x);
    var g' := PartialRotation(p, rot, y, x + 1);
    var u := g[d.1 := g[d.1][d.0 := p.data[y][x]]];
    forall gy, gx | 0 <= gy < PieceSide && 0 <= gx < PieceSide
      ensures g'[gy][gx] == u[gy][gx]
    {
      PartialRotationStepCell(p, rot, y, x, gx, gy);
    }
    GridExtensionality(g', u);
  }

  /** Finishing a row is the same as starting the next one. */
  lemma PartialRotationRow(p: PieceData, rot: PieceRotation, y: int)
    requires WellFormed(p)
    ensures PartialRotation(p, rot, y, p.width) == PartialRotation(p, rot, y + 1, 0)
  {
    var g := PartialRotation(p, rot, y, p.width);
    var g' := PartialRotation(p, rot, y + 1, 0);
    forall gy, gx | 0 <= gy < PieceSide && 0 <= gx < PieceSide
      ensures g[gy][gx] == g'[gy][gx]
    {
      PartialRotationCell(p, rot, y, p.width, gx, gy);
      PartialRotationCell(p, rot, y + 1, 0, gx, gy);
    }
    GridExtensionality(g, g');
  }

  lemma PartialRotationEnd(p: PieceData, rot: PieceRotation)
    requires WellFormed(p)
    ensures PartialRotation(p, rot, p.height, 0) == Rotated(p, rot).data
  {
    var g := PartialRotation(p, rot, p.height, 0);
    var r := Rotated(p, rot).data;
    forall gy, gx | 0 <= gy < PieceSide && 0 <= gx < PieceSide
      ensures g[gy][gx] == r[gy][gx]
    {
      PartialRotationCell(p, rot, p.height, 0, gx, gy);
      RotatedCell(p, rot, gx, gy);
    }
    GridExtensionality(g, r);
  }

  /**
    The program's rotation routine: clear a fresh grid, then copy every cell of
    the declared box, row by row, to the cell the orientation's index map names.
   */
  method GetData(p: PieceData, rot: PieceRotation) returns (r: PieceData)
    requires WellFormed(p)
    ensures r == Rotated(p, rot)
  {
    var data := ZeroGrid();
    PartialRotationStart(p, rot);
    var y := 0;
    while y < p.height
      invariant 0 <= y <= p.height
      invariant data == PartialRotation(p, rot, y, 0)
    {
      var x := 0;
      while x < p.width
        invariant 0 <= x <= p.width
        invariant data == PartialRotation(p, rot, y, x)
      {
        PartialRotationStep(p, rot, y, x);
        var d := Dest(rot, p.width, p.height, x, y);
        data := data[d.1 := data[d.1][d.0 := p.data[y][x]]];
        x := x + 1;
      }
      PartialRotationRow(p, rot, y);
      y := y + 1;
    }
    PartialRotationEnd(p, rot);
    r := PieceData(data, p.color, RotatedWidth(rot, p.width, p.height), RotatedHeight(rot, p.width, p.height));
  }

  // ---------------------------------------------------------------------------
  // Round trips

  /** Two grids that agree on every cell are equal. */
  lemma GridExtensionality(a: Grid, b: Grid)
    requires IsGrid(a) && IsGrid(b)
    requires forall y, x :: 0 <= y < PieceSide && 0 <= x < PieceSide ==> a[y][x] == b[y][x]
    ensures a == b
  {
    forall y | 0 <= y < PieceSide
      ensures a[y] == b[y]
    {
    }
  }

  /** NORTH leaves a piece that is zero outside its box as it is. */
  lemma {:induction false} NorthIsIdentity(p: PieceData)
    requires WellFormed(p) && ZeroOutsideBox(p)
    ensures Rotated(p, North) == p
  {
    var r := Rotated(p, North);
    forall y, x | 0 <= y < PieceSide && 0 <= x < PieceSide
      ensures r.data[y][x] == p.data[y][x]
    {
      RotatedCell(p, North, x, y);
    }
    GridExtensionality(r.data, p.data);
  }

  /** The WEST map applied to an EAST-rotated piece gives back the piece and its box. */
  lemma {:induction false} WestUndoesEast(p: PieceData)
    requires WellFormed(p) && ZeroOutsideBox(p)
    ensures Rotated(Rotated(p, East), West) == p
  {
    var q := Rotated(p, East);
    var r := Rotated(q, West);
    forall y, x | 0 <= y < PieceSide && 0 <= x < PieceSide
      ensures r.data[y][x] == p.data[y][x]
    {
      RotatedCell(q, West, x, y);
      var s := Src(West, q.width, q.height, x, y);
      if InBox(x, y, r.width, r.height) {
        RotatedCell(p, East, s.0, s.1);
      }
    }
    GridExtensionality(r.data, p.data);
  }

  /** The EAST map applied to a WEST-rotated piece gives back the piece and its box. */
  lemma {:induction false} EastUndoesWest(p: PieceData)
    requires WellFormed(p) && ZeroOutsideBox(p)
    ensures Rotated(Rotated(p, West), East) == p
  {
    var q := Rotated(p, West);
    var r := Rotated(q, East);
    forall y, x | 0 <= y < PieceSide && 0 <= x < PieceSide
      ensures r.data[y][x] == p.data[y][x]
    {
      RotatedCell(q, East, x, y);
      var s := Src(East, q.width, q.height, x, y);
      if InBox(x, y, r.width, r.height) {
        RotatedCell(p, West, s.0, s.1);
      }
    }
    GridExtensionality(r.data, p.data);
  }

  /** SOUTH applied twice is the identity. */
  lemma {:induction false} SouthTwiceIsIdentity(p: PieceData)
    requires WellFormed(p) && ZeroOutsideBox(p)
    ensures Rotated(Rotated(p, South), South) == p
  {
    var q := Rotated(p, South);
    var r := Rotated(q, South);
    forall y, x | 0 <= y < PieceSide && 0 <= x < PieceSide
      ensures r.data[y][x] == p.data[y][x]
    {
      RotatedCell(q, South, x, y);
      var s := Src(South, q.width, q.height, x, y);
      if InBox(x, y, r.width, r.height) {
        RotatedCell(p, South, s.0, s.1);
      }
    }
    GridExtensionality(r.data, p.data);
  }

  /** EAST applied twice is SOUTH. */
  lemma {:induction false} EastTwiceIsSouth(p: PieceData)
    requires WellFormed(p)
    ensures Rotated(Rotated(p, East), East) == Rotated(p, South)
  {
    var q := Rotated(p, East);
    var r := Rotated(q, East);
    var t := Rotated(p, South);
    forall y, x | 0 <= y < PieceSide && 0 <= x < PieceSide
      ensures r.data[y][x] == t.data[y][x]
    {
      RotatedCell(q, East, x, y);
      RotatedCell(p, South, x, y);
      var s := Src(East, q.width, q.height, x, y);
      if InBox(x, y, r.width, r.height) {
        RotatedCell(p, East, s.0, s.1);
      }
    }
    GridExtensionality(r.data, t.data);
  }

  /** WEST applied twice is SOUTH. */
  lemma {:induction false} WestTwiceIsSouth(p: PieceData)
    requires WellFormed(p)
    ensures Rotated(Rotated(p, West), West) == Rotated(p, South)
  {
    var q := Rotated(p, West);
    var r := Rotated(q, West);
    var t := Rotated(p, South);
    forall y, x | 0 <= y < PieceSide && 0 <= x < PieceSide
      ensures r.data[y][x] == t.data[y][x]
    {
      RotatedCell(q, West, x, y);
      RotatedCell(p, South, x, y);
      var s := Src(West, q.width, q.height, x, y);
      if InBox(x, y, r.width, r.height) {
        RotatedCell(p, West, s.0, s.1);
      }
    }
    GridExtensionality(r.data, t.data);
  }

  /** SOUTH followed by the EAST map is WEST. */
  lemma {:induction false} SouthThenEastIsWest(p: PieceData)
    requires WellFormed(p)
    ensures Rotated(Rotated(p, South), East) == Rotated(p, West)
  {
    var q := Rotated(p, South);
    var r := Rotated(q, East);
    var t := Rotated(p, West);
    forall y, x | 0 <= y < PieceSide && 0 <= x < PieceSide
      ensures r.data[y][x] == t.data[y][x]
    {
      RotatedCell(q, East, x, y);
      RotatedCell(p, West, x, y);
      var s := Src(East, q.width, q.height, x, y);
      if InBox(x, y, r.width, r.height) {
        RotatedCell(p, South, s.0, s.1);
      }
    }
    GridExtensionality(r.data, t.data);
  }

  /** SOUTH followed by the WEST map is EAST. */
  lemma {:induction false} SouthThenWestIsEast(p: PieceData)
    requires WellFormed(p)
    ensures Rotated(Rotated(p, South), West) == Rotated(p, East)
  {
    var q := Rotated(p, South);
    var r := Rotated(q, West);
    var t := Rotated(p, East);
    forall y, x | 0 <= y < PieceSide && 0 <= x < PieceSide
      ensures r.data[y][x] == t.data[y][x]
    {
      RotatedCell(q, West, x, y);
      RotatedCell(p, East, x, y);
      var s := Src(West, q.width, q.height, x, y);
      if InBox(x, y, r.width, r.height) {
        RotatedCell(p, South, s.0, s.1);
      }
    }
    GridExtensionality(r.data, t.data);
  }

  /** Four quarter turns in the same direction close the cycle. */
  lemma {:induction false} FourTurnsAreIdentity(p: PieceData)
    requires WellFormed(p) && ZeroOutsideBox(p)
    ensures Rotated(Rotated(Rotated(Rotated(p, East), East), East), East) == p
    ensures Rotated(Rotated(Rotated(Rotated(p, West), West), West), West) == p
  {
    EastTwiceIsSouth(p);
    EastTwiceIsSouth(Rotated(p, South));
    SouthTwiceIsIdentity(p);
    WestTwiceIsSouth(p);
    WestTwiceIsSouth(Rotated(p, South));
  }

  // ---------------------------------------------------------------------------
  // The number of occupied cells

  /** An injective map keeps the size of a finite set. */
  lemma {:induction false} InjectiveImageSize(s: set<Cell>, f: Cell -> Cell)
    requires forall a, b :: a in s && b in s && f(a) == f(b) ==> a == b
    ensures |set a | a in s :: f(a)| == |s|
    decreases |s|
  {
    if s != {} {
      var a :| a in s;
      var s' := s - {a};
      InjectiveImageSize(s', f);
      assert (set b | b in s :: f(b)) == (set b | b in s' :: f(b)) + {f(a)};
    }
  }

  /** The images under `Dest` of a set of cells. */
  function DestImage(rot: PieceRotation, width: nat, height: nat, cells: set<Cell>): set<Cell> {
    set c | c in cells :: Dest(rot, width, height, c.0, c.1)
  }

  /** The 1-cells of a rotated piece are the images of the piece's 1-cells. */
  lemma RotatedOnesAreImage(p: PieceData, rot: PieceRotation)
    requires WellFormed(p) && ZeroOutsideBox(p)
    ensures Ones(Rotated(p, rot)) == DestImage(rot, p.width, p.height, Ones(p))
  {
    var r := Rotated(p, rot);
    var image := DestImage(rot, p.width, p.height, Ones(p));
    forall c | c in Ones(r)
      ensures c in image
    {
      RotatedCell(p, rot, c.0, c.1);
      var s := Src(rot, p.width, p.height, c.0, c.1);
      SrcCell(rot, p.width, p.height, c.0, c.1);
      assert s in Ones(p);
    }
    forall c | c in image
      ensures c in Ones(r)
    {
      var s :| s in Ones(p) && c == Dest(rot, p.width, p.height, s.0, s.1);
      assert InBox(s.0, s.1, p.width, p.height);
      DestCell(rot, p.width, p.height, s.0, s.1);
      RotatedCell(p, rot, c.0, c.1);
    }
  }

  /** The 1-cells of a piece that is zero outside its box lie in the box. */
  lemma OnesInBox(p: PieceData)
    requires IsGrid(p.data) && ZeroOutsideBox(p)
    ensures forall c :: c in Ones(p) ==> InBox(c.0, c.1, p.width, p.height)
  {
  }

  /**
    For a piece that is zero outside its box, rotation sends the 1-cells to
    distinct 1-cells and makes no others, so their number is kept.
   */
  lemma RotationPermutesOnes(p: PieceData, rot: PieceRotation)
    requires WellFormed(p) && ZeroOutsideBox(p)
    ensures Ones(Rotated(p, rot)) == DestImage(rot, p.width, p.height, Ones(p))
    ensures |Ones(Rotated(p, rot))| == |Ones(p)|
  {
    RotatedOnesAreImage(p, rot);
    OnesInBox(p);
    DestImageSize(rot, p.width, p.height, Ones(p));
  }

  /** `Dest` is one-to-one on the declared box, so it keeps the size of a set of box cells. */
  lemma DestImageSize(rot: PieceRotation, width: nat, height: nat, cells: set<Cell>)
    requires forall c :: c in cells ==> InBox(c.0, c.1, width, height)
    ensures |DestImage(rot, width, height, cells)| == |cells|
  {
    var f := (c: Cell) => Dest(rot, width, height, c.0, c.1);
    forall a, b | a in cells && b in cells && f(a) == f(b)
      ensures a == b
    {
      DestCell(rot, width, height, a.0, a.1);
      DestCell(rot, width, height, b.0, b.1);
    }
    assert DestImage(rot, width, height, cells) == set c | c in cells :: f(c);
    InjectiveImageSize(cells, f);
  }

  // ---------------------------------------------------------------------------
  // The catalog

  const IPiece: PieceData := PieceData([[0, 0, 0, 0], [1, 1, 1, 1], [0, 0, 0, 0], [0, 0, 0, 0]], Red, 4, 3)
  const LPiece: PieceData := PieceData([[0, 0, 1, 0], [1, 1, 1, 0], [0, 0, 0, 0], [0, 0, 0, 0]], Yellow, 3, 2)
  const JPiece: PieceData := PieceData([[1, 0, 0, 0], [1, 1, 1, 0], [0, 0, 0, 0], [0, 0, 0, 0]], Orange, 3, 2)
  const OPiece: PieceData := PieceData([[1, 1, 0, 0], [1, 1, 0, 0], [0, 0, 0, 0], [0, 0, 0, 0]], Cyan, 2, 2)
  const SPiece: PieceData := PieceData([[0, 1, 1, 0], [1, 1, 0, 0], [0, 0, 0, 0], [0, 0, 0, 0]], Green, 3, 2)
  const ZPiece: PieceData := PieceData([[1, 1, 0, 0], [0, 1, 1, 0], [0, 0, 0, 0], [0, 0, 0, 0]], Magenta, 3, 2)
  const TPiece: PieceData := PieceData([[0, 1, 0, 0], [1, 1, 1, 0], [0, 0, 0, 0], [0, 0, 0, 0]], Blue, 3, 2)

  const NumTetrisPieces: nat := 7

  /** The catalog, in the fixed order that the spawn index selects from. */
  const TetrisPieces: seq<PieceData> := [IPiece, LPiece, JPiece, OPiece, SPiece, ZPiece, TPiece]

  /** What every catalog entry satisfies: a tetromino of four cells inside its box, in a real colour. */
  predicate ValidCatalogEntry(p: PieceData) {
    && WellFormed(p)
    && ZeroOutsideBox(p)
    && |Ones(p)| == 4
    && p.color != Black
  }

  /** The 1-cells of a grid, read row by row from cell `i` (`i` = 4 * y + x) onwards. */
  function OnesFrom(g: Grid, i: nat): (cells: set<Cell>)
    requires IsGrid(g) && i <= PieceSide * PieceSide
    ensures forall c :: c in cells <==>
              0 <= c.1 < PieceSide && 0 <= c.0 < PieceSide && i <= PieceSide * c.1 + c.0 && g[c.1][c.0] == 1
    decreases PieceSide * PieceSide - i
  {
    if i == PieceSide * PieceSide then {}
    else
      var y, x := i / PieceSide, i % PieceSide;
      (if g[y][x] == 1 then {(x, y)} else {}) + OnesFrom(g, i + 1)
  }

  lemma OnesByScan(p: PieceData)
    requires IsGrid(p.data)
    ensures Ones(p) == OnesFrom(p.data, 0)
  {
  }

  lemma IPieceCells()
    ensures Ones(IPiece) == {(0, 1), (1, 1), (2, 1), (3, 1)}
  {
    OnesByScan(IPiece);
  }

  lemma IPieceValid()
    ensures ValidCatalogEntry(IPiece)
  {
    IPieceCells();
    assert ZeroOutsideBox(IPiece);
    assert |{(0, 1), (1, 1), (2, 1), (3, 1)}| == 4;
  }

  lemma LPieceCells()
    ensures Ones(LPiece) == {(2, 0), (0, 1), (1, 1), (2, 1)}
  {
    OnesByScan(LPiece);
  }

  lemma LPieceValid()
    ensures ValidCatalogEntry(LPiece)
  {
    LPieceCells();
    assert ZeroOutsideBox(LPiece);
    assert |{(2, 0), (0, 1), (1, 1), (2, 1)}| == 4;
  }

  lemma JPieceCells()
    ensures Ones(JPiece) == {(0, 0), (0, 1), (1, 1), (2, 1)}
  {
    OnesByScan(JPiece);
  }

  lemma JPieceValid()
    ensures ValidCatalogEntry(JPiece)
  {
    JPieceCells();
    assert ZeroOutsideBox(JPiece);
    assert |{(0, 0), (0, 1), (1, 1), (2, 1)}| == 4;
  }

  lemma OPieceCells()
    ensures Ones(OPiece) == {(0, 0), (1, 0), (0, 1), (1, 1)}
  {
    OnesByScan(OPiece);
  }

  lemma OPieceValid()
    ensures ValidCatalogEntry(OPiece)
  {
    OPieceCells();
    assert ZeroOutsideBox(OPiece);
    assert |{(0, 0), (1, 0), (0, 1), (1, 1)}| == 4;
  }

  lemma SPieceCells()
    ensures Ones(SPiece) == {(1, 0), (2, 0), (0, 1), (1, 1)}
  {
    OnesByScan(SPiece);
  }

  lemma SPieceValid()
    ensures ValidCatalogEntry(SPiece)
  {
    SPieceCells();
    assert ZeroOutsideBox(SPiece);
    assert |{(1, 0), (2, 0), (0, 1), (1, 1)}| == 4;
  }

  lemma ZPieceCells()
    ensures Ones(ZPiece) == {(0, 0), (1, 0), (1, 1), (2, 1)}
  {
    OnesByScan(ZPiece);
  }

  lemma ZPieceValid()
    ensures ValidCatalogEntry(ZPiece)
  {
    ZPieceCells();
    assert ZeroOutsideBox(ZPiece);
    assert |{(0, 0), (1, 0), (1, 1), (2, 1)}| == 4;
  }

  lemma TPieceCells()
    ensures Ones(TPiece) == {(1, 0), (0, 1), (1, 1), (2, 1)}
  {
    OnesByScan(TPiece);
  }

  lemma TPieceValid()
    ensures ValidCatalogEntry(TPiece)
  {
    TPieceCells();
    assert ZeroOutsideBox(TPiece);
    assert |{(1, 0), (0, 1), (1, 1), (2, 1)}| == 4;
  }

  /**
    The catalog holds seven entries, each a valid tetromino, and no two share
    a colour.
   */
  lemma {:induction false} CatalogInvariant()
    ensures |TetrisPieces| == NumTetrisPieces
    ensures forall k :: 0 <= k < |TetrisPieces| ==> ValidCatalogEntry(TetrisPieces[k])
    ensures forall i, j :: 0 <= i < j < |TetrisPieces| ==> TetrisPieces[i].color != TetrisPieces[j].color
  {
    forall k | 0 <= k < |TetrisPieces|
      ensures ValidCatalogEntry(TetrisPieces[k])
    {
      if k == 0 { IPieceValid(); }
      else if k == 1 { LPieceValid(); }
      else if k == 2 { JPieceValid(); }
      else if k == 3 { OPieceValid(); }
      else if k == 4 { SPieceValid(); }
      else if k == 5 { ZPieceValid(); }
      else { TPieceValid(); }
    }
  }
}
