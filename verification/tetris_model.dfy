/**
  The game state: the settled playfield, the falling piece with its position
  and orientation, the control operations the player drives, and the composite
  view that stamps the falling piece onto a copy of the settled field.
 */
module TetrisModel {
  import opened Pieces

  const FieldWidth: nat := 10
  const FieldHeight: nat := 20

  /** Where a new piece appears: column 5, row 3. */
  const SpawnX: nat := 5
  const SpawnY: nat := 3

  /** The settled cells, indexed `data[row][column]`. */
  datatype Playfield = Playfield(data: seq<seq<BlockColor>>) {

    /** The field is `FieldHeight` rows of `FieldWidth` cells. */
    predicate Valid() {
      |data| == FieldHeight && forall y :: 0 <= y < |data| ==> |data[y]| == FieldWidth
    }

    /** Number of columns: the length of every row. */
    function Width(): (w: nat)
      requires Valid()
      ensures forall y :: 0 <= y < |data| ==> |data[y]| == w
    {
      FieldWidth
    }

    /** Number of rows. */
    function Height(): (h: nat)
      requires Valid()
      ensures h == |data|
    {
      FieldHeight
    }
  }

  /** A field of `FieldHeight` x `FieldWidth` cells, all `Black`. */
  function EmptyField(): (f: Playfield)
    ensures f.Valid()
    ensures forall y, x :: 0 <= y < FieldHeight && 0 <= x < FieldWidth ==> f.data[y][x] == Black
  {
    Playfield(seq(FieldHeight, _ => seq(FieldWidth, _ => Black)))
  }

  /** The falling piece: the canonical catalog entry, its top-left corner and its orientation. */
  datatype CurrentPiece = CurrentPiece(piece: PieceData, x: nat, y: nat, rotation: PieceRotation)

  datatype TetrisState = TetrisState(level: u8, field: Playfield, current: CurrentPiece)

  // ---------------------------------------------------------------------------
  // The orientation cycle

  function Clockwise(rot: PieceRotation): PieceRotation {
    match rot
    case North => East
    case East => South
    case South => West
    case West => North
  }

  function CounterClockwise(rot: PieceRotation): PieceRotation {
    match rot
    case North => West
    case West => South
    case South => East
    case East => North
  }

  // ---------------------------------------------------------------------------
  // Control operations

  /** Turns the falling piece one step along NORTH, EAST, SOUTH, WEST; nothing else changes. */
  function RotateCw(s: TetrisState): (r: TetrisState)
    ensures r.current.rotation != s.current.rotation
    ensures CounterClockwise(r.current.rotation) == s.current.rotation
    ensures r == s.(current := s.current.(rotation := r.current.rotation))
  {
    s.(current := s.current.(rotation := Clockwise(s.current.rotation)))
  }

  /** Turns the falling piece one step along NORTH, WEST, SOUTH, EAST; nothing else changes. */
  function RotateCcw(s: TetrisState): (r: TetrisState)
    ensures r.current.rotation != s.current.rotation
    ensures Clockwise(r.current.rotation) == s.current.rotation
    ensures r == s.(current := s.current.(rotation := r.current.rotation))
  {
    s.(current := s.current.(rotation := CounterClockwise(s.current.rotation)))
  }

  /** One column to the left. The column is unsigned, so column 0 has no left neighbour. */
  function MoveLeft(s: TetrisState): (r: TetrisState)
    requires s.current.x >= 1
    ensures r.current.x + 1 == s.current.x
    ensures r == s.(current := s.current.(x := r.current.x))
  {
    s.(current := s.current.(x := s.current.x - 1))
  }

  /** One column to the right. */
  function MoveRight(s: TetrisState): (r: TetrisState)
    ensures r.current.x == s.current.x + 1
    ensures r == s.(current := s.current.(x := r.current.x))
  {
    s.(current := s.current.(x := s.current.x + 1))
  }

  /** One row down: a single-step soft drop with no landing check. */
  function Drop(s: TetrisState): (r: TetrisState)
    ensures r.current.y == s.current.y + 1
    ensures r == s.(current := s.current.(y := r.current.y))
  {
    s.(current := s.current.(y := s.current.y + 1))
  }

  /** The level the game was created with; nothing changes it afterwards. */
  function GetLevel(s: TetrisState): u8 {
    s.level
  }

  /**
    A new game: an empty field and catalog entry `rand % 7` at the spawn
    point, facing NORTH. `rand` stands for the random byte the program draws.
   */
  function CreateTetrisGame(level: u8, rand: u8): (s: TetrisState)
    ensures s.field.Valid()
    ensures forall y, x :: 0 <= y < FieldHeight && 0 <= x < FieldWidth ==> s.field.data[y][x] == Black
    ensures exists k :: 0 <= k < |TetrisPieces| && s.current.piece == TetrisPieces[k]
    ensures ValidCatalogEntry(s.current.piece)
    ensures s.current.x == SpawnX && s.current.y == SpawnY && s.current.rotation == North
    ensures GetLevel(s) == level
  {
    CatalogInvariant();
    var k := rand % NumTetrisPieces;
    TetrisState(level, EmptyField(), CurrentPiece(TetrisPieces[k], SpawnX, SpawnY, North))
  }

  /** Every catalog entry can be the first piece: byte `k` selects entry `k`. */
  lemma SpawnCoversCatalog(level: u8)
    ensures forall k :: 0 <= k < NumTetrisPieces ==> CreateTetrisGame(level, k).current.piece == TetrisPieces[k]
  {
    forall k | 0 <= k < NumTetrisPieces
      ensures CreateTetrisGame(level, k).current.piece == TetrisPieces[k]
    {
      SpawnIndex(level, k);
      assert k % NumTetrisPieces == k;
    }
  }

  /** The spawned piece is the catalog entry the byte selects. */
  lemma SpawnIndex(level: u8, rand: u8)
    ensures CreateTetrisGame(level, rand).current.piece == TetrisPieces[rand % NumTetrisPieces]
  {
  }

  // ---------------------------------------------------------------------------
  // The composite view

  /** The field cells the falling piece covers, as `(column, row)` pairs. */
  function Footprint(cur: CurrentPiece): set<Cell>
    requires WellFormed(cur.piece)
  {
    Shifted(Rotated(cur.piece, cur.rotation), cur.x, cur.y)
  }

  /** Every covered cell lies inside the field: what stamping the piece needs. */
  predicate Fits(cur: CurrentPiece)
    requires WellFormed(cur.piece)
  {
    forall c :: c in Footprint(cur) ==> 0 <= c.0 < FieldWidth && 0 <= c.1 < FieldHeight
  }

  /**
    A copy of `field` with `cur` stamped on it: a cell whose offset from the
    piece's corner lies in the rotated box and holds 1 there takes the piece's
    colour.
   */
  function Overlay(field: Playfield, cur: CurrentPiece): (f: Playfield)
    requires field.Valid() && WellFormed(cur.piece) && Fits(cur)
    ensures f.Valid()
  {
    var r := Rotated(cur.piece, cur.rotation);
    Playfield(seq(FieldHeight, y requires 0 <= y < FieldHeight =>
      seq(FieldWidth, x requires 0 <= x < FieldWidth =>
        if Stamped(r, x - cur.x, y - cur.y) then cur.piece.color else field.data[y][x])))
  }

  /** One cell of the overlay: the piece's colour where covered, the field's own cell elsewhere. */
  lemma OverlayCell(field: Playfield, cur: CurrentPiece, x: int, y: int)
    requires field.Valid() && WellFormed(cur.piece) && Fits(cur)
    requires 0 <= y < FieldHeight && 0 <= x < FieldWidth
    ensures Overlay(field, cur).data[y][x] == if (x, y) in Footprint(cur) then cur.piece.color else field.data[y][x]
  {
    FootprintCell(cur, x, y);
  }

  /** The overlay colours exactly the covered cells and copies every other cell. */
  lemma OverlayCells(field: Playfield, cur: CurrentPiece)
    requires field.Valid() && WellFormed(cur.piece) && Fits(cur)
    ensures forall c :: c in Footprint(cur) ==> Overlay(field, cur).data[c.1][c.0] == cur.piece.color
    ensures forall y, x :: 0 <= y < FieldHeight && 0 <= x < FieldWidth && (x, y) !in Footprint(cur) ==>
              Overlay(field, cur).data[y][x] == field.data[y][x]
  {
    forall c | c in Footprint(cur)
      ensures Overlay(field, cur).data[c.1][c.0] == cur.piece.color
    {
      OverlayCell(field, cur, c.0, c.1);
    }
    forall y, x | 0 <= y < FieldHeight && 0 <= x < FieldWidth && (x, y) !in Footprint(cur)
      ensures Overlay(field, cur).data[y][x] == field.data[y][x]
    {
      OverlayCell(field, cur, x, y);
    }
  }

  /** Whether the piece-relative cell `(cx, cy)` lies in the rotated box and holds 1. */
  predicate Stamped(r: PieceData, cx: int, cy: int)
    requires IsGrid(r.data) && r.width <= PieceSide && r.height <= PieceSide
  {
    InBox(cx, cy, r.width, r.height) && r.data[cy][cx] == 1
  }

  /** The 1-cells of `r` moved by `(ox, oy)`. */
  function Shifted(r: PieceData, ox: int, oy: int): set<Cell>
    requires IsGrid(r.data)
  {
    set c | c in Ones(r) :: (ox + c.0, oy + c.1)
  }

  /** A cell is in a shifted piece exactly when its offset is stamped. */
  lemma ShiftedCell(r: PieceData, ox: int, oy: int, x: int, y: int)
    requires WellFormed(r) && ZeroOutsideBox(r)
    ensures (x, y) in Shifted(r, ox, oy) <==> Stamped(r, x - ox, y - oy)
  {
    if Stamped(r, x - ox, y - oy) {
      assert (x - ox, y - oy) in Ones(r);
    }
    if (x, y) in Shifted(r, ox, oy) {
      var c :| c in Ones(r) && (x, y) == (ox + c.0, oy + c.1);
      assert c == (x - ox, y - oy);
    }
  }

  /** A field cell is covered exactly when its offset from the piece's corner is stamped. */
  lemma FootprintCell(cur: CurrentPiece, x: int, y: int)
    requires WellFormed(cur.piece)
    ensures (x, y) in Footprint(cur) <==> Stamped(Rotated(cur.piece, cur.rotation), x - cur.x, y - cur.y)
  {
    ShiftedCell(Rotated(cur.piece, cur.rotation), cur.x, cur.y, x, y);
  }

  /** The view the front end draws: the settled field with the falling piece on top. */
  function GetField(s: TetrisState): (f: Playfield)
    requires s.field.Valid() && WellFormed(s.current.piece) && Fits(s.current)
    ensures f.Valid()
    ensures forall c :: c in Footprint(s.current) ==> f.data[c.1][c.0] == s.current.piece.color
    ensures forall y, x :: 0 <= y < FieldHeight && 0 <= x < FieldWidth && (x, y) !in Footprint(s.current) ==>
              f.data[y][x] == s.field.data[y][x]
  {
    OverlayCells(s.field, s.current);
    Overlay(s.field, s.current)
  }

  // ---------------------------------------------------------------------------
  // The code's stamping loop, proved to compute `Overlay`

  /** Two valid fields that agree on every cell are equal. */
  lemma FieldExtensionality(a: Playfield, b: Playfield)
    requires a.Valid() && b.Valid()
    requires forall y, x :: 0 <= y < FieldHeight && 0 <= x < FieldWidth ==> a.data[y][x] == b.data[y][x]
    ensures a == b
  {
    forall y | 0 <= y < FieldHeight
      ensures a.data[y] == b.data[y]
    {
    }
  }

  /** The field the loop of `Draw` has built when it stands at row `y`, column `x` of the rotated box. */
  function PartialOverlay(field: Playfield, cur: CurrentPiece, y: int, x: int): (f: Playfield)
    requires field.Valid() && WellFormed(cur.piece)
    ensures f.Valid()
  {
    var r := Rotated(cur.piece, cur.rotation);
    Playfield(seq(FieldHeight, row requires 0 <= row < FieldHeight =>
      seq(FieldWidth, col requires 0 <= col < FieldWidth =>
        var cx, cy := col - cur.x, row - cur.y;
        if Stamped(r, cx, cy) && Copied(cx, cy, y, x) then cur.piece.color else field.data[row][col])))
  }

  lemma PartialOverlayCell(field: Playfield, cur: CurrentPiece, y: int, x: int, row: int, col: int)
    requires field.Valid() && WellFormed(cur.piece)
    requires 0 <= row < FieldHeight && 0 <= col < FieldWidth
    ensures var r := Rotated(cur.piece, cur.rotation);
            var cx, cy := col - cur.x, row - cur.y;
            PartialOverlay(field, cur, y, x).data[row][col]
            == if Stamped(r, cx, cy) && Copied(cx, cy, y, x) then cur.piece.color else field.data[row][col]
  {
  }

  lemma PartialOverlayStart(field: Playfield, cur: CurrentPiece)
    requires field.Valid() && WellFormed(cur.piece)
    ensures PartialOverlay(field, cur, 0, 0) == field
  {
    var f := PartialOverlay(field, cur, 0, 0);
    forall row, col | 0 <= row < FieldHeight && 0 <= col < FieldWidth
      ensures f.data[row][col] == field.data[row][col]
    {
      PartialOverlayCell(field, cur, 0, 0, row, col);
    }
    FieldExtensionality(f, field);
  }

  /** One iteration of the inner loop, one field cell at a time. */
  lemma PartialOverlayStepCell(field: Playfield, cur: CurrentPiece, y: int, x: int, row: int, col: int)
    requires field.Valid() && WellFormed(cur.piece)
    requires var r := Rotated(cur.piece, cur.rotation); InBox(x, y, r.width, r.height)
    requires 0 <= row < FieldHeight && 0 <= col < FieldWidth
    ensures var r := Rotated(cur.piece, cur.rotation);
            PartialOverlay(field, cur, y, x + 1).data[row][col]
            == if (col, row) == (x + cur.x, y + cur.y) && r.data[y][x] == 1 then cur.piece.color
               else PartialOverlay(field, cur, y, x).data[row][col]
  {
    PartialOverlayCell(field, cur, y, x, row, col);
    PartialOverlayCell(field, cur, y, x + 1, row, col);
  }

  /** One iteration of the inner loop: the cell `(x, y)` of the rotated box is stamped if it holds 1. */
  lemma PartialOverlayStep(field: Playfield, cur: CurrentPiece, y: int, x: int)
    requires field.Valid() && WellFormed(cur.piece) && Fits(cur)
    requires var r := Rotated(cur.piece, cur.rotation); InBox(x, y, r.width, r.height)
    ensures var r := Rotated(cur.piece, cur.rotation);
            var f := PartialOverlay(field, cur, y, x);
            var row, col := y + cur.y, x + cur.x;
            if r.data[y][x] == 1 then
              0 <= row < FieldHeight && 0 <= col < FieldWidth
              && PartialOverlay(field, cur, y, x + 1) == Playfield(f.data[row := f.data[row][col := cur.piece.color]])
            else PartialOverlay(field, cur, y, x + 1) == f
  {
    if Rotated(cur.piece, cur.rotation).data[y][x] == 1 {
      PartialOverlayPaint(field, cur, y, x);
    } else {
      PartialOverlaySkip(field, cur, y, x);
    }
  }

  /** A 1-cell of the rotated box paints its field cell, which lies in the field. */
  lemma PartialOverlayPaint(field: Playfield, cur: CurrentPiece, y: int, x: int)
    requires field.Valid() && WellFormed(cur.piece) && Fits(cur)
    requires var r := Rotated(cur.piece, cur.rotation); InBox(x, y, r.width, r.height) && r.data[y][x] == 1
    ensures var f := PartialOverlay(field, cur, y, x);
            var row, col := y + cur.y, x + cur.x;
            0 <= row < FieldHeight && 0 <= col < FieldWidth
            && PartialOverlay(field, cur, y, x + 1) == Playfield(f.data[row := f.data[row][col := cur.piece.color]])
  {
    var f := PartialOverlay(field, cur, y, x);
    var f' := PartialOverlay(field, cur, y, x + 1);
    var row, col := y + cur.y, x + cur.x;
    FootprintCell(cur, col, row);
    assert 0 <= row < FieldHeight && 0 <= col < FieldWidth;
    var u := Playfield(f.data[row := f.data[row][col := cur.piece.color]]);
    forall row', col' | 0 <= row' < FieldHeight && 0 <= col' < FieldWidth
      ensures f'.data[row'][col'] == u.data[row'][col']
    {
      PartialOverlayStepCell(field, cur, y, x, row', col');
    }
    FieldExtensionality(f', u);
  }

  /** A 0-cell of the rotated box leaves the field as it is. */
  lemma PartialOverlaySkip(field: Playfield, cur: CurrentPiece, y: int, x: int)
    requires field.Valid() && WellFormed(cur.piece)
    requires var r := Rotated(cur.piece, cur.rotation); InBox(x, y, r.width, r.height) && r.data[y][x] != 1
    ensures PartialOverlay(field, cur, y, x + 1) == PartialOverlay(field, cur, y, x)
  {
    var f := PartialOverlay(field, cur, y, x);
    var f' := PartialOverlay(field, cur, y, x + 1);
    forall row', col' | 0 <= row' < FieldHeight && 0 <= col' < FieldWidth
      ensures f'.data[row'][col'] == f.data[row'][col']
    {
      PartialOverlayStepCell(field, cur, y, x, row', col');
    }
    FieldExtensionality(f', f);
  }

  /** Finishing a row of the rotated box is the same as starting the next one. */
  lemma PartialOverlayRow(field: Playfield, cur: CurrentPiece, y: int)
    requires field.Valid() && WellFormed(cur.piece)
    ensures PartialOverlay(field, cur, y, Rotated(cur.piece, cur.rotation).width) == PartialOverlay(field, cur, y + 1, 0)
  {
    var f := PartialOverlay(field, cur, y, Rotated(cur.piece, cur.rotation).width);
    var f' := PartialOverlay(field, cur, y + 1, 0);
    forall row, col | 0 <= row < FieldHeight && 0 <= col < FieldWidth
      ensures f.data[row][col] == f'.data[row][col]
    {
      PartialOverlayCell(field, cur, y, Rotated(cur.piece, cur.rotation).width, row, col);
      PartialOverlayCell(field, cur, y + 1, 0, row, col);
    }
    FieldExtensionality(f, f');
  }

  lemma PartialOverlayEnd(field: Playfield, cur: CurrentPiece)
    requires field.Valid() && WellFormed(cur.piece) && Fits(cur)
    ensures PartialOverlay(field, cur, Rotated(cur.piece, cur.rotation).height, 0) == Overlay(field, cur)
  {
    var f := PartialOverlay(field, cur, Rotated(cur.piece, cur.rotation).height, 0);
    var f' := Overlay(field, cur);
    forall row, col | 0 <= row < FieldHeight && 0 <= col < FieldWidth
      ensures f.data[row][col] == f'.data[row][col]
    {
      PartialOverlayCell(field, cur, Rotated(cur.piece, cur.rotation).height, 0, row, col);
    }
    FieldExtensionality(f, f');
  }

  /**
    The program's stamping routine: rotate the canonical piece, then walk the
    rotated box row by row and paint every cell holding 1 at its offset from
    the piece's corner.
   */
  method Draw(field: Playfield, cur: CurrentPiece) returns (f: Playfield)
    requires field.Valid() && WellFormed(cur.piece) && Fits(cur)
    ensures f == Overlay(field, cur)
  {
    var rotated := GetData(cur.piece, cur.rotation);
    f := field;
    PartialOverlayStart(field, cur);
    var y := 0;
    while y < rotated.height
      invariant 0 <= y <= rotated.height
      invariant f == PartialOverlay(field, cur, y, 0)
    {
      var x := 0;
      while x < rotated.width
        invariant 0 <= x <= rotated.width
        invariant f == PartialOverlay(field, cur, y, x)
      {
        PartialOverlayStep(field, cur, y, x);
        if rotated.data[y][x] == 1 {
          f := Playfield(f.data[y + cur.y := f.data[y + cur.y][x + cur.x := cur.piece.color]]);
        }
        x := x + 1;
      }
      PartialOverlayRow(field, cur, y);
      y := y + 1;
    }
    PartialOverlayEnd(field, cur);
  }

  // ---------------------------------------------------------------------------
  // Properties of the control operations

  /** `RotateCcw` undoes `RotateCw` and the other way round. */
  lemma {:induction false} RotateCcwInvertsRotateCw(s: TetrisState)
    ensures RotateCcw(RotateCw(s)) == s
    ensures RotateCw(RotateCcw(s)) == s
  {
    match s.current.rotation
    case North =>
    case East =>
    case South =>
    case West =>
  }

  /** Four turns in the same direction restore the orientation, and so the whole state. */
  lemma {:induction false} FourRotationsRestore(s: TetrisState)
    ensures RotateCw(RotateCw(RotateCw(RotateCw(s)))) == s
    ensures RotateCcw(RotateCcw(RotateCcw(RotateCcw(s)))) == s
  {
    match s.current.rotation
    case North =>
    case East =>
    case South =>
    case West =>
  }

  /**
    The shape shown after a clockwise step is the EAST map applied to the shape
    shown before it, although the program always rotates the canonical piece.
   */
  lemma {:induction false} ClockwiseStepIsEastMap(p: PieceData, rot: PieceRotation)
    requires WellFormed(p) && ZeroOutsideBox(p)
    ensures Rotated(p, Clockwise(rot)) == Rotated(Rotated(p, rot), East)
  {
    match rot
    case North => NorthIsIdentity(p);
    case East => EastTwiceIsSouth(p);
    case South => SouthThenEastIsWest(p);
    case West => EastUndoesWest(p); NorthIsIdentity(p);
  }

  /** The shape shown after a counter-clockwise step is the WEST map applied to the shape shown before it. */
  lemma {:induction false} CounterClockwiseStepIsWestMap(p: PieceData, rot: PieceRotation)
    requires WellFormed(p) && ZeroOutsideBox(p)
    ensures Rotated(p, CounterClockwise(rot)) == Rotated(Rotated(p, rot), West)
  {
    match rot
    case North => NorthIsIdentity(p);
    case West => WestTwiceIsSouth(p);
    case South => SouthThenWestIsEast(p);
    case East => WestUndoesEast(p); NorthIsIdentity(p);
  }

  /** `MoveLeft` undoes `MoveRight`. */
  lemma MoveLeftUndoesMoveRight(s: TetrisState)
    ensures MoveLeft(MoveRight(s)) == s
  {
  }

  /** `MoveRight` undoes `MoveLeft` wherever `MoveLeft` applies. */
  lemma MoveRightUndoesMoveLeft(s: TetrisState)
    requires s.current.x >= 1
    ensures MoveRight(MoveLeft(s)) == s
  {
  }

  /** Moving the 1-cells of a piece by `(ox, oy)` and then by `(dx, dy)` is moving them by the sum. */
  lemma {:induction false} ShiftedTwice(r: PieceData, ox: int, oy: int, dx: int, dy: int)
    requires IsGrid(r.data)
    ensures Shifted(r, ox + dx, oy + dy) == set c | c in Shifted(r, ox, oy) :: (c.0 + dx, c.1 + dy)
  {
    var a := Shifted(r, ox + dx, oy + dy);
    var b := set c | c in Shifted(r, ox, oy) :: (c.0 + dx, c.1 + dy);
    forall c | c in a
      ensures c in b
    {
      var o :| o in Ones(r) && c == (ox + dx + o.0, oy + dy + o.1);
      assert (ox + o.0, oy + o.1) in Shifted(r, ox, oy);
    }
  }

  /** `MoveRight` moves every covered cell one column right. */
  lemma {:induction false} MoveRightShiftsFootprint(s: TetrisState)
    requires WellFormed(s.current.piece)
    ensures Footprint(MoveRight(s).current) == set c | c in Footprint(s.current) :: (c.0 + 1, c.1)
  {
    ShiftedTwice(Rotated(s.current.piece, s.current.rotation), s.current.x, s.current.y, 1, 0);
  }

  /** `MoveLeft` moves every covered cell one column left. */
  lemma {:induction false} MoveLeftShiftsFootprint(s: TetrisState)
    requires WellFormed(s.current.piece) && s.current.x >= 1
    ensures Footprint(MoveLeft(s).current) == set c | c in Footprint(s.current) :: (c.0 - 1, c.1)
  {
    ShiftedTwice(Rotated(s.current.piece, s.current.rotation), s.current.x, s.current.y, -1, 0);
  }

  /** `Drop` moves every covered cell one row down. */
  lemma {:induction false} DropShiftsFootprint(s: TetrisState)
    requires WellFormed(s.current.piece)
    ensures Footprint(Drop(s).current) == set c | c in Footprint(s.current) :: (c.0, c.1 + 1)
  {
    ShiftedTwice(Rotated(s.current.piece, s.current.rotation), s.current.x, s.current.y, 0, 1);
  }

  // ---------------------------------------------------------------------------
  // The view of a new game

  /** The cells of a field that are not `Black`, as `(column, row)` pairs. */
  function Coloured(f: Playfield): set<Cell>
    requires f.Valid()
  {
    set y, x | 0 <= y < FieldHeight && 0 <= x < FieldWidth && f.data[y][x] != Black :: (x, y)
  }

  /** A piece that is zero outside its box covers as many field cells as it has 1-cells. */
  lemma FootprintSize(cur: CurrentPiece)
    requires WellFormed(cur.piece) && ZeroOutsideBox(cur.piece)
    ensures |Footprint(cur)| == |Ones(cur.piece)|
  {
    RotationPermutesOnes(cur.piece, cur.rotation);
    ShiftedSize(Rotated(cur.piece, cur.rotation), cur.x, cur.y);
  }

  /** Moving a mask by a fixed offset keeps its number of cells. */
  lemma ShiftedSize(r: PieceData, ox: int, oy: int)
    requires IsGrid(r.data)
    ensures |Shifted(r, ox, oy)| == |Ones(r)|
  {
    var f := (c: Cell) => (ox + c.0, oy + c.1);
    assert Shifted(r, ox, oy) == set c | c in Ones(r) :: f(c);
    InjectiveImageSize(Ones(r), f);
  }

  /** Over an all-`Black` field, the coloured cells of the view are exactly the covered cells. */
  lemma ColouredOverBlack(field: Playfield, cur: CurrentPiece)
    requires field.Valid() && WellFormed(cur.piece) && Fits(cur)
    requires forall y, x :: 0 <= y < FieldHeight && 0 <= x < FieldWidth ==> field.data[y][x] == Black
    requires cur.piece.color != Black
    ensures Coloured(Overlay(field, cur)) == Footprint(cur)
  {
    OverlayCells(field, cur);
    var f := Overlay(field, cur);
    forall c | c in Footprint(cur)
      ensures c in Coloured(f)
    {
    }
  }

  /** A catalog piece facing NORTH at the spawn point covers its canonical mask moved there, inside the field. */
  lemma SpawnFootprint(cur: CurrentPiece)
    requires ValidCatalogEntry(cur.piece)
    requires cur.x == SpawnX && cur.y == SpawnY && cur.rotation == North
    ensures Footprint(cur) == Shifted(cur.piece, SpawnX, SpawnY)
    ensures Fits(cur)
  {
    NorthIsIdentity(cur.piece);
    OnesInBox(cur.piece);
  }

  /**
    A new game fits the field, and its view shows exactly the four cells of the
    spawned piece, in the piece's colour, at the canonical mask moved to the
    spawn point.
   */
  lemma {:induction false} NewGameView(level: u8, rand: u8)
    ensures var s := CreateTetrisGame(level, rand);
            && Fits(s.current)
            && Footprint(s.current) == Shifted(s.current.piece, SpawnX, SpawnY)
            && Coloured(GetField(s)) == Footprint(s.current)
            && |Coloured(GetField(s))| == 4
            && forall c :: c in Coloured(GetField(s)) ==> GetField(s).data[c.1][c.0] == s.current.piece.color
  {
    var s := CreateTetrisGame(level, rand);
    SpawnFootprint(s.current);
    ColouredOverBlack(s.field, s.current);
    FootprintSize(s.current);
  }
}
