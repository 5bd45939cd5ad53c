/** The 20-by-20 board of placed tiles, its text rendering, and the placement
    check of a shape at an integer offset (`Board::superimpose`). */
module BoardGrid {
  import opened Results
  import opened Lines
  import opened Shapes
  import Sets

  const BOARD_WIDTH: nat := 20
  const BOARD_HEIGHT: nat := 20

  /** `Grid<T, W, H>`: `h` rows of `w` cells; `g[y][x]` is row `y`, column `x`. */
  predicate IsGrid<T>(g: seq<seq<T>>, w: nat, h: nat)
  {
    |g| == h && forall y | 0 <= y < |g| :: |g[y]| == w
  }

  /** `Grid::default()`, with `v` the element type's default value. */
  function DefaultGrid<T>(v: T, w: nat, h: nat): (g: seq<seq<T>>)
    ensures IsGrid(g, w, h)
    ensures forall y, x | 0 <= y < h && 0 <= x < w :: g[y][x] == v
  {
    seq(h, _ => seq(w, _ => v))
  }

  /** `Board = Grid<Option<TileColor>, BOARD_WIDTH, BOARD_HEIGHT>`. */
  type Board = g: seq<seq<Option<TileColor>>> | IsGrid(g, BOARD_WIDTH, BOARD_HEIGHT)
    witness DefaultGrid(None, BOARD_WIDTH, BOARD_HEIGHT)

  /** `Board::default()`: no tile anywhere. */
  const EMPTY_BOARD: Board := DefaultGrid(None, BOARD_WIDTH, BOARD_HEIGHT)

  predicate InBoard(y: int, x: int)
  {
    0 <= y < BOARD_HEIGHT && 0 <= x < BOARD_WIDTH
  }

  // ---------------------------------------------------------------------
  // Display for Board
  // ---------------------------------------------------------------------

  function BoardRow(b: Board, y: nat): string
    requires y < BOARD_HEIGHT
  {
    seq(BOARD_WIDTH, x requires 0 <= x < BOARD_WIDTH => if b[y][x].Some? then '#' else '.')
  }

  function BoardRows(b: Board): seq<string>
  {
    seq(BOARD_HEIGHT, y requires 0 <= y < BOARD_HEIGHT => BoardRow(b, y))
  }

  /** The rendering: a `#` for a placed tile and a `.` for an empty cell, row
      by row, with a break after every row but the last. */
  function BoardText(b: Board): string
  {
    JoinLines(BoardRows(b))
  }

  /** One row of `fmt`. */
  method BoardFmtRow(b: Board, y: nat) returns (line: string)
    requires y < BOARD_HEIGHT
    ensures line == BoardRow(b, y)
  {
    line := "";
    for x := 0 to BOARD_WIDTH
      invariant line == BoardRow(b, y)[..x]
    {
      line := line + [if b[y][x].Some? then '#' else '.'];
    }
  }

  /** `fmt` for `Board`. */
  method BoardFmt(b: Board) returns (out: string)
    ensures out == BoardText(b)
  {
    ghost var rows := BoardRows(b);
    out := "";
    for y := 0 to BOARD_HEIGHT
      invariant out == JoinLines(rows[..y]) + (if 0 < y < BOARD_HEIGHT then "\n" else "")
    {
      var line := BoardFmtRow(b, y);
      JoinPrefix(rows, y);
      out := out + line;
      if y < BOARD_HEIGHT - 1 {
        out := out + "\n";
      }
    }
    assert rows[..BOARD_HEIGHT] == rows;
  }

  /** Where line `y` starts in the rendering. */
  function LineStart(y: nat): nat
  {
    y * (BOARD_WIDTH + 1)
  }

  /** The rendering is 20 lines of 20 characters: character `x` of line `y`
      tells whether cell `(y, x)` holds a tile, and every line but the last
      ends in a break. */
  lemma BoardTextLayout(b: Board)
    ensures |BoardText(b)| == BOARD_HEIGHT * (BOARD_WIDTH + 1) - 1
    ensures forall y, x | 0 <= y < BOARD_HEIGHT && 0 <= x < BOARD_WIDTH ::
      BoardText(b)[LineStart(y) + x] == if b[y][x].Some? then '#' else '.'
    ensures forall y | 0 <= y < BOARD_HEIGHT - 1 ::
      BoardText(b)[LineStart(y) + BOARD_WIDTH] == '\n'
  {
    var rows := BoardRows(b);
    assert Uniform(rows, BOARD_WIDTH);
    JoinLength(rows, BOARD_WIDTH);
    forall y, x | 0 <= y < BOARD_HEIGHT && 0 <= x < BOARD_WIDTH
      ensures BoardText(b)[LineStart(y) + x] == if b[y][x].Some? then '#' else '.'
    {
      JoinCell(rows, BOARD_WIDTH, y, x);
    }
    forall y | 0 <= y < BOARD_HEIGHT - 1
      ensures BoardText(b)[LineStart(y) + BOARD_WIDTH] == '\n'
    {
      JoinBreak(rows, BOARD_WIDTH, y);
    }
  }

  // ---------------------------------------------------------------------
  // superimpose
  // ---------------------------------------------------------------------

  datatype SuperimpositionState = Fits | Intersects | Blank

  type StateGrid = g: seq<seq<SuperimpositionState>> | IsGrid(g, BOARD_WIDTH, BOARD_HEIGHT)
    witness DefaultGrid(Blank, BOARD_WIDTH, BOARD_HEIGHT)

  datatype Superimposition = Superimposition(fields: StateGrid, success: bool)

  /** Some occupied cell of `s` lands on board cell `(gy, gx)` when `s` is
      moved by `dx` columns and `dy` rows: the cell `(gy - dy, gx - dx)`. */
  predicate LandsOn(s: Shape, dx: int, dy: int, gy: int, gx: int)
  {
    0 <= gy - dy < MASK_SIZE && 0 <= gx - dx < MASK_SIZE && s.fields[gy - dy][gx - dx]
  }

  /** Shape cell `(y, x)`, moved by the offset, lands on an empty board cell. */
  predicate CellFits(b: Board, dx: int, dy: int, y: int, x: int)
  {
    InBoard(y + dy, x + dx) && b[y + dy][x + dx].None?
  }

  /** Every occupied cell of `s` lands inside the board on an empty cell. */
  predicate PlacementFits(b: Board, s: Shape, dx: int, dy: int)
  {
    forall y, x | 0 <= y < MASK_SIZE && 0 <= x < MASK_SIZE && s.fields[y][x] :: CellFits(b, dx, dy, y, x)
  }

  /** The mark of one board cell: `Blank` when no occupied shape cell lands
      on it, otherwise `Intersects` over a tile and `Fits` over an empty cell. */
  function StateAt(b: Board, s: Shape, dx: int, dy: int, gy: nat, gx: nat): SuperimpositionState
    requires InBoard(gy, gx)
  {
    if !LandsOn(s, dx, dy, gy, gx) then Blank
    else if b[gy][gx].Some? then Intersects
    else Fits
  }

  /** The placement check, cell by cell. */
  function Superimposed(b: Board, s: Shape, dx: int, dy: int): Superimposition
  {
    Superimposition(
      seq(BOARD_HEIGHT, gy requires 0 <= gy < BOARD_HEIGHT =>
        seq(BOARD_WIDTH, gx requires 0 <= gx < BOARD_WIDTH => StateAt(b, s, dx, dy, gy, gx))),
      PlacementFits(b, s, dx, dy))
  }

  /** Shape cell `(y, x)` comes before the loop position `(py, px)` in
      row-major order. */
  predicate Before(y: int, x: int, py: int, px: int)
  {
    y < py || (y == py && x < px)
  }

  /** The mark of a board cell once the shape cells before `(py, px)` are
      processed. */
  function PartialState(b: Board, s: Shape, dx: int, dy: int, gy: nat, gx: nat, py: int, px: int): SuperimpositionState
    requires InBoard(gy, gx)
  {
    if LandsOn(s, dx, dy, gy, gx) && Before(gy - dy, gx - dx, py, px) then StateAt(b, s, dx, dy, gy, gx)
    else Blank
  }

  /** `success` once the shape cells before `(py, px)` are processed. */
  predicate PartialFits(b: Board, s: Shape, dx: int, dy: int, py: int, px: int)
  {
    forall y, x | 0 <= y < MASK_SIZE && 0 <= x < MASK_SIZE && s.fields[y][x] && Before(y, x, py, px) ::
      CellFits(b, dx, dy, y, x)
  }

  /** The status grid as a value. */
  function Snapshot(grid: array2<SuperimpositionState>): StateGrid
    requires grid.Length0 == BOARD_HEIGHT && grid.Length1 == BOARD_WIDTH
    reads grid
  {
    seq(BOARD_HEIGHT, gy requires 0 <= gy < BOARD_HEIGHT reads grid =>
      seq(BOARD_WIDTH, gx requires 0 <= gx < BOARD_WIDTH reads grid => grid[gy, gx]))
  }

  /** `superimpose`: visits every cell of the 8-by-8 mask in row-major order;
      an occupied cell moved off the board clears `success`, one moved onto a
      tile marks `Intersects` and clears `success`, and one moved onto an
      empty cell marks `Fits`. */
  method Superimpose(b: Board, s: Shape, dx: int, dy: int) returns (r: Superimposition)
    ensures r == Superimposed(b, s, dx, dy)
  {
    var grid := new SuperimpositionState[BOARD_HEIGHT, BOARD_WIDTH]((_, _) => Blank);
    var success := true;
    for y := 0 to MASK_SIZE
      invariant forall gy, gx | 0 <= gy < BOARD_HEIGHT && 0 <= gx < BOARD_WIDTH ::
        grid[gy, gx] == PartialState(b, s, dx, dy, gy, gx, y, 0)
      invariant success == PartialFits(b, s, dx, dy, y, 0)
    {
      for x := 0 to MASK_SIZE
        invariant forall gy, gx | 0 <= gy < BOARD_HEIGHT && 0 <= gx < BOARD_WIDTH ::
          grid[gy, gx] == PartialState(b, s, dx, dy, gy, gx, y, x)
        invariant success == PartialFits(b, s, dx, dy, y, x)
      {
        if s.fields[y][x] {
          var gx, gy := x + dx, y + dy;
          if gx < 0 || gx >= BOARD_WIDTH || gy < 0 || gy >= BOARD_HEIGHT {
            success := false;
          } else if b[gy][gx].Some? {
            grid[gy, gx] := Intersects;
            success := false;
          } else {
            grid[gy, gx] := Fits;
          }
        }
      }
    }
    var snap := Snapshot(grid);
    ghost var want := Superimposed(b, s, dx, dy);
    forall gy | 0 <= gy < BOARD_HEIGHT
      ensures snap[gy] == want.fields[gy]
    {
      assert forall gx | 0 <= gx < BOARD_WIDTH :: snap[gy][gx] == want.fields[gy][gx];
    }
    assert snap == want.fields;
    r := Superimposition(snap, success);
  }

  /** The occupied shape cells that land inside the board. */
  ghost function Landing(s: Shape, dx: int, dy: int): set<(int, int)>
  {
    set y, x | 0 <= y < MASK_SIZE && 0 <= x < MASK_SIZE && s.fields[y][x] && InBoard(y + dy, x + dx) :: (y, x)
  }

  /** The board cells carrying mark `st`. */
  ghost function MarkedWith(r: Superimposition, st: SuperimpositionState): set<(int, int)>
  {
    set gy, gx | 0 <= gy < BOARD_HEIGHT && 0 <= gx < BOARD_WIDTH && r.fields[gy][gx] == st :: (gy, gx)
  }

  /** The board cells carrying any mark. */
  ghost function Marked(r: Superimposition): set<(int, int)>
  {
    set gy, gx | 0 <= gy < BOARD_HEIGHT && 0 <= gx < BOARD_WIDTH && r.fields[gy][gx] != Blank :: (gy, gx)
  }

  /** A board cell is marked exactly when an occupied shape cell lands on it. */
  lemma MarkedIff(b: Board, s: Shape, dx: int, dy: int, gy: int, gx: int)
    requires InBoard(gy, gx)
    ensures Superimposed(b, s, dx, dy).fields[gy][gx] != Blank <==> LandsOn(s, dx, dy, gy, gx)
  {
  }

  /** Distinct shape cells land on distinct board cells, so there are as many
      marks as occupied cells landing inside the board. */
  lemma MarkedCount(b: Board, s: Shape, dx: int, dy: int)
    ensures |Marked(Superimposed(b, s, dx, dy))| == |Landing(s, dx, dy)|
  {
    var r := Superimposed(b, s, dx, dy);
    var A, B := Landing(s, dx, dy), Marked(r);
    var f := (p: (int, int)) => (p.0 + dy, p.1 + dx);
    forall p | p in A
      ensures f(p) in B
    {
      MarkedIff(b, s, dx, dy, p.0 + dy, p.1 + dx);
    }
    forall q | q in B
      ensures exists p | p in A :: f(p) == q
    {
      MarkedIff(b, s, dx, dy, q.0, q.1);
      var p := (q.0 - dy, q.1 - dx);
      assert p in A && f(p) == q;
    }
    Sets.InjectiveImageCard(A, B, f);
  }

  /** `success` holds exactly when no cell is marked `Intersects` and every
      occupied shape cell lands inside the board. */
  lemma SuccessIff(b: Board, s: Shape, dx: int, dy: int)
    ensures Superimposed(b, s, dx, dy).success <==>
      MarkedWith(Superimposed(b, s, dx, dy), Intersects) == {} && Landing(s, dx, dy) == TrueCells(s.fields)
  {
    var r := Superimposed(b, s, dx, dy);
    if r.success {
      assert forall q | q in MarkedWith(r, Intersects) :: false;
    }
    if MarkedWith(r, Intersects) == {} && Landing(s, dx, dy) == TrueCells(s.fields) {
      forall y, x | 0 <= y < MASK_SIZE && 0 <= x < MASK_SIZE && s.fields[y][x]
        ensures CellFits(b, dx, dy, y, x)
      {
        assert (y, x) in Landing(s, dx, dy);
        assert (y + dy, x + dx) !in MarkedWith(r, Intersects);
      }
    }
  }

  /** A successful placement marks one `Fits` cell per occupied shape cell
      and no `Intersects` cell. */
  lemma SuccessCounts(b: Board, s: Shape, dx: int, dy: int)
    requires Superimposed(b, s, dx, dy).success
    ensures |MarkedWith(Superimposed(b, s, dx, dy), Fits)| == |TrueCells(s.fields)|
    ensures MarkedWith(Superimposed(b, s, dx, dy), Intersects) == {}
  {
    var r := Superimposed(b, s, dx, dy);
    SuccessIff(b, s, dx, dy);
    MarkedCount(b, s, dx, dy);
    forall q | q in Marked(r)
      ensures q in MarkedWith(r, Fits)
    {
      assert q !in MarkedWith(r, Intersects);
    }
    assert Marked(r) == MarkedWith(r, Fits);
  }

  /** On the empty board, a shape whose bounding box lies on the board fits. */
  lemma EmptyBoardFits(s: Shape, dx: int, dy: int)
    requires 0 <= dx && dx + Bounds(s).0 <= BOARD_WIDTH
    requires 0 <= dy && dy + Bounds(s).1 <= BOARD_HEIGHT
    ensures Superimposed(EMPTY_BOARD, s, dx, dy).success
  {
    var (w, h) := Bounds(s);
    assert Encloses(s.fields, w, h);
  }
}
