/** The game logic of `main.rs` that sits on the shape and board types: the
    main board component whose grid the commit step writes in place, the
    click handling around `superimpose`, and the catalog of base patterns
    the shape pool is expanded from. */
module Game {
  import opened Results
  import opened Shapes
  import BoardGrid

  // ---------------------------------------------------------------------
  // Commit
  // ---------------------------------------------------------------------

  /** The board after writing `Some(color)` into every cell marked `Fits`. */
  function Committed(b: BoardGrid.Board, sup: BoardGrid.Superimposition, color: TileColor): BoardGrid.Board
  {
    seq(BoardGrid.BOARD_HEIGHT, y requires 0 <= y < BoardGrid.BOARD_HEIGHT =>
      seq(BoardGrid.BOARD_WIDTH, x requires 0 <= x < BoardGrid.BOARD_WIDTH =>
        if sup.fields[y][x] == BoardGrid.Fits then Some(color) else b[y][x]))
  }

  /** The main board component: its tile grid (`board.grid.0`). */
  class Board {
    const grid: array2<Option<TileColor>>

    ghost predicate Valid()
      reads this
    {
      grid.Length0 == BoardGrid.BOARD_HEIGHT && grid.Length1 == BoardGrid.BOARD_WIDTH
    }

    /** The grid as a `BoardGrid.Board` value. */
    function Cells(): BoardGrid.Board
      requires Valid()
      reads this, grid
    {
      seq(BoardGrid.BOARD_HEIGHT, y requires 0 <= y < BoardGrid.BOARD_HEIGHT reads grid =>
        seq(BoardGrid.BOARD_WIDTH, x requires 0 <= x < BoardGrid.BOARD_WIDTH reads grid => grid[y, x]))
    }

    /** A board built with `BoardGrid::default()`. */
    constructor ()
      ensures Valid() && fresh(grid)
      ensures Cells() == BoardGrid.EMPTY_BOARD
      ensures forall y, x | 0 <= y < BoardGrid.BOARD_HEIGHT && 0 <= x < BoardGrid.BOARD_WIDTH :: Cells()[y][x].None?
    {
      grid := new Option<TileColor>[BoardGrid.BOARD_HEIGHT, BoardGrid.BOARD_WIDTH]((_, _) => None);
      new;
      BoardEq(Cells(), BoardGrid.EMPTY_BOARD);
    }

    /** The commit step of `update`: every cell marked `Fits` receives the
        selected shape's colour; the others keep their contents. */
    method Commit(sup: BoardGrid.Superimposition, color: TileColor)
      requires Valid()
      modifies grid
      ensures Valid()
      ensures Cells() == Committed(old(Cells()), sup, color)
    {
      ghost var before := Cells();
      ghost var after := Committed(before, sup, color);
      for y := 0 to BoardGrid.BOARD_HEIGHT
        invariant forall gy, gx | 0 <= gy < BoardGrid.BOARD_HEIGHT && 0 <= gx < BoardGrid.BOARD_WIDTH ::
          grid[gy, gx] == if gy < y then after[gy][gx] else before[gy][gx]
      {
        for x := 0 to BoardGrid.BOARD_WIDTH
          invariant forall gy, gx | 0 <= gy < BoardGrid.BOARD_HEIGHT && 0 <= gx < BoardGrid.BOARD_WIDTH ::
            grid[gy, gx] == if BoardGrid.Before(gy, gx, y, x) then after[gy][gx] else before[gy][gx]
        {
          if sup.fields[y][x] == BoardGrid.Fits {
            grid[y, x] := Some(color);
          }
        }
      }
      BoardEq(Cells(), after);
    }

    /** The click branch of `update`: superimposes the selected shape and,
        on a fresh left click with a successful placement, commits it. */
    method Update(justPressed: bool, shape: Shape, dx: int, dy: int) returns (sup: BoardGrid.Superimposition)
      requires Valid()
      modifies grid
      ensures Valid()
      ensures sup == BoardGrid.Superimposed(old(Cells()), shape, dx, dy)
      ensures Cells() == if justPressed && sup.success then Committed(old(Cells()), sup, shape.color) else old(Cells())
    {
      sup := BoardGrid.Superimpose(Cells(), shape, dx, dy);
      if justPressed && sup.success {
        Commit(sup, shape.color);
      }
    }
  }

  /** Two boards that agree on every cell are equal. */
  lemma BoardEq(a: BoardGrid.Board, b: BoardGrid.Board)
    requires forall y, x | 0 <= y < BoardGrid.BOARD_HEIGHT && 0 <= x < BoardGrid.BOARD_WIDTH :: a[y][x] == b[y][x]
    ensures a == b
  {
    forall y | 0 <= y < BoardGrid.BOARD_HEIGHT
      ensures a[y] == b[y]
    {
    }
  }

  /** The cells holding a tile. */
  ghost function Tiles(b: BoardGrid.Board): set<(int, int)>
  {
    set y, x | 0 <= y < BoardGrid.BOARD_HEIGHT && 0 <= x < BoardGrid.BOARD_WIDTH && b[y][x].Some? :: (y, x)
  }

  /** Committing a superimposition of `s` on `b` never overwrites a placed
      tile, and writes `s`'s colour exactly into the cells marked `Fits`. */
  lemma CommitKeepsTiles(b: BoardGrid.Board, s: Shape, dx: int, dy: int)
    ensures var c := Committed(b, BoardGrid.Superimposed(b, s, dx, dy), s.color);
      forall y, x | 0 <= y < BoardGrid.BOARD_HEIGHT && 0 <= x < BoardGrid.BOARD_WIDTH ::
        c[y][x] == if BoardGrid.LandsOn(s, dx, dy, y, x) && b[y][x].None? then Some(s.color) else b[y][x]
  {
  }

  /** A successful commit adds exactly one tile per occupied shape cell. */
  lemma CommitTileCount(b: BoardGrid.Board, s: Shape, dx: int, dy: int)
    requires BoardGrid.Superimposed(b, s, dx, dy).success
    ensures |Tiles(Committed(b, BoardGrid.Superimposed(b, s, dx, dy), s.color))| == |Tiles(b)| + |TrueCells(s.fields)|
  {
    var sup := BoardGrid.Superimposed(b, s, dx, dy);
    var c := Committed(b, sup, s.color);
    var fits := BoardGrid.MarkedWith(sup, BoardGrid.Fits);
    BoardGrid.SuccessCounts(b, s, dx, dy);
    assert Tiles(c) == Tiles(b) + fits;
    assert Tiles(b) * fits == {} by {
      forall q | q in fits
        ensures q !in Tiles(b)
      {
      }
    }
  }

  /** After a successful commit, superimposing the same shape at the same
      offset again turns every mark into `Intersects`, and fails unless the
      shape is empty. */
  lemma CommitThenReplace(b: BoardGrid.Board, s: Shape, dx: int, dy: int)
    requires BoardGrid.Superimposed(b, s, dx, dy).success
    ensures var sup := BoardGrid.Superimposed(b, s, dx, dy);
      var again := BoardGrid.Superimposed(Committed(b, sup, s.color), s, dx, dy);
      forall y, x | 0 <= y < BoardGrid.BOARD_HEIGHT && 0 <= x < BoardGrid.BOARD_WIDTH ::
        again.fields[y][x] == if sup.fields[y][x] == BoardGrid.Blank then BoardGrid.Blank else BoardGrid.Intersects
    ensures var sup := BoardGrid.Superimposed(b, s, dx, dy);
      BoardGrid.Superimposed(Committed(b, sup, s.color), s, dx, dy).success <==> Empty(s.fields)
  {
    var sup := BoardGrid.Superimposed(b, s, dx, dy);
    var c := Committed(b, sup, s.color);
    if !Empty(s.fields) {
      var i, j :| 0 <= i < MASK_SIZE && 0 <= j < MASK_SIZE && s.fields[i][j];
      assert BoardGrid.CellFits(b, dx, dy, i, j);
      assert !BoardGrid.CellFits(c, dx, dy, i, j);
    }
  }

  // ---------------------------------------------------------------------
  // Catalog
  // ---------------------------------------------------------------------

  const SQUARE_2: PatternDef := PatternDef(2, 2, "####")
  const LINE_4: PatternDef := PatternDef(4, 1, "####")
  const LINE_3: PatternDef := PatternDef(3, 1, "###")
  const V: PatternDef := PatternDef(2, 2, "##.#")
  const L: PatternDef := PatternDef(3, 2, "###..#")
  const DOT: PatternDef := PatternDef(1, 1, "#")
  const LINE_2: PatternDef := PatternDef(1, 2, "##")
  const SQUARE_3: PatternDef := PatternDef(3, 3, "#########")
  const RECTANGLE: PatternDef := PatternDef(2, 3, "######")
  const T: PatternDef := PatternDef(3, 2, "###.#.")
  const S: PatternDef := PatternDef(3, 2, "##..##")

  /** The base patterns handed to `shapes!` in `main`, in order. */
  const BASE_PATTERNS: seq<PatternDef> :=
    [SQUARE_2, LINE_4, LINE_3, V, L, DOT, LINE_2, SQUARE_3, RECTANGLE, T, S]

  /** `d` parses to a normalised shape whose bounding box is its declared box. */
  ghost predicate DeclaredBox(d: PatternDef)
  {
    && Parsed(d.w, d.h, d.pattern).Success?
    && Bounds(Parsed(d.w, d.h, d.pattern).value) == (d.w, d.h)
    && Normalized(Parsed(d.w, d.h, d.pattern).value)
  }

  // One lemma per base pattern, each handing `PatternBox` a `#` in the first
  // row, the last row, the first column and the last column.

  lemma Square2Box()
    ensures DeclaredBox(SQUARE_2)
  {
    PatternBox(2, 2, "####", 0, 0, 0, 0);
  }

  lemma Line4Box()
    ensures DeclaredBox(LINE_4)
  {
    PatternBox(4, 1, "####", 0, 0, 0, 0);
  }

  lemma Line3Box()
    ensures DeclaredBox(LINE_3)
  {
    PatternBox(3, 1, "###", 0, 0, 0, 0);
  }

  lemma VBox()
    ensures DeclaredBox(V)
  {
    PatternBox(2, 2, "##.#", 0, 1, 0, 0);
  }

  lemma LBox()
    ensures DeclaredBox(L)
  {
    PatternBox(3, 2, "###..#", 0, 2, 0, 0);
  }

  lemma DotBox()
    ensures DeclaredBox(DOT)
  {
    PatternBox(1, 1, "#", 0, 0, 0, 0);
  }

  lemma Line2Box()
    ensures DeclaredBox(LINE_2)
  {
    PatternBox(1, 2, "##", 0, 0, 0, 0);
  }

  lemma Square3Box()
    ensures DeclaredBox(SQUARE_3)
  {
    PatternBox(3, 3, "#########", 0, 0, 0, 0);
  }

  lemma RectangleBox()
    ensures DeclaredBox(RECTANGLE)
  {
    PatternBox(2, 3, "######", 0, 0, 0, 0);
  }

  lemma TBox()
    ensures DeclaredBox(T)
  {
    PatternBox(3, 2, "###.#.", 0, 1, 0, 0);
  }

  lemma SBox()
    ensures DeclaredBox(S)
  {
    PatternBox(3, 2, "##..##", 0, 1, 0, 1);
  }

  /** Each base pattern parses to a normalised shape whose bounding box is
      its declared box. */
  lemma BasePatternBox(k: nat)
    requires k < |BASE_PATTERNS|
    ensures DeclaredBox(BASE_PATTERNS[k])
  {
    match k
    case 0 => assert BASE_PATTERNS[k] == SQUARE_2; Square2Box();
    case 1 => assert BASE_PATTERNS[k] == LINE_4; Line4Box();
    case 2 => assert BASE_PATTERNS[k] == LINE_3; Line3Box();
    case 3 => assert BASE_PATTERNS[k] == V; VBox();
    case 4 => assert BASE_PATTERNS[k] == L; LBox();
    case 5 => assert BASE_PATTERNS[k] == DOT; DotBox();
    case 6 => assert BASE_PATTERNS[k] == LINE_2; Line2Box();
    case 7 => assert BASE_PATTERNS[k] == SQUARE_3; Square3Box();
    case 8 => assert BASE_PATTERNS[k] == RECTANGLE; RectangleBox();
    case 9 => assert BASE_PATTERNS[k] == T; TBox();
    case 10 => assert BASE_PATTERNS[k] == S; SBox();
  }

  /** Every base pattern is valid, so building the catalog never panics. */
  lemma CatalogBuilds()
    ensures AllValid(BASE_PATTERNS)
    ensures ShapesOf(BASE_PATTERNS).Success?
  {
    forall k | 0 <= k < |BASE_PATTERNS|
      ensures ValidPattern(BASE_PATTERNS[k].w, BASE_PATTERNS[k].h, BASE_PATTERNS[k].pattern)
    {
      BasePatternBox(k);
      var d := BASE_PATTERNS[k];
      ParsedValid(d.w, d.h, d.pattern);
    }
    ShapesOfValid(BASE_PATTERNS);
  }

  /** Every catalog entry is gray: colour is only chosen after the draw. */
  lemma CatalogGray()
    ensures ShapesOf(BASE_PATTERNS).Success?
    ensures forall x | x in ShapesOf(BASE_PATTERNS).value :: x.color == DEFAULT_COLOR
  {
    CatalogBuilds();
    ShapesOfGray(BASE_PATTERNS);
  }

  /** Four quarter turns give each base shape back. */
  lemma BaseFourTurns(k: nat)
    requires k < |BASE_PATTERNS|
    ensures var d := BASE_PATTERNS[k];
      Parsed(d.w, d.h, d.pattern).Success? && Rot(4, Parsed(d.w, d.h, d.pattern).value) == Parsed(d.w, d.h, d.pattern).value
  {
    BasePatternBox(k);
    var d := BASE_PATTERNS[k];
    FourTurns(Parsed(d.w, d.h, d.pattern).value);
  }

  /** The shape pool of `main`: the `shapes!` expansion of the base patterns. */
  method BuildShapePool() returns (pool: seq<Shape>)
    ensures ShapesOf(BASE_PATTERNS) == Success(pool)
    ensures forall x | x in pool :: x.color == DEFAULT_COLOR
  {
    CatalogGray();
    var r := ExpandShapes(BASE_PATTERNS);
    pool := r.value;
  }

  // ---------------------------------------------------------------------
  // The default shape
  // ---------------------------------------------------------------------

  /** The shape selected at start-up: the 2x2 square, painted blue. */
  function DefaultShape(): Shape
  {
    PatternBox(2, 2, "####", 0, 0, 0, 0);
    Parsed(2, 2, "####").value.(color := Blue)
  }

  /** The default shape fits the empty board at the origin; once committed,
      placing it there again fails. */
  lemma DefaultShapePlacement()
    ensures BoardGrid.Superimposed(BoardGrid.EMPTY_BOARD, DefaultShape(), 0, 0).success
    ensures var sup := BoardGrid.Superimposed(BoardGrid.EMPTY_BOARD, DefaultShape(), 0, 0);
      !BoardGrid.Superimposed(Committed(BoardGrid.EMPTY_BOARD, sup, Blue), DefaultShape(), 0, 0).success
  {
    PatternBox(2, 2, "####", 0, 0, 0, 0);
    var s := DefaultShape();
    var p := Parsed(2, 2, "####").value;
    assert s.fields == p.fields;
    BoundsUnique(s, 2, 2);
    BoardGrid.EmptyBoardFits(s, 0, 0);
    assert s.fields[0][0];
    CommitThenReplace(BoardGrid.EMPTY_BOARD, s, 0, 0);
  }
}
