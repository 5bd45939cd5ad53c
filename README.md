# bevy-blocks placement core in Dafny

This project models the placement geometry of bevy-blocks, a block-placement puzzle. It has two parts:

- **Shapes.** A shape is an 8-by-8 occupancy mask with a tile colour. The model covers its bounding box (`bounds`) and its quarter turn (`rotate_90`). It covers the rotation class a shape generates (`equivalents`) and the `#`/`.` pattern notation (`from_pattern`, with its panics as `Failure` results). It also covers the rendering (`Display`) and the `shapes!` macro, which expands a list of base patterns into the shape catalog.
- **The board.** The 20-by-20 board is a grid of optional colours. The model covers its default, its rendering, and `superimpose`. `superimpose` classifies every board cell as `Fits`, `Intersects` or `Blank` for a shape placed at an offset, and reports whether the placement succeeds. From the game loop it covers the commit step, the catalog of eleven base patterns and the default shape.

Modules:

- `Results`: `Option` / `Result`.
- `Arith`: row-major division facts.
- `Sets`: the cardinality of an injective image.
- `Lines`: joining lines, deleting line breaks, and cutting a string into rows.
- `Shapes`: `src/board.rs` up to the `shapes!` macro.
- `BoardGrid`: the board, its `Display` and `superimpose`, also from `src/board.rs`.
- `Game`: from `src/main.rs`. The `Board` component is a class whose `array2` grid is written in place. The module also holds the catalog and the default shape.

Each source loop is a method, and each method is proved equal to a specification function:

- `rotate_90`
- `equivalents`
- `from_pattern`
- both `Display` impls
- the `shapes!` expansion
- `superimpose`
- the commit loop

The properties are lemmas about the specification functions.

## Model

| member | source | states |
|---|---|---|
| Shapes.RowWidth | src/board.rs:53-59 | the width of one row is one past its last occupied column, 0 for an empty row |
| Shapes.BoundsFold | src/board.rs:49-64 | the fold's result encloses every occupied cell, stays within the mask, and has an occupied last column and last row |
| Shapes.Bounds | src/board.rs:48-65 | `bounds` is tight: the box encloses every occupied cell, fits in 8 by 8, and its last column and last row are occupied; it is (0, 0) exactly for an empty mask |
| Shapes.BoundsUnique | src/board.rs:48-65 | any tight box is the one `bounds` returns |
| Shapes.Rotated | src/board.rs:76-79 | a quarter turn keeps the colour |
| Shapes.Rotate90 | src/board.rs:66-80 | the nested loop into a fresh mask computes `Rotated` |
| Shapes.RotatedCount | src/board.rs:66-80 | a quarter turn keeps the number of occupied cells |
| Shapes.RotatedBox | src/board.rs:66-80 | the turned shape lies in the h-by-w box; its height is the original width and its width is at most the original height |
| Shapes.RotatedNormalized | src/board.rs:66-80 | a shape occupying row 0 and column 0 stays so after a turn, and its bounds become (h, w) |
| Shapes.FourRotated | src/board.rs:66-80 | four quarter turns give back any shape that occupies row 0 and column 0 |
| Shapes.FourTurns | src/board.rs:66-80 | the same fact for `Rot(4, s)` |
| Shapes.RotatedSingle | src/board.rs:66-80 | a lone cell at (i, j) turns to (j, 0) |
| Shapes.FourTurnsMoveUnnormalized | src/board.rs:66-80 | four turns move a lone cell anywhere but the origin to the origin, so four turns are not the identity in general |
| Shapes.ContainsIn | src/board.rs:85 | the linear `contains` scan agrees with membership |
| Shapes.PushIfAbsent | src/board.rs:85-87 | the guarded push appends exactly when the shape is absent |
| Shapes.Equivalents | src/board.rs:82-97 | the method computes `EquivalentsOf` |
| Shapes.PushNewDistinct | src/board.rs:85-95 | a guarded push keeps a list free of duplicates and adds exactly the new shape |
| Shapes.EquivalentsClass | src/board.rs:82-97 | the receiver comes first; the class has 1 to 4 members and no duplicates; its members are exactly the receiver turned 0 to 3 times |
| Shapes.EquivalentsColor | src/board.rs:82-97 | every member of the class has the receiver's colour |
| Shapes.FromPattern | src/board.rs:99-126 | the scanning loop computes `Parsed`, with each panic as the matching `Failure` |
| Shapes.ParsedValid | src/board.rs:100-118 | parsing succeeds iff the length is w*h, a non-empty pattern has w, h <= 8, and every character is `#` or `.` |
| Shapes.FromPatternErrors | src/board.rs:100-118 | the length check wins; with the length right and the box inside the mask, the only failure is the first bad character |
| Shapes.FromPatternCells | src/board.rs:104-125 | a parsed shape is gray and holds `pat[y*w+x] == '#'` at (y, x) inside the box, false outside |
| Shapes.PatternBox | src/board.rs:99-126 | given a `#` in the first and last row and column of a valid pattern, the parsed shape's bounds are its declared (w, h) and it occupies row 0 and column 0 |
| Shapes.FmtRow | src/board.rs:134-138 | the inner loop writes one row of `#`/`.` characters |
| Shapes.Fmt | src/board.rs:129-147 | the writer loop produces `Text`: the rows joined by single newlines, with no trailing newline |
| Shapes.TextLayout | src/board.rs:129-147 | the rendering of a shape with bounds (w, h) is h lines of w characters, h*(w+1)-1 characters in all and empty for an empty shape; character j of line i is `#` exactly when cell (i, j) is occupied, and every line but the last ends in a newline |
| Shapes.RenderParsed | src/board.rs:129-147 | the rendering of a parsed pattern whose bounds are its box is the pattern cut into `w`-character rows and joined by newlines; deleting the newlines gives the pattern back |
| Shapes.RenderedPattern | src/board.rs:129-147 | the rendering without its breaks is a valid pattern for the bounding box, and the shape holds it |
| Shapes.ParseRendered | src/board.rs:129-147 | parsing the rendering (breaks deleted) against the bounds gives every gray shape back |
| Shapes.CollectSuccess | src/board.rs:155-164 | the expansion succeeds iff every definition parses |
| Shapes.CollectMembers | src/board.rs:155-164 | a shape is in the expansion iff it is in some definition's class |
| Shapes.CollectAbort | src/board.rs:155-164 | once a definition fails, the expansion's result is that failure |
| Shapes.ExtendWith | src/board.rs:160 | one `temp.extend(from_pattern(..).equivalents())` step |
| Shapes.ExpandStep | src/board.rs:158-161 | one definition's step of the macro's loop, aborting with the whole expansion's result on failure |
| Shapes.ExpandShapes | src/board.rs:149-167 | the macro's loop computes `ShapesOf`, the in-order concatenation of the classes |
| Shapes.ClassValid | src/board.rs:160 | a definition's class is built iff its pattern is valid |
| Shapes.ShapesOfValid | src/board.rs:149-167 | the macro never panics iff every pattern is valid |
| Shapes.ParsedGray | src/board.rs:122-125 | a parsed shape has the default colour |
| Shapes.ClassGray | src/board.rs:160 | every member of a parsed class is gray |
| Shapes.ShapesOfGray | src/board.rs:149-167 | every shape the macro produces is gray |
| BoardGrid.BoardFmtRow | src/board.rs:178-181 | the inner loop writes one board row, `#` for a filled cell |
| BoardGrid.BoardFmt | src/board.rs:175-190 | the writer loop produces `BoardText` |
| BoardGrid.BoardTextLayout | src/board.rs:175-190 | the board text has 20 lines of 20 characters with no trailing newline; `#` marks each filled cell and a newline ends each line but the last |
| BoardGrid.Superimpose | src/board.rs:217-265 | the nested loop over the mask computes `Superimposed`: every cell is `Blank` unless an occupied shape cell lands on it, then `Intersects` on a filled cell and `Fits` otherwise; `success` holds iff every occupied cell lands in bounds on an empty cell |
| BoardGrid.MarkedIff | src/board.rs:237-257 | a board cell is marked iff an occupied shape cell lands on it |
| BoardGrid.MarkedCount | src/board.rs:237-257 | the marked cells are exactly as many as the occupied shape cells that land on the board |
| BoardGrid.SuccessIff | src/board.rs:243-256 | `success` iff nothing is marked `Intersects` and every occupied shape cell lands on the board |
| BoardGrid.SuccessCounts | src/board.rs:237-257 | on success, the `Fits` marks are as many as the shape's occupied cells, and there are no `Intersects` marks |
| BoardGrid.EmptyBoardFits | src/board.rs:217-265 | on the empty board, any offset that keeps the bounding box on the board succeeds |
| Game.Board.constructor | src/board.rs:192-196 | a new board component's grid is `Grid::default()` (as at src/main.rs line 89): 20 by 20 with every cell `None` |
| Game.Board.Commit | src/main.rs:199-205 | the in-place loop sets each `Fits` cell to the shape's colour and leaves every other cell unchanged |
| Game.Board.Update | src/main.rs:195-205 | the board is superimposed without change, then written only when the button was just pressed and the placement succeeds |
| Game.CommitKeepsTiles | src/main.rs:199-205 | after the commit, a cell that was empty and has an occupied shape cell landing on it holds the shape's colour; every other cell is unchanged |
| Game.CommitTileCount | src/main.rs:199-205 | a successful commit adds exactly as many filled cells as the shape has occupied cells |
| Game.CommitThenReplace | src/main.rs:198-205 | after a commit, placing the same shape at the same offset marks every cell it touches `Intersects`, and succeeds iff the shape is empty |
| Game.Square2Box | src/main.rs:277-278 | the 2x2 square parses, its bounds are (2, 2), and it occupies row 0 and column 0 |
| Game.Line4Box | src/main.rs:279-280 | the same for the 4-cell line with (4, 1) |
| Game.Line3Box | src/main.rs:281-282 | the same for the 3-cell line with (3, 1) |
| Game.VBox | src/main.rs:283-284 | the same for the V with (2, 2) |
| Game.LBox | src/main.rs:285-286 | the same for the L with (3, 2) |
| Game.DotBox | src/main.rs:287-288 | the same for the dot with (1, 1) |
| Game.Line2Box | src/main.rs:289-290 | the same for the 2-cell line with (1, 2) |
| Game.Square3Box | src/main.rs:291-292 | the same for the 3x3 square with (3, 3) |
| Game.RectangleBox | src/main.rs:293-294 | the same for the rectangle with (2, 3) |
| Game.TBox | src/main.rs:295-296 | the same for the T with (3, 2) |
| Game.SBox | src/main.rs:297-298 | the same for the S with (3, 2) |
| Game.BasePatternBox | src/main.rs:276-299 | every base pattern's bounds are its declared (w, h) |
| Game.CatalogBuilds | src/main.rs:276-299 | every base pattern is valid, so building the catalog never panics |
| Game.CatalogGray | src/main.rs:276-299 | every catalog entry is gray |
| Game.BaseFourTurns | src/main.rs:276-299 | four quarter turns give each base shape back |
| Game.BuildShapePool | src/main.rs:276-299 | the pool is the `shapes!` expansion of the base patterns and is all gray |
| Game.DefaultShapePlacement | src/main.rs:106-107 | the blue 2x2 default shape fits the empty board at the origin, and after it is committed there, placing it again fails |

## Left out

- The f32 placement maths of `superimpose` (src/board.rs:219-230, 240-241) is not modelled. The model takes an integer offset (dx, dy) instead.
  - In exact arithmetic, with the cell sum `x + o` non-negative, Rust's round-half-away-from-zero gives `x + floor(o + 0.5)`, which is one integer offset for the whole shape.
  - In exact arithmetic the two rules also differ at negative ties (-0.5, -1.5, ...). Only -0.5 matters: Rust rounds it to -1, off the board, while the integer offset would put that cell on column or row 0.
  - In f32 the sum `x as f32 + offset` (src/board.rs:240-241) is itself rounded, and near a tie it can land on the tie. Then cells of one shape round to different offsets. For example, take a shape 3 cells wide with `translation.0 = 0.099999994`: cells 0, 1 and 2 land on columns 0, 1 and 3. The source can therefore place a shape stretched with a gap, and no single `(dx, dy)` of the model expresses that placement.
- Bevy presentation is not modelled. This covers entity and sprite spawning, the overlay colouring, `update_board`, the camera, cursor conversion and `global_extents`. It is framework code with no placement logic.
- Randomness is not modelled: `Distribution<TileColor>`, the random pool index and the random colour after a commit. The draw is outside the core, and the pool is given as a value.
- `From<TileColor> for Color` is not modelled. It only maps colours to floating-point RGBA of a foreign type.
- `fmt::Result` errors are not modelled: a write is assumed to succeed, so each `Display` produces a string.
- Panics are not control flow in the model. `from_pattern` returns a `Result` whose `Failure` names the panic.
- The pattern is a `seq<char>`. Rust's `len()` counts bytes, which matches the character count only for ASCII.
- The product `w * h` is unbounded. A `usize` overflow of it is not modelled.
- The superimposition grid at src/board.rs:232 is declared with its width and height swapped. Both are 20, so the model uses one 20-by-20 grid.
- The `entities` and `extents` of the `Board` component in `src/main.rs` are presentation state and are not modelled. Only its grid is.
- The generic `Default` for `Grid` is modelled with its default value passed explicitly (`DefaultGrid(v, w, h)`). `Option`'s default is `None`.
- Shapes.RotatedBox: the turned shape's bounds are stated as height `w` and width at most `h`, not `(h, w)`. With row 0 empty the turned width is smaller: a lone cell at (1, 1) has bounds (2, 2) and turns to bounds (1, 2). Shapes.RotatedNormalized states `(h, w)` for shapes occupying row 0 and column 0, which every catalog shape does.
- Shapes.FourTurns: for a non-empty shape, four turns are the identity only when it occupies row 0 and column 0 (the empty shape is unchanged by every turn). Shapes.FourTurnsMoveUnnormalized shows that the general case fails.
