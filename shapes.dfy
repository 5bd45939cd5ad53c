/** The shape algebra of the block puzzle: an 8-by-8 occupancy mask with a
    colour, its bounding box, quarter turns, rotation classes, the `#`/`.`
    pattern notation and its rendering, and the expansion of a list of base
    patterns into a shape catalog. */
module Shapes {
  import opened Results
  import opened Lines
  import Arith
  import Sets

  /** Side of the fixed shape mask (`[[bool; 8]; 8]`). */
  const MASK_SIZE: nat := 8

  datatype TileColor = Gray | Red | Green | Blue | Transparent

  /** The colour every parsed shape starts with (`TileColor::DEFAULT`). */
  const DEFAULT_COLOR: TileColor := Gray

  predicate IsMask(m: seq<seq<bool>>)
  {
    |m| == MASK_SIZE && forall i | 0 <= i < |m| :: |m[i]| == MASK_SIZE
  }

  type Mask = m: seq<seq<bool>> | IsMask(m)
    witness seq(MASK_SIZE, _ => seq(MASK_SIZE, _ => false))

  /** `fields[i][j]` is row `i`, column `j`. */
  datatype Shape = Shape(color: TileColor, fields: Mask)

  /** Every occupied cell of `m` lies in the `w`-wide, `h`-high box at the origin. */
  ghost predicate Encloses(m: Mask, w: nat, h: nat)
  {
    forall i, j | 0 <= i < MASK_SIZE && 0 <= j < MASK_SIZE && m[i][j] :: j < w && i < h
  }

  /** Row `i` holds an occupied cell. */
  ghost predicate RowOccupied(m: seq<seq<bool>>, i: nat)
    requires i < |m| && |m[i]| == MASK_SIZE
  {
    exists j | 0 <= j < MASK_SIZE :: m[i][j]
  }

  /** Column `j` holds an occupied cell. */
  ghost predicate ColumnOccupied(m: seq<seq<bool>>, j: nat)
    requires j < MASK_SIZE && forall i | 0 <= i < |m| :: |m[i]| == MASK_SIZE
  {
    exists i | 0 <= i < |m| :: m[i][j]
  }

  /** The box encloses `m` and its last column and last row are each occupied somewhere. */
  ghost predicate Tight(m: Mask, w: nat, h: nat)
  {
    && w <= MASK_SIZE && h <= MASK_SIZE
    && Encloses(m, w, h)
    && (w > 0 ==> ColumnOccupied(m, w - 1))
    && (h > 0 ==> RowOccupied(m, h - 1))
  }

  ghost predicate Empty(m: Mask)
  {
    forall i, j | 0 <= i < MASK_SIZE && 0 <= j < MASK_SIZE :: !m[i][j]
  }

  // ---------------------------------------------------------------------
  // bounds
  // ---------------------------------------------------------------------

  function Max(a: nat, b: nat): nat
  {
    if a < b then b else a
  }

  /** The inner fold of `bounds`: one past the last occupied column of a row. */
  function RowWidth(row: seq<bool>): (w: nat)
    ensures w <= |row|
    ensures forall j | 0 <= j < |row| && row[j] :: j < w
    ensures w > 0 ==> row[w - 1]
  {
    if |row| == 0 then 0
    else
      var maxX := RowWidth(row[..|row| - 1]);
      if row[|row| - 1] then Max(maxX, |row|) else maxX
  }

  /** The outer fold of `bounds` over the first `|rows|` rows of a mask. */
  function BoundsFold(rows: seq<seq<bool>>): (r: (nat, nat))
    requires forall i | 0 <= i < |rows| :: |rows[i]| == MASK_SIZE
    ensures r.0 <= MASK_SIZE && r.1 <= |rows|
    ensures forall i, j | 0 <= i < |rows| && 0 <= j < MASK_SIZE && rows[i][j] :: j < r.0 && i < r.1
    ensures r.0 > 0 ==> ColumnOccupied(rows, r.0 - 1)
    ensures r.1 > 0 ==> RowOccupied(rows, r.1 - 1)
  {
    if |rows| == 0 then (0, 0)
    else
      var acc := BoundsFold(rows[..|rows| - 1]);
      var i := |rows| - 1;
      var maxXInRow := RowWidth(rows[i]);
      (Max(acc.0, maxXInRow), Max(acc.1, if maxXInRow > 0 then i + 1 else acc.1))
  }

  /** The bounding box `(width, height)` anchored at the origin: tight, at most
      8 by 8, and `(0, 0)` exactly for the empty mask. */
  function Bounds(s: Shape): (r: (nat, nat))
    ensures Tight(s.fields, r.0, r.1)
    ensures r == (0, 0) <==> Empty(s.fields)
  {
    BoundsFold(s.fields)
  }

  /** A tight box is the bounding box. */
  lemma BoundsUnique(s: Shape, w: nat, h: nat)
    requires Tight(s.fields, w, h)
    ensures Bounds(s) == (w, h)
  {
  }

  // ---------------------------------------------------------------------
  // rotate_90
  // ---------------------------------------------------------------------

  /** The quarter turn: cell `(i, j)` of the `w`-by-`h` box goes to row `j`,
      column `h - 1 - i`; everything outside the turned box is empty. */
  function Rotated(s: Shape): (r: Shape)
    ensures r.color == s.color
  {
    var (w, h) := Bounds(s);
    Shape(s.color, seq(MASK_SIZE, a requires 0 <= a < MASK_SIZE => seq(MASK_SIZE, b requires 0 <= b < MASK_SIZE => a < w && b < h && s.fields[h - 1 - b][a])))
  }

  /** `rotate_90`: fills a fresh mask in two nested loops. */
  method Rotate90(s: Shape) returns (r: Shape)
    ensures r == Rotated(s)
  {
    var newFields: seq<seq<bool>> := seq(MASK_SIZE, _ => seq(MASK_SIZE, _ => false));
    var (width, height) := Bounds(s);
    for i := 0 to height
      invariant IsMask(newFields)
      invariant forall a, b | 0 <= a < MASK_SIZE && 0 <= b < MASK_SIZE ::
        newFields[a][b] == (a < width && b < height && height - 1 - b < i && s.fields[height - 1 - b][a])
    {
      for j := 0 to width
        invariant IsMask(newFields)
        invariant forall a, b | 0 <= a < MASK_SIZE && 0 <= b < MASK_SIZE ::
          newFields[a][b] == (a < width && b < height
                              && (height - 1 - b < i || (height - 1 - b == i && a < j))
                              && s.fields[height - 1 - b][a])
      {
        newFields := newFields[j := newFields[j][height - i - 1 := s.fields[i][j]]];
      }
    }
    RotatedAt(s);
    MaskEq(newFields, Rotated(s).fields);
    r := Shape(s.color, newFields);
  }

  /** `s` turned `k` times. */
  function Rot(k: nat, s: Shape): Shape
  {
    if k == 0 then s else Rotated(Rot(k - 1, s))
  }

  ghost function TrueCells(m: Mask): set<(int, int)>
  {
    set i, j | 0 <= i < MASK_SIZE && 0 <= j < MASK_SIZE && m[i][j] :: (i, j)
  }

  lemma MaskEq(m: Mask, n: Mask)
    requires forall i, j | 0 <= i < MASK_SIZE && 0 <= j < MASK_SIZE :: m[i][j] == n[i][j]
    ensures m == n
  {
    forall i | 0 <= i < MASK_SIZE
      ensures m[i] == n[i]
    {
    }
  }

  /** `n` is `m` turned a quarter turn clockwise inside the `w`-by-`h` box:
      row `a`, column `b` of `n` is row `h - 1 - b`, column `a` of `m`, and
      `n` is empty outside the turned `h`-by-`w` box. */
  ghost predicate QuarterTurnOf(m: Mask, n: Mask, w: nat, h: nat)
    requires w <= MASK_SIZE && h <= MASK_SIZE
  {
    forall a, b | 0 <= a < MASK_SIZE && 0 <= b < MASK_SIZE ::
      n[a][b] == (a < w && b < h && m[h - 1 - b][a])
  }

  /** `n` is `m` turned by half a turn inside the `w`-by-`h` box. */
  ghost predicate HalfTurnOf(m: Mask, n: Mask, w: nat, h: nat)
    requires w <= MASK_SIZE && h <= MASK_SIZE
  {
    forall a, b | 0 <= a < MASK_SIZE && 0 <= b < MASK_SIZE ::
      n[a][b] == (a < h && b < w && m[h - 1 - a][w - 1 - b])
  }

  /** `rotate_90` turns the shape a quarter turn inside its bounding box and
      keeps its colour. */
  lemma RotatedAt(s: Shape)
    ensures Rotated(s).color == s.color
    ensures QuarterTurnOf(s.fields, Rotated(s).fields, Bounds(s).0, Bounds(s).1)
  {
  }

  lemma RotOnce(s: Shape)
    ensures Rot(1, s) == Rotated(s)
    ensures Rot(2, s) == Rotated(Rotated(s))
    ensures Rot(3, s) == Rotated(Rotated(Rotated(s)))
    ensures Rot(4, s) == Rotated(Rotated(Rotated(Rotated(s))))
  {
    assert Rot(0, s) == s;
  }

  /** A quarter turn of a mask that fits its box keeps the number of occupied
      cells: `(i, j)` goes to `(j, h - 1 - i)`. */
  lemma QuarterTurnCount(m: Mask, n: Mask, w: nat, h: nat)
    requires w <= MASK_SIZE && h <= MASK_SIZE && Encloses(m, w, h)
    requires QuarterTurnOf(m, n, w, h)
    ensures |TrueCells(n)| == |TrueCells(m)|
  {
    var f := (p: (int, int)) => (p.1, h - 1 - p.0);
    forall q | q in TrueCells(n)
      ensures exists p | p in TrueCells(m) :: f(p) == q
    {
      var (a, b) := q;
      assert (h - 1 - b, a) in TrueCells(m);
      assert f((h - 1 - b, a)) == q;
    }
    forall p | p in TrueCells(m)
      ensures f(p) in TrueCells(n)
    {
      assert n[p.1][h - 1 - p.0];
    }
    Sets.InjectiveImageCard(TrueCells(m), TrueCells(n), f);
  }

  /** What a quarter turn of a tight mask occupies: it fits the transposed
      box, its last row is the old last column, its first column the old last
      row, its last column the old first row and its first row the old first
      column. */
  lemma QuarterTurnBox(m: Mask, n: Mask, w: nat, h: nat)
    requires Tight(m, w, h) && QuarterTurnOf(m, n, w, h)
    ensures Encloses(n, h, w)
    ensures w > 0 ==> RowOccupied(n, w - 1)
    ensures h > 0 ==> ColumnOccupied(n, 0)
    ensures h > 0 && RowOccupied(m, 0) ==> ColumnOccupied(n, h - 1)
    ensures w > 0 && ColumnOccupied(m, 0) ==> RowOccupied(n, 0)
  {
    if w > 0 {
      var i :| 0 <= i < MASK_SIZE && m[i][w - 1];
      assert n[w - 1][h - 1 - i];
    }
    if h > 0 {
      var j :| 0 <= j < MASK_SIZE && m[h - 1][j];
      assert n[j][0];
      if RowOccupied(m, 0) {
        var j0 :| 0 <= j0 < MASK_SIZE && m[0][j0];
        assert n[j0][h - 1];
      }
    }
    if w > 0 && ColumnOccupied(m, 0) {
      var i0 :| 0 <= i0 < MASK_SIZE && m[i0][0];
      assert n[0][h - 1 - i0];
    }
  }

  /** A tight box lies within every enclosing box. */
  lemma TightWithin(m: Mask, w: nat, h: nat, w2: nat, h2: nat)
    requires Tight(m, w, h) && Encloses(m, w2, h2)
    ensures w <= w2 && h <= h2
  {
    if w > 0 {
      var i :| 0 <= i < MASK_SIZE && m[i][w - 1];
    }
    if h > 0 {
      var j :| 0 <= j < MASK_SIZE && m[h - 1][j];
    }
  }

  /** An occupied row lies inside the tight box. */
  lemma TightRow(m: Mask, w: nat, h: nat, i: nat)
    requires Tight(m, w, h) && i < MASK_SIZE && RowOccupied(m, i)
    ensures i < h
  {
    var j :| 0 <= j < MASK_SIZE && m[i][j];
  }

  /** A quarter turn keeps the number of occupied cells. */
  lemma RotatedCount(s: Shape)
    ensures |TrueCells(Rotated(s).fields)| == |TrueCells(s.fields)|
  {
    RotatedAt(s);
    QuarterTurnCount(s.fields, Rotated(s).fields, Bounds(s).0, Bounds(s).1);
  }

  /** A quarter turn keeps every occupied cell inside the turned box: the
      turned shape is as high as the original is wide and at most as wide as
      it is high. */
  lemma RotatedBox(s: Shape)
    ensures Encloses(Rotated(s).fields, Bounds(s).1, Bounds(s).0)
    ensures Bounds(Rotated(s)).1 == Bounds(s).0
    ensures Bounds(Rotated(s)).0 <= Bounds(s).1
  {
    RotatedAt(s);
    TurnedBox(s.fields, Rotated(s).fields, Bounds(s).0, Bounds(s).1,
      Bounds(Rotated(s)).0, Bounds(Rotated(s)).1);
  }

  /** The mask-level content of `RotatedBox`. */
  lemma TurnedBox(m: Mask, n: Mask, w: nat, h: nat, rw: nat, rh: nat)
    requires Tight(m, w, h) && QuarterTurnOf(m, n, w, h) && Tight(n, rw, rh)
    ensures Encloses(n, h, w) && rh == w && rw <= h
  {
    QuarterTurnBox(m, n, w, h);
    TightWithin(n, rw, rh, h, w);
    if w > 0 {
      TightRow(n, rw, rh, w - 1);
    }
  }

  /** Row 0 and column 0 are both occupied: the shape touches the origin's edges. */
  ghost predicate Normalized(s: Shape)
  {
    RowOccupied(s.fields, 0) && ColumnOccupied(s.fields, 0)
  }

  /** A normalised shape has a non-empty box. */
  lemma NormalizedBox(s: Shape)
    requires Normalized(s)
    ensures Bounds(s).0 > 0 && Bounds(s).1 > 0
  {
    var j :| 0 <= j < MASK_SIZE && s.fields[0][j];
  }

  /** A quarter turn of a normalised shape is normalised and has the
      transposed bounding box. */
  lemma RotatedNormalized(s: Shape)
    requires Normalized(s)
    ensures Normalized(Rotated(s))
    ensures Bounds(Rotated(s)) == (Bounds(s).1, Bounds(s).0)
  {
    var (w, h) := Bounds(s);
    var n := Rotated(s).fields;
    NormalizedBox(s);
    RotatedAt(s);
    QuarterTurnBox(s.fields, n, w, h);
    BoundsUnique(Rotated(s), h, w);
  }

  /** Two quarter turns, the second in the transposed box, make a half turn. */
  lemma HalfTurnOfQuarters(m: Mask, n: Mask, p: Mask, w: nat, h: nat)
    requires w <= MASK_SIZE && h <= MASK_SIZE
    requires QuarterTurnOf(m, n, w, h) && QuarterTurnOf(n, p, h, w)
    ensures HalfTurnOf(m, p, w, h)
  {
    forall a, b | 0 <= a < MASK_SIZE && 0 <= b < MASK_SIZE
      ensures p[a][b] == (a < h && b < w && m[h - 1 - a][w - 1 - b])
    {
      if a < h && b < w {
        assert p[a][b] == n[w - 1 - b][a];
      }
    }
  }

  /** Two half turns of a mask that fits its box give the mask back. */
  lemma HalfTurnTwice(m: Mask, n: Mask, p: Mask, w: nat, h: nat)
    requires w <= MASK_SIZE && h <= MASK_SIZE && Encloses(m, w, h)
    requires HalfTurnOf(m, n, w, h) && HalfTurnOf(n, p, w, h)
    ensures p == m
  {
    forall a, b | 0 <= a < MASK_SIZE && 0 <= b < MASK_SIZE
      ensures p[a][b] == m[a][b]
    {
      if a < h && b < w {
        assert n[h - 1 - a][w - 1 - b] == m[a][b];
      }
    }
    MaskEq(p, m);
  }

  /** Half a turn of a normalised shape is normalised and keeps the box. */
  lemma HalfTurnNormalized(s: Shape)
    requires Normalized(s)
    ensures Normalized(Rotated(Rotated(s)))
    ensures Bounds(Rotated(Rotated(s))) == Bounds(s)
  {
    RotatedNormalized(s);
    RotatedNormalized(Rotated(s));
  }

  /** Half a turn of a normalised shape turns every cell about the centre of
      its box. */
  lemma HalfTurnCells(s: Shape)
    requires Normalized(s)
    ensures HalfTurnOf(s.fields, Rotated(Rotated(s)).fields, Bounds(s).0, Bounds(s).1)
  {
    RotatedNormalized(s);
    RotatedAt(s);
    RotatedAt(Rotated(s));
    HalfTurnOfQuarters(s.fields, Rotated(s).fields, Rotated(Rotated(s)).fields, Bounds(s).0, Bounds(s).1);
  }

  /** Two half turns of shapes of one colour give the first shape back. */
  lemma HalfTurnsBack(s: Shape, t: Shape, u: Shape, w: nat, h: nat)
    requires w <= MASK_SIZE && h <= MASK_SIZE && Encloses(s.fields, w, h)
    requires s.color == t.color == u.color
    requires HalfTurnOf(s.fields, t.fields, w, h) && HalfTurnOf(t.fields, u.fields, w, h)
    ensures u == s
  {
    HalfTurnTwice(s.fields, t.fields, u.fields, w, h);
  }

  /** A half turn of `t`, itself a half turn of `s`, gives `s` back. */
  lemma HalfTurnBack(s: Shape, t: Shape)
    requires Normalized(s) && Normalized(t) && Bounds(t) == Bounds(s) && t.color == s.color
    requires HalfTurnOf(s.fields, t.fields, Bounds(s).0, Bounds(s).1)
    ensures Rotated(Rotated(t)) == s
  {
    HalfTurnCells(t);
    HalfTurnsBack(s, t, Rotated(Rotated(t)), Bounds(s).0, Bounds(s).1);
  }

  /** Four quarter turns of a normalised shape give it back. */
  lemma FourRotated(s: Shape)
    requires Normalized(s)
    ensures Rotated(Rotated(Rotated(Rotated(s)))) == s
  {
    HalfTurnNormalized(s);
    HalfTurnCells(s);
    HalfTurnBack(s, Rotated(Rotated(s)));
  }

  /** Four quarter turns give back a normalised shape. */
  lemma FourTurns(s: Shape)
    requires Normalized(s)
    ensures Rot(4, s) == s
  {
    FourRotated(s);
    RotOnce(s);
  }

  /** The gray shape whose only occupied cell is row `i`, column `j`. */
  function Single(i: nat, j: nat): Shape
    requires i < MASK_SIZE && j < MASK_SIZE
  {
    Shape(Gray, seq(MASK_SIZE, a requires 0 <= a < MASK_SIZE => seq(MASK_SIZE, b requires 0 <= b < MASK_SIZE => a == i && b == j)))
  }

  /** A lone cell at row `i`, column `j` turns to row `j`, column 0. */
  lemma RotatedSingle(i: nat, j: nat)
    requires i < MASK_SIZE && j < MASK_SIZE
    ensures Rotated(Single(i, j)) == Single(j, 0)
  {
    var s := Single(i, j);
    assert s.fields[i][j];
    BoundsUnique(s, j + 1, i + 1);
    RotatedAt(s);
    MaskEq(Rotated(s).fields, Single(j, 0).fields);
  }

  /** Lone cells at different places make different shapes. */
  lemma SingleDistinct(i: nat, j: nat, k: nat, l: nat)
    requires i < MASK_SIZE && j < MASK_SIZE && k < MASK_SIZE && l < MASK_SIZE
    requires (i, j) != (k, l)
    ensures Single(i, j) != Single(k, l)
  {
    assert Single(i, j).fields[i][j] != Single(k, l).fields[i][j];
  }

  /** Four quarter turns take a lone cell anywhere to the corner. */
  lemma FourTurnsSingle(i: nat, j: nat)
    requires i < MASK_SIZE && j < MASK_SIZE
    ensures Rotated(Rotated(Rotated(Rotated(Single(i, j))))) == Single(0, 0)
  {
    RotatedSingle(i, j);
    RotatedSingle(j, 0);
    RotatedSingle(0, 0);
  }

  /** Four quarter turns are not the identity on shapes that are not
      normalised: a lone cell anywhere ends up in the corner, so every lone
      cell other than the corner one moves. */
  lemma FourTurnsMoveUnnormalized(i: nat, j: nat)
    requires i < MASK_SIZE && j < MASK_SIZE
    ensures Rot(4, Single(i, j)) == Single(0, 0)
    ensures (i, j) != (0, 0) ==> Rot(4, Single(i, j)) != Single(i, j)
  {
    RotOnce(Single(i, j));
    FourTurnsSingle(i, j);
    if (i, j) != (0, 0) {
      SingleDistinct(0, 0, i, j);
    }
  }

  // ---------------------------------------------------------------------
  // equivalents
  // ---------------------------------------------------------------------

  /** `Vec::contains`: a scan from the front for an equal shape. */
  function Contains(shapes: seq<Shape>, x: Shape): bool
  {
    |shapes| > 0 && (shapes[0] == x || Contains(shapes[1..], x))
  }

  lemma {:induction false} ContainsIn(shapes: seq<Shape>, x: Shape)
    ensures Contains(shapes, x) <==> x in shapes
  {
    if |shapes| > 0 {
      ContainsIn(shapes[1..], x);
      assert shapes == [shapes[0]] + shapes[1..];
    }
  }

  /** Push `s` unless the list already contains it. */
  function PushNew(shapes: seq<Shape>, s: Shape): seq<Shape>
  {
    if Contains(shapes, s) then shapes else shapes + [s]
  }

  /** The rotation class, deduplicated against the whole list built so far. */
  function EquivalentsOf(s: Shape): seq<Shape>
  {
    PushTurns([s], s, 3)
  }

  /** `n` more rounds of: turn `last` once more and push it if absent. */
  function PushTurns(shapes: seq<Shape>, last: Shape, n: nat): seq<Shape>
    decreases n
  {
    if n == 0 then shapes
    else
      var next := Rotated(last);
      PushTurns(PushNew(shapes, next), next, n - 1)
  }

  /** The three rounds of `equivalents` written out. */
  lemma EquivalentsUnfold(s: Shape)
    ensures EquivalentsOf(s) ==
      PushNew(PushNew(PushNew([s], Rotated(s)), Rotated(Rotated(s))), Rotated(Rotated(Rotated(s))))
  {
    var r1 := Rotated(s);
    var r2 := Rotated(r1);
    var r3 := Rotated(r2);
    var l1 := PushNew([s], r1);
    var l2 := PushNew(l1, r2);
    var l3 := PushNew(l2, r3);
    assert PushTurns(l2, r2, 1) == PushTurns(l3, r3, 0);
    assert PushTurns(l1, r1, 2) == PushTurns(l2, r2, 1);
  }

  /** `if !shapes.contains(&x) { shapes.push(x) }` */
  method PushIfAbsent(shapes: seq<Shape>, x: Shape) returns (r: seq<Shape>)
    ensures r == PushNew(shapes, x)
  {
    r := shapes;
    if !Contains(r, x) {
      r := r + [x];
    }
  }

  /** `equivalents`: pushes each further quarter turn after a `contains` check. */
  method Equivalents(s: Shape) returns (shapes: seq<Shape>)
    ensures shapes == EquivalentsOf(s)
  {
    shapes := [s];
    var rot90 := Rotate90(s);
    shapes := PushIfAbsent(shapes, rot90);
    var rot180 := Rotate90(rot90);
    shapes := PushIfAbsent(shapes, rot180);
    var rot270 := Rotate90(rot180);
    shapes := PushIfAbsent(shapes, rot270);
    EquivalentsUnfold(s);
  }

  ghost predicate Distinct(shapes: seq<Shape>)
  {
    forall i, j | 0 <= i < j < |shapes| :: shapes[i] != shapes[j]
  }

  lemma PushNewDistinct(shapes: seq<Shape>, s: Shape)
    requires Distinct(shapes)
    ensures Distinct(PushNew(shapes, s))
    ensures s in PushNew(shapes, s)
    ensures forall x | x in PushNew(shapes, s) :: x in shapes || x == s
  {
    ContainsIn(shapes, s);
  }

  /** The shape turned zero, one, two and three times. */
  function Turns(s: Shape): seq<Shape>
  {
    [s, Rotated(s), Rotated(Rotated(s)), Rotated(Rotated(Rotated(s)))]
  }

  /** Three rounds of `PushNew` onto `[a]` keep `a` first and hold exactly
      `a`, `b`, `c` and `d`, each once. */
  lemma PushNewThree(a: Shape, b: Shape, c: Shape, d: Shape)
    ensures var l := PushNew(PushNew(PushNew([a], b), c), d);
      && 1 <= |l| <= 4 && l[0] == a && Distinct(l)
      && (forall x | x in [a, b, c, d] :: x in l)
      && forall x | x in l :: x in [a, b, c, d]
  {
    var l1 := PushNew([a], b);
    var l2 := PushNew(l1, c);
    PushNewDistinct([a], b);
    PushNewDistinct(l1, c);
    PushNewDistinct(l2, d);
  }

  /** `equivalents` starts with the shape itself, holds one to four pairwise
      distinct shapes, and holds exactly the shape turned zero to three times. */
  lemma EquivalentsClass(s: Shape)
    ensures |EquivalentsOf(s)| >= 1 && EquivalentsOf(s)[0] == s
    ensures |EquivalentsOf(s)| <= 4
    ensures Distinct(EquivalentsOf(s))
    ensures forall x | x in EquivalentsOf(s) :: x in Turns(s)
    ensures forall x | x in Turns(s) :: x in EquivalentsOf(s)
  {
    EquivalentsUnfold(s);
    PushNewThree(s, Rotated(s), Rotated(Rotated(s)), Rotated(Rotated(Rotated(s))));
  }

  /** `PushNew` rounds over shapes of one colour give a list of that colour. */
  lemma PushNewColor(a: Shape, b: Shape, c: Shape, d: Shape)
    requires b.color == a.color && c.color == a.color && d.color == a.color
    ensures forall x | x in PushNew(PushNew(PushNew([a], b), c), d) :: x.color == a.color
  {
    PushNewThree(a, b, c, d);
  }

  /** Every shape of `equivalents` has the shape's colour. */
  lemma EquivalentsColor(s: Shape)
    ensures forall x | x in EquivalentsOf(s) :: x.color == s.color
  {
    EquivalentsUnfold(s);
    PushNewColor(s, Rotated(s), Rotated(Rotated(s)), Rotated(Rotated(Rotated(s))));
  }

  // ---------------------------------------------------------------------
  // from_pattern
  // ---------------------------------------------------------------------

  /** Why `from_pattern` panics. */
  datatype PatternError = LengthMismatch | OutOfBounds | InvalidChar(c: char)

  /** The first fault met while scanning the pattern from index `i` on: a
      position outside the mask comes before a bad character at the same index. */
  function FirstFault(w: nat, pat: string, i: nat): Option<PatternError>
    requires i <= |pat| && (|pat| > 0 ==> w > 0)
    decreases |pat| - i
  {
    if i == |pat| then None
    else if i % w >= MASK_SIZE || i / w >= MASK_SIZE then Some(OutOfBounds)
    else if pat[i] != '#' && pat[i] != '.' then Some(InvalidChar(pat[i]))
    else FirstFault(w, pat, i + 1)
  }

  /** The mask after the first `n` characters have been written, row-major. */
  function PatternFields(w: nat, pat: string, n: nat): Mask
    requires n <= |pat|
  {
    seq(MASK_SIZE, y requires 0 <= y < MASK_SIZE => seq(MASK_SIZE, x requires 0 <= x < MASK_SIZE => x < w && y * w + x < n && pat[y * w + x] == '#'))
  }

  function Parsed(w: nat, h: nat, pat: string): Result<Shape, PatternError>
  {
    if |pat| != w * h then Failure(LengthMismatch)
    else match FirstFault(w, pat, 0)
      case Some(e) => Failure(e)
      case None => Success(Shape(DEFAULT_COLOR, PatternFields(w, pat, |pat|)))
  }

  /** `from_pattern`, with its panics as the `Failure` path. */
  method FromPattern(w: nat, h: nat, pat: string) returns (r: Result<Shape, PatternError>)
    ensures r == Parsed(w, h, pat)
  {
    if |pat| != w * h {
      return Failure(LengthMismatch);
    }
    var fields: seq<seq<bool>> := seq(MASK_SIZE, _ => seq(MASK_SIZE, _ => false));
    MaskEq(fields, PatternFields(w, pat, 0));
    for i := 0 to |pat|
      invariant fields == PatternFields(w, pat, i)
      invariant FirstFault(w, pat, 0) == FirstFault(w, pat, i)
    {
      var x := i % w;
      var y := i / w;
      if x >= MASK_SIZE || y >= MASK_SIZE {
        return Failure(OutOfBounds);
      }
      var c := pat[i];
      var cell: bool;
      if c == '#' {
        cell := true;
      } else if c == '.' {
        cell := false;
      } else {
        return Failure(InvalidChar(c));
      }
      PatternFieldsStep(w, pat, i);
      fields := fields[y := fields[y][x := cell]];
    }
    r := Success(Shape(DEFAULT_COLOR, fields));
  }

  /** Writing character `i` at row `i / w`, column `i % w` extends the mask by one character. */
  lemma PatternFieldsStep(w: nat, pat: string, i: nat)
    requires i < |pat| && 0 < w && i % w < MASK_SIZE && i / w < MASK_SIZE
    ensures PatternFields(w, pat, i + 1)
         == var m := PatternFields(w, pat, i);
            m[i / w := m[i / w][i % w := pat[i] == '#']]
  {
    var m, n := PatternFields(w, pat, i), PatternFields(w, pat, i + 1);
    var m' := m[i / w := m[i / w][i % w := pat[i] == '#']];
    forall y, x | 0 <= y < MASK_SIZE && 0 <= x < MASK_SIZE
      ensures n[y][x] == m'[y][x]
    {
      if x < w && y * w + x == i {
        Arith.DivModUnique(i, w, y, x);
      }
    }
    MaskEq(n, m');
  }

  /** `pat` is accepted: right length, inside the mask, only `#` and `.`. */
  predicate ValidPattern(w: nat, h: nat, pat: string)
  {
    && |pat| == w * h
    && (|pat| > 0 ==> w <= MASK_SIZE && h <= MASK_SIZE)
    && forall i | 0 <= i < |pat| :: pat[i] == '#' || pat[i] == '.'
  }

  lemma {:induction false} FirstFaultNone(w: nat, pat: string, i: nat)
    requires i <= |pat| && (|pat| > 0 ==> w > 0)
    ensures FirstFault(w, pat, i) == None <==>
      forall k | i <= k < |pat| :: k % w < MASK_SIZE && k / w < MASK_SIZE && (pat[k] == '#' || pat[k] == '.')
    decreases |pat| - i
  {
    if i < |pat| {
      FirstFaultNone(w, pat, i + 1);
    }
  }

  lemma {:induction false} FirstFaultChar(w: nat, pat: string, i: nat)
    requires i <= |pat| && (|pat| > 0 ==> w > 0)
    ensures FirstFault(w, pat, i).Some? && FirstFault(w, pat, i).value.InvalidChar? ==>
      var c := FirstFault(w, pat, i).value.c;
      c != '#' && c != '.' && FirstBadAt(pat, i, c)
    ensures FirstFault(w, pat, i) == Some(OutOfBounds) ==>
      exists k | i <= k < |pat| :: k % w >= MASK_SIZE || k / w >= MASK_SIZE
    ensures FirstFault(w, pat, i) != Some(LengthMismatch)
    decreases |pat| - i
  {
    if i < |pat| {
      FirstFaultChar(w, pat, i + 1);
      var f := FirstFault(w, pat, i);
      if f.Some? && f.value.InvalidChar? {
        if pat[i] != '#' && pat[i] != '.' {
          assert pat[i] == f.value.c;
        } else {
          var k :| i + 1 <= k < |pat| && pat[k] == f.value.c &&
            forall k' | i + 1 <= k' < k :: pat[k'] == '#' || pat[k'] == '.';
          assert forall k' | i <= k' < k :: pat[k'] == '#' || pat[k'] == '.';
        }
      }
    }
  }

  /** `c` occurs in `pat` at or after index `i`, and every character before
      that occurrence (from `i` on) is `#` or `.`: it is the first bad one. */
  ghost predicate FirstBadAt(pat: string, i: nat, c: char)
  {
    exists k | i <= k < |pat| :: pat[k] == c && forall k' | i <= k' < k :: pat[k'] == '#' || pat[k'] == '.'
  }

  /** All row-major indices of a non-empty `w`-by-`h` pattern fall inside the
      mask exactly when `w` and `h` are at most 8. */
  lemma IndicesInside(w: nat, h: nat, n: nat)
    requires n == w * h && n > 0
    ensures (forall k | 0 <= k < n :: k % w < MASK_SIZE && k / w < MASK_SIZE)
        <==> w <= MASK_SIZE && h <= MASK_SIZE
  {
    assert w > 0 && h > 0;
    if w <= MASK_SIZE && h <= MASK_SIZE {
      forall k | 0 <= k < n
        ensures k % w < MASK_SIZE && k / w < MASK_SIZE
      {
        Arith.IndexInside(k, w, h);
      }
    } else if w > MASK_SIZE {
      Arith.MulMono(1, h, w);
      Arith.DivModUnique(8, w, 0, 8);
      assert 8 % w >= MASK_SIZE;
    } else {
      Arith.MulMono(9, h, w);
      Arith.DivModUnique(8 * w, w, 8, 0);
      assert (8 * w) / w >= MASK_SIZE;
    }
  }

  /** `from_pattern` succeeds exactly on a valid pattern. */
  lemma ParsedValid(w: nat, h: nat, pat: string)
    ensures Parsed(w, h, pat).Success? <==> ValidPattern(w, h, pat)
  {
    if |pat| == w * h {
      FirstFaultNone(w, pat, 0);
      if |pat| > 0 {
        IndicesInside(w, h, |pat|);
      }
    }
  }

  /** `from_pattern` fails exactly on a length mismatch, on dimensions over 8
      for a non-empty pattern, or on a character other than `#` and `.`; a
      length mismatch is reported as such, and with dimensions inside the mask
      the only other error is a bad character of the pattern. */
  lemma FromPatternErrors(w: nat, h: nat, pat: string)
    ensures Parsed(w, h, pat).Success? <==> ValidPattern(w, h, pat)
    ensures Parsed(w, h, pat) == Failure(LengthMismatch) <==> |pat| != w * h
    ensures Parsed(w, h, pat).Failure? && |pat| == w * h && w <= MASK_SIZE && h <= MASK_SIZE ==>
      var e := Parsed(w, h, pat).error;
      e.InvalidChar? && e.c != '#' && e.c != '.' && FirstBadAt(pat, 0, e.c)
  {
    if |pat| == w * h {
      FirstFaultNone(w, pat, 0);
      FirstFaultChar(w, pat, 0);
      if |pat| > 0 {
        IndicesInside(w, h, |pat|);
      }
    }
  }

  /** A parsed shape is gray and holds `pat[y * w + x] == '#'` at row `y`,
      column `x` inside the declared box, and nothing outside it. */
  lemma FromPatternCells(w: nat, h: nat, pat: string, s: Shape)
    requires Parsed(w, h, pat) == Success(s)
    ensures s.color == DEFAULT_COLOR
    ensures HoldsPattern(s.fields, w, h, pat)
  {
    forall y, x | 0 <= y < MASK_SIZE && 0 <= x < MASK_SIZE
      ensures s.fields[y][x] == (y < h && x < w && y * w + x < |pat| && pat[y * w + x] == '#')
    {
      if x < w {
        Arith.RowMajorInside(y, x, w, h);
      }
    }
  }

  /** A valid pattern with a `#` in its first and last row and in its first
      and last column parses to a normalised shape whose bounding box is the
      declared `w`-by-`h` box. */
  lemma PatternBox(w: nat, h: nat, pat: string, top: nat, bottom: nat, left: nat, right: nat)
    requires ValidPattern(w, h, pat) && 0 < w && 0 < h
    requires top < w && pat[top] == '#'
    requires bottom < w && (h - 1) * w + bottom < |pat| && pat[(h - 1) * w + bottom] == '#'
    requires left < h && left * w < |pat| && pat[left * w] == '#'
    requires right < h && right * w + (w - 1) < |pat| && pat[right * w + (w - 1)] == '#'
    ensures Parsed(w, h, pat).Success?
    ensures Bounds(Parsed(w, h, pat).value) == (w, h)
    ensures Normalized(Parsed(w, h, pat).value)
  {
    ParsedValid(w, h, pat);
    var s := Parsed(w, h, pat).value;
    FromPatternCells(w, h, pat, s);
    assert s.fields[0][top] by {
      assert 0 * w + top == top;
    }
    assert s.fields[h - 1][bottom];
    assert s.fields[left][0] by {
      assert left * w + 0 == left * w;
    }
    assert s.fields[right][w - 1];
    assert Encloses(s.fields, w, h);
    BoundsUnique(s, w, h);
  }

  // ---------------------------------------------------------------------
  // Display for Shape
  // ---------------------------------------------------------------------

  function Row(s: Shape, i: nat, w: nat): string
    requires i < MASK_SIZE && w <= MASK_SIZE
  {
    seq(w, j requires 0 <= j < w => if s.fields[i][j] then '#' else '.')
  }

  /** The rows of the bounding box, as `#`/`.` text. */
  function Rows(s: Shape): seq<string>
  {
    var (w, h) := Bounds(s);
    seq(h, i requires 0 <= i < h => Row(s, i, w))
  }

  /** The rendering: the box's rows joined by single line breaks. */
  function Text(s: Shape): string
  {
    JoinLines(Rows(s))
  }

  /** One row of `fmt`: a `#` or `.` for each of the first `w` cells. */
  method FmtRow(s: Shape, i: nat, w: nat) returns (line: string)
    requires i < MASK_SIZE && w <= MASK_SIZE
    ensures line == Row(s, i, w)
  {
    line := "";
    for j := 0 to w
      invariant line == Row(s, i, w)[..j]
    {
      var c := if s.fields[i][j] then '#' else '.';
      line := line + [c];
    }
  }

  /** `fmt` for `Shape`: writes the box row by row, with a break after every
      row but the last. */
  method Fmt(s: Shape) returns (out: string)
    ensures out == Text(s)
  {
    var (width, height) := Bounds(s);
    ghost var rows := Rows(s);
    out := "";
    for i := 0 to height
      invariant out == JoinLines(rows[..i]) + (if 0 < i < height then "\n" else "")
    {
      var line := FmtRow(s, i, width);
      JoinPrefix(rows, i);
      out := out + line;
      if i < height - 1 {
        out := out + "\n";
      }
    }
    assert rows[..height] == rows;
  }

  /** Where row `i` starts in a rendering whose rows are `w` characters wide. */
  function TextRowStart(w: nat, i: nat): nat
  {
    i * (w + 1)
  }

  /** The rendering of a shape with bounds `(w, h)` is `h` lines of `w`
      characters with no trailing break: character `j` of line `i` is `#`
      exactly when cell `(i, j)` is occupied, and every line but the last
      ends in a break. An empty shape renders as the empty string. */
  lemma TextLayout(s: Shape)
    ensures Bounds(s).1 == 0 ==> Text(s) == ""
    ensures Bounds(s).1 > 0 ==> |Text(s)| == Bounds(s).1 * (Bounds(s).0 + 1) - 1
    ensures forall i: nat, j: nat | i < Bounds(s).1 && j < Bounds(s).0 ::
      TextRowStart(Bounds(s).0, i) + j < |Text(s)| &&
      Text(s)[TextRowStart(Bounds(s).0, i) + j] == if s.fields[i][j] then '#' else '.'
    ensures forall i: nat | i < Bounds(s).1 - 1 ::
      TextRowStart(Bounds(s).0, i) + Bounds(s).0 < |Text(s)| &&
      Text(s)[TextRowStart(Bounds(s).0, i) + Bounds(s).0] == '\n'
  {
    RowsAt(s);
    GridText(s.fields, Bounds(s).0, Bounds(s).1, Rows(s));
  }

  /** `TextLayout` for any rows that spell out the `w`-by-`h` corner of a mask. */
  lemma GridText(m: Mask, w: nat, h: nat, rows: seq<string>)
    requires w <= MASK_SIZE && h <= MASK_SIZE && |rows| == h
    requires forall i | 0 <= i < h :: |rows[i]| == w
    requires forall i, j | 0 <= i < h && 0 <= j < w :: rows[i][j] == if m[i][j] then '#' else '.'
    ensures h == 0 ==> JoinLines(rows) == ""
    ensures h > 0 ==> |JoinLines(rows)| == h * (w + 1) - 1
    ensures forall i: nat, j: nat | i < h && j < w ::
      TextRowStart(w, i) + j < |JoinLines(rows)| &&
      JoinLines(rows)[TextRowStart(w, i) + j] == if m[i][j] then '#' else '.'
    ensures forall i: nat | i < h - 1 ::
      TextRowStart(w, i) + w < |JoinLines(rows)| && JoinLines(rows)[TextRowStart(w, i) + w] == '\n'
  {
    assert Uniform(rows, w);
    if h > 0 {
      JoinLength(rows, w);
    }
    forall i: nat, j: nat | i < h && j < w
      ensures TextRowStart(w, i) + j < |JoinLines(rows)| &&
        JoinLines(rows)[TextRowStart(w, i) + j] == if m[i][j] then '#' else '.'
    {
      GridCell(m, w, h, rows, i, j);
    }
    assert forall i: nat, j: nat | i < h && j < w ::
      TextRowStart(w, i) + j < |JoinLines(rows)| &&
      JoinLines(rows)[TextRowStart(w, i) + j] == if m[i][j] then '#' else '.';
    forall i: nat | i < h - 1
      ensures TextRowStart(w, i) + w < |JoinLines(rows)| && JoinLines(rows)[TextRowStart(w, i) + w] == '\n'
    {
      JoinBreak(rows, w, i);
      assert TextRowStart(w, i) == i * (w + 1);
    }
  }

  lemma GridCell(m: Mask, w: nat, h: nat, rows: seq<string>, i: nat, j: nat)
    requires w <= MASK_SIZE && h <= MASK_SIZE && |rows| == h && Uniform(rows, w)
    requires i < h && j < w && rows[i][j] == if m[i][j] then '#' else '.'
    ensures TextRowStart(w, i) + j < |JoinLines(rows)|
    ensures JoinLines(rows)[TextRowStart(w, i) + j] == if m[i][j] then '#' else '.'
  {
    JoinCell(rows, w, i, j);
  }

  /** A mask holds `pat[y * w + x] == '#'` at row `y`, column `x` inside the
      `w`-by-`h` box, and nothing outside it. */
  ghost predicate HoldsPattern(m: Mask, w: nat, h: nat, pat: string)
  {
    forall y, x | 0 <= y < MASK_SIZE && 0 <= x < MASK_SIZE ::
      m[y][x] == (y < h && x < w && y * w + x < |pat| && pat[y * w + x] == '#')
  }

  /** The rendered rows are as many as the box is high, each as long as the
      box is wide, with `#` exactly at the occupied cells. */
  lemma RowsAt(s: Shape)
    ensures |Rows(s)| == Bounds(s).1
    ensures forall i | 0 <= i < |Rows(s)| :: |Rows(s)[i]| == Bounds(s).0
    ensures forall i, j | 0 <= i < |Rows(s)| && 0 <= j < |Rows(s)[i]| ::
      Rows(s)[i][j] == if s.fields[i][j] then '#' else '.'
  {
  }

  /** Row `i` of the rendering of a shape that holds a valid pattern in its
      bounding box is the `i`-th slice of `w` characters of the pattern. */
  lemma RowOfPattern(w: nat, h: nat, pat: string, s: Shape, i: nat)
    requires ValidPattern(w, h, pat) && HoldsPattern(s.fields, w, h, pat)
    requires Bounds(s) == (w, h) && i < h
    ensures Rows(s)[i] == Chunks(pat, w, h)[i]
  {
    RowsAt(s);
    ChunkCells(pat, w, h, i);
    RowOfCells(s.fields, w, h, pat, i, Rows(s)[i], Chunks(pat, w, h)[i]);
  }

  /** A row drawn from the cells of a mask that holds `pat` is the matching
      slice of `pat`. */
  lemma RowOfCells(m: Mask, w: nat, h: nat, pat: string, i: nat, row: string, chunk: string)
    requires ValidPattern(w, h, pat) && HoldsPattern(m, w, h, pat) && i < h
    requires |row| == w && |chunk| == w
    requires forall j | 0 <= j < |row| :: row[j] == if m[i][j] then '#' else '.'
    requires forall j | 0 <= j < w :: i * w + j < |pat| && chunk[j] == pat[i * w + j]
    ensures row == chunk
  {
    forall j | 0 <= j < w
      ensures row[j] == chunk[j]
    {
      assert m[i][j] == (pat[i * w + j] == '#');
    }
  }

  /** The slices of a pattern made of `#` and `.` hold no line break. */
  lemma ChunksNoBreaks(pat: string, w: nat, h: nat)
    requires |pat| == w * h && forall i | 0 <= i < |pat| :: pat[i] == '#' || pat[i] == '.'
    ensures NoBreaks(Chunks(pat, w, h))
  {
    var chunks := Chunks(pat, w, h);
    forall k, c | 0 <= k < |chunks| && 0 <= c < |chunks[k]|
      ensures chunks[k][c] != '\n'
    {
      ChunkAt(pat, w, h, k);
      assert chunks[k][c] == pat[k * w + c];
    }
  }

  /** Rendering a parsed pattern whose bounding box is its declared box gives
      the pattern cut into rows of `w` joined by line breaks, and deleting the
      breaks gives the pattern back. */
  lemma RenderParsed(w: nat, h: nat, pat: string, s: Shape)
    requires Parsed(w, h, pat) == Success(s) && Bounds(s) == (w, h)
    ensures Text(s) == JoinLines(Chunks(pat, w, h))
    ensures RemoveNewlines(Text(s)) == pat
  {
    ParsedValid(w, h, pat);
    FromPatternCells(w, h, pat, s);
    var rows, chunks := Rows(s), Chunks(pat, w, h);
    forall i | 0 <= i < h
      ensures rows[i] == chunks[i]
    {
      RowOfPattern(w, h, pat, s, i);
    }
    assert rows == chunks;
    ChunksNoBreaks(pat, w, h);
    RemoveNewlinesJoin(chunks);
    ConcatChunks(pat, w, h);
  }

  lemma {:induction false} ChunksOfConcat(rows: seq<string>, n: nat)
    requires Uniform(rows, n)
    ensures |Concat(rows)| == |rows| * n
    ensures Chunks(Concat(rows), n, |rows|) == rows
  {
    if |rows| > 0 {
      ChunksOfConcat(rows[1..], n);
      assert Concat(rows)[..n] == rows[0];
      assert Concat(rows)[n..] == Concat(rows[1..]);
    }
  }

  /** The rendering with its breaks deleted, cut into rows of the box's
      width, gives back the rendered rows. */
  lemma RenderedChunks(s: Shape)
    ensures var pat := RemoveNewlines(Text(s));
      && |pat| == Bounds(s).0 * Bounds(s).1
      && Chunks(pat, Bounds(s).0, Bounds(s).1) == Rows(s)
  {
    var (w, h) := Bounds(s);
    var rows := Rows(s);
    RowsAt(s);
    assert NoBreaks(rows);
    RemoveNewlinesJoin(rows);
    ChunksOfConcat(rows, w);
  }

  /** A string cut into `#`/`.` rows is a valid pattern when the box fits
      the mask. */
  lemma ValidOfRows(w: nat, h: nat, pat: string, rows: seq<string>)
    requires w <= MASK_SIZE && h <= MASK_SIZE
    requires |pat| == w * h && Chunks(pat, w, h) == rows
    requires forall i, j | 0 <= i < |rows| && 0 <= j < |rows[i]| :: rows[i][j] == '#' || rows[i][j] == '.'
    ensures ValidPattern(w, h, pat)
  {
    forall k | 0 <= k < |pat|
      ensures pat[k] == '#' || pat[k] == '.'
    {
      var y, x := Arith.RowMajorSplit(k, w, h);
      ChunkCell(pat, w, h, y, x);
    }
  }

  /** A mask whose rows, inside its box, are the `#`/`.` rows cut from `pat`
      holds `pat`. */
  lemma HoldsOfRows(m: Mask, w: nat, h: nat, pat: string, rows: seq<string>)
    requires w <= MASK_SIZE && h <= MASK_SIZE && Encloses(m, w, h)
    requires |pat| == w * h && Chunks(pat, w, h) == rows && Uniform(rows, w)
    requires forall i, j | 0 <= i < |rows| && 0 <= j < |rows[i]| ::
      rows[i][j] == if m[i][j] then '#' else '.'
    ensures HoldsPattern(m, w, h, pat)
  {
    forall y, x | 0 <= y < MASK_SIZE && 0 <= x < MASK_SIZE
      ensures m[y][x] == (y < h && x < w && y * w + x < |pat| && pat[y * w + x] == '#')
    {
      if y < h && x < w {
        ChunkCell(pat, w, h, y, x);
        assert rows[y][x] == pat[y * w + x];
      } else {
        assert !m[y][x];
      }
    }
  }

  /** The rendering with its breaks deleted is a valid pattern for the box,
      and the shape holds it. */
  lemma RenderedPattern(s: Shape)
    ensures ValidPattern(Bounds(s).0, Bounds(s).1, RemoveNewlines(Text(s)))
    ensures HoldsPattern(s.fields, Bounds(s).0, Bounds(s).1, RemoveNewlines(Text(s)))
  {
    RenderedChunks(s);
    RowsAt(s);
    ValidOfRows(Bounds(s).0, Bounds(s).1, RemoveNewlines(Text(s)), Rows(s));
    HoldsOfRows(s.fields, Bounds(s).0, Bounds(s).1, RemoveNewlines(Text(s)), Rows(s));
  }

  /** Two masks that hold the same pattern in the same box are equal. */
  lemma HoldsPatternUnique(m: Mask, n: Mask, w: nat, h: nat, pat: string)
    requires HoldsPattern(m, w, h, pat) && HoldsPattern(n, w, h, pat)
    ensures m == n
  {
    MaskEq(m, n);
  }

  /** Parsing the rendering (with its breaks deleted) against the bounding box
      gives the shape back, for every gray shape. */
  lemma ParseRendered(s: Shape)
    requires s.color == DEFAULT_COLOR
    ensures Parsed(Bounds(s).0, Bounds(s).1, RemoveNewlines(Text(s))) == Success(s)
  {
    var (w, h) := Bounds(s);
    var pat := RemoveNewlines(Text(s));
    RenderedPattern(s);
    ParsedValid(w, h, pat);
    var t := Parsed(w, h, pat).value;
    FromPatternCells(w, h, pat, t);
    HoldsPatternUnique(t.fields, s.fields, w, h, pat);
  }

  // ---------------------------------------------------------------------
  // shapes!
  // ---------------------------------------------------------------------

  /** One `(w, h) "pattern"` entry of the `shapes!` macro. */
  datatype PatternDef = PatternDef(w: nat, h: nat, pattern: string)

  /** The rotation class of one parsed pattern, or its parse error. */
  function ClassOf(d: PatternDef): Result<seq<Shape>, PatternError>
  {
    match Parsed(d.w, d.h, d.pattern)
    case Failure(e) => Failure(e)
    case Success(s) => Success(EquivalentsOf(s))
  }

  /** The per-pattern results of the macro, in order. */
  function Classes(defs: seq<PatternDef>): (parts: seq<Result<seq<Shape>, PatternError>>)
    ensures |parts| == |defs|
    ensures forall k | 0 <= k < |defs| :: parts[k] == ClassOf(defs[k])
  {
    seq(|defs|, k requires 0 <= k < |defs| => ClassOf(defs[k]))
  }

  /** The in-order concatenation of the rotation classes of the parsed
      patterns; the first pattern that does not parse aborts the expansion. */
  function ShapesOf(defs: seq<PatternDef>): Result<seq<Shape>, PatternError>
  {
    Collect(Classes(defs), |defs|)
  }

  /** `prefix` extended by one part; a failed part aborts. */
  function Extended<T, E>(prefix: seq<T>, part: Result<seq<T>, E>): Result<seq<T>, E>
  {
    match part
    case Failure(e) => Failure(e)
    case Success(xs) => Success(prefix + xs)
  }

  /** The concatenation of the first `k` parts, or the first failure among them. */
  function Collect<T, E>(parts: seq<Result<seq<T>, E>>, k: nat): Result<seq<T>, E>
    requires k <= |parts|
  {
    if k == 0 then Success([])
    else match Collect(parts, k - 1)
      case Failure(e) => Failure(e)
      case Success(prefix) => Extended(prefix, parts[k - 1])
  }

  /** Once a part fails, the whole collection fails with its error. */
  lemma {:induction false} CollectAbort<T, E>(parts: seq<Result<seq<T>, E>>, k: nat)
    requires k <= |parts| && Collect(parts, k).Failure?
    ensures Collect(parts, |parts|) == Collect(parts, k)
    decreases |parts| - k
  {
    if k < |parts| {
      CollectAbort(parts, k + 1);
    }
  }

  /** One more part after a successful prefix; a failure there is final. */
  lemma CollectNext<T, E>(parts: seq<Result<seq<T>, E>>, k: nat, prefix: seq<T>, next: Result<seq<T>, E>)
    requires k < |parts| && Collect(parts, k) == Success(prefix)
    requires next == Extended(prefix, parts[k])
    ensures Collect(parts, k + 1) == next
    ensures next.Failure? ==> Collect(parts, |parts|) == next
  {
    if next.Failure? {
      CollectAbort(parts, k + 1);
    }
  }

  /** The collection succeeds exactly when every part does. */
  lemma {:induction false} CollectSuccess<T, E>(parts: seq<Result<seq<T>, E>>, k: nat)
    requires k <= |parts|
    ensures Collect(parts, k).Success? <==> forall i | 0 <= i < k :: parts[i].Success?
  {
    if k > 0 {
      CollectSuccess(parts, k - 1);
    }
  }

  /** A successful collection holds exactly the elements of its parts. */
  lemma {:induction false} CollectMembers<T, E>(parts: seq<Result<seq<T>, E>>, k: nat, x: T)
    requires k <= |parts| && Collect(parts, k).Success?
    ensures x in Collect(parts, k).value <==>
      exists i | 0 <= i < k :: parts[i].Success? && x in parts[i].value
  {
    if k > 0 {
      CollectMembers(parts, k - 1, x);
      CollectSuccess(parts, k);
      assert parts[k - 1].Success?;
    }
  }

  /** One `temp.extend(Shape::from_pattern(w, h, pat).equivalents())` of the
      `shapes!` macro. */
  method ExtendWith(temp: seq<Shape>, d: PatternDef) returns (r: Result<seq<Shape>, PatternError>)
    ensures r == Extended(temp, ClassOf(d))
  {
    var parsed := FromPattern(d.w, d.h, d.pattern);
    if parsed.Failure? {
      return Failure(parsed.error);
    }
    var shapes := Equivalents(parsed.value);
    r := Success(temp + shapes);
  }

  /** One step of the macro over the `k`-th pattern, after a successful prefix. */
  method ExpandStep(defs: seq<PatternDef>, k: nat, temp: seq<Shape>) returns (next: Result<seq<Shape>, PatternError>)
    requires k < |defs| && Collect(Classes(defs), k) == Success(temp)
    ensures Collect(Classes(defs), k + 1) == next
    ensures next.Failure? ==> ShapesOf(defs) == next
  {
    next := ExtendWith(temp, defs[k]);
    CollectNext(Classes(defs), k, temp, next);
  }

  /** The `shapes!` macro: extends a vector with the rotation class of each
      parsed pattern in turn. */
  method ExpandShapes(defs: seq<PatternDef>) returns (r: Result<seq<Shape>, PatternError>)
    ensures r == ShapesOf(defs)
  {
    var temp: seq<Shape> := [];
    for k := 0 to |defs|
      invariant Collect(Classes(defs), k) == Success(temp)
    {
      var next := ExpandStep(defs, k, temp);
      if next.Failure? {
        return next;
      }
      temp := next.value;
    }
    r := Success(temp);
  }

  /** Every pattern of `defs` is accepted. */
  predicate AllValid(defs: seq<PatternDef>)
  {
    forall k | 0 <= k < |defs| :: ValidPattern(defs[k].w, defs[k].h, defs[k].pattern)
  }

  /** A pattern contributes its class exactly when it is valid. */
  lemma ClassValid(d: PatternDef)
    ensures ClassOf(d).Success? <==> ValidPattern(d.w, d.h, d.pattern)
  {
    ParsedValid(d.w, d.h, d.pattern);
  }

  /** The expansion succeeds exactly when every pattern is valid. */
  lemma ShapesOfValid(defs: seq<PatternDef>)
    ensures ShapesOf(defs).Success? <==> AllValid(defs)
  {
    var parts := Classes(defs);
    CollectSuccess(parts, |defs|);
    forall k | 0 <= k < |defs|
      ensures parts[k].Success? <==> ValidPattern(defs[k].w, defs[k].h, defs[k].pattern)
    {
      ClassValid(defs[k]);
    }
  }

  /** `from_pattern` paints its shape in the default colour. */
  lemma ParsedGray(w: nat, h: nat, pat: string)
    requires Parsed(w, h, pat).Success?
    ensures Parsed(w, h, pat).value.color == DEFAULT_COLOR
  {
  }

  /** Every shape of a pattern's class is gray. */
  lemma ClassGray(d: PatternDef)
    requires ClassOf(d).Success?
    ensures forall x | x in ClassOf(d).value :: x.color == DEFAULT_COLOR
  {
    ParsedGray(d.w, d.h, d.pattern);
    EquivalentsColor(Parsed(d.w, d.h, d.pattern).value);
  }

  /** Every shape of a successful expansion is gray. */
  lemma ShapesOfGray(defs: seq<PatternDef>)
    requires ShapesOf(defs).Success?
    ensures forall x | x in ShapesOf(defs).value :: x.color == DEFAULT_COLOR
  {
    var parts := Classes(defs);
    forall x | x in ShapesOf(defs).value
      ensures x.color == DEFAULT_COLOR
    {
      CollectMembers(parts, |defs|, x);
      var i :| 0 <= i < |defs| && parts[i].Success? && x in parts[i].value;
      ClassGray(defs[i]);
    }
  }
}
