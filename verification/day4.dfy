/**
 * src/day4.rs: the grid toolkit (points, bounds-clipped rays, cell reads and searches) and the
 * word-search puzzle built on it.
 */
module Day4 {
  import opened Common

  /** A grid position; the derived order compares `row` first, then `col`. */
  datatype TextPoint = TextPoint(row: nat, col: nat)

  /** The derived `Ord` on `TextPoint`: lexicographic on (row, col). */
  predicate Less(a: TextPoint, b: TextPoint)
  {
    a.row < b.row || (a.row == b.row && a.col < b.col)
  }

  /** The derived `cmp` on `TextPoint`: rows first, then columns. */
  function CmpPoint(a: TextPoint, b: TextPoint): (o: Ordering)
    ensures o == Lt <==> Less(a, b)
    ensures o == Gt <==> Less(b, a)
    ensures o == Eq <==> a == b
  {
    ThenWith(CmpNat(a.row, b.row), CmpNat(a.col, b.col))
  }

  /** A byte grid as the puzzles use it: non-empty, every row non-empty and of the same width. */
  predicate Rectangular(g: seq<seq<Byte>>)
  {
    |g| > 0 && |g[0]| > 0 && forall r | r in g :: |r| == |g[0]|
  }

  /** The bottom-right cell of a rectangular grid. */
  function Corner(g: seq<seq<Byte>>): TextPoint
    requires Rectangular(g)
  {
    TextPoint(|g| - 1, |g[0]| - 1)
  }

  /** `p` lies in the box from (0, 0) to `corner`. */
  predicate InCorner(p: TextPoint, corner: TextPoint)
  {
    p.row <= corner.row && p.col <= corner.col
  }

  function Min(a: nat, b: nat): nat
  {
    if a <= b then a else b
  }

  /** `lo..=hi`. */
  function RangeIncl(lo: nat, hi: nat): (r: seq<nat>)
    ensures |r| == if lo <= hi then hi - lo + 1 else 0
    ensures forall k | 0 <= k < |r| :: r[k] == lo + k
  {
    if lo <= hi then seq(hi - lo + 1, k => lo + k) else []
  }

  /** `.rev()`. */
  function Rev<T>(s: seq<T>): (r: seq<T>)
    ensures |r| == |s|
    ensures forall k | 0 <= k < |s| :: r[k] == s[|s| - 1 - k]
  {
    seq(|s|, k requires 0 <= k < |s| => s[|s| - 1 - k])
  }

  /** `.zip(..).map(TextPoint::new)`: pairs up the two ranges, as long as the shorter one. */
  function ZipPoints(rows: seq<nat>, cols: seq<nat>): (r: seq<TextPoint>)
    ensures |r| == Min(|rows|, |cols|)
    ensures forall k | 0 <= k < |r| :: r[k] == TextPoint(rows[k], cols[k])
  {
    seq(Min(|rows|, |cols|), k requires 0 <= k < Min(|rows|, |cols|) => TextPoint(rows[k], cols[k]))
  }

  /** `.map(with_row)`: the point `p` moved to each row in turn. */
  function WithRows(p: TextPoint, rows: seq<nat>): (r: seq<TextPoint>)
    ensures |r| == |rows|
    ensures forall k | 0 <= k < |r| :: r[k] == TextPoint(rows[k], p.col)
  {
    seq(|rows|, k requires 0 <= k < |rows| => TextPoint(rows[k], p.col))
  }

  /** `.map(with_col)`: the point `p` moved to each column in turn. */
  function WithCols(p: TextPoint, cols: seq<nat>): (r: seq<TextPoint>)
    ensures |r| == |cols|
    ensures forall k | 0 <= k < |r| :: r[k] == TextPoint(p.row, cols[k])
  {
    seq(|cols|, k requires 0 <= k < |cols| => TextPoint(p.row, cols[k]))
  }

  /**
   * `explode_point`: the eight rays from `p`, in the order N, NE, E, SE, S, SW, W, NW, each at most
   * `length` points and clipped at row/column 0 and at `corner`. `length - 1` underflows for 0.
   */
  function ExplodePoint(p: TextPoint, corner: TextPoint, length: nat): (rays: seq<seq<TextPoint>>)
    requires length >= 1
    ensures |rays| == 8
  {
    var minRow := if p.row >= length - 1 then p.row - (length - 1) else 0;
    var minCol := if p.col >= length - 1 then p.col - (length - 1) else 0;
    var maxRow := Min(p.row + length - 1, corner.row);
    var maxCol := Min(p.col + length - 1, corner.col);
    [ WithRows(p, Rev(RangeIncl(minRow, p.row))),
      ZipPoints(Rev(RangeIncl(minRow, p.row)), RangeIncl(p.col, maxCol)),
      WithCols(p, RangeIncl(p.col, maxCol)),
      ZipPoints(RangeIncl(p.row, maxRow), RangeIncl(p.col, maxCol)),
      WithRows(p, RangeIncl(p.row, maxRow)),
      ZipPoints(RangeIncl(p.row, maxRow), Rev(RangeIncl(minCol, p.col))),
      WithCols(p, Rev(RangeIncl(minCol, p.col))),
      ZipPoints(Rev(RangeIncl(minRow, p.row)), Rev(RangeIncl(minCol, p.col)))
    ]
  }

  /** The row step of compass direction `i` (0 = N, 1 = NE, ..., 7 = NW). */
  function DRow(i: nat): int
  {
    if i == 0 || i == 1 || i == 7 then -1 else if i == 3 || i == 4 || i == 5 then 1 else 0
  }

  /** The column step of compass direction `i` (0 = N, 1 = NE, ..., 7 = NW). */
  function DCol(i: nat): int
  {
    if i == 1 || i == 2 || i == 3 then 1 else if i == 5 || i == 6 || i == 7 then -1 else 0
  }

  /** `k` steps from `p` in direction `i`, as signed coordinates. */
  function StepRow(p: TextPoint, i: nat, k: nat): int
  {
    if DRow(i) == 1 then p.row + k else if DRow(i) == -1 then p.row - k else p.row
  }

  function StepCol(p: TextPoint, i: nat, k: nat): int
  {
    if DCol(i) == 1 then p.col + k else if DCol(i) == -1 then p.col - k else p.col
  }

  /** The signed cell (r, c) lies in the box from (0, 0) to `corner`. */
  predicate InBox(r: int, c: int, corner: TextPoint)
  {
    0 <= r <= corner.row && 0 <= c <= corner.col
  }

  /**
   * Reference definition of a clipped ray: the points `p`, `p + d`, `p + 2d`, ... in direction `i`,
   * as many as fit in the box, but at most `length`.
   */
  predicate IsClippedRay(ray: seq<TextPoint>, p: TextPoint, corner: TextPoint, length: nat, i: nat)
  {
    && |ray| <= length
    && (forall k | 0 <= k < |ray| :: ray[k].row == StepRow(p, i, k) && ray[k].col == StepCol(p, i, k))
    && (forall k | 0 <= k < |ray| :: InCorner(ray[k], corner))
    && (|ray| == length || !InBox(StepRow(p, i, |ray|), StepCol(p, i, |ray|), corner))
  }

  /** Each of the eight rays is the clipped ray in its direction; hence non-empty and starting at `p`. */
  lemma ExplodePointRays(p: TextPoint, corner: TextPoint, length: nat)
    requires length >= 1 && InCorner(p, corner)
    ensures forall i | 0 <= i < 8 :: IsClippedRay(ExplodePoint(p, corner, length)[i], p, corner, length, i)
    ensures forall i | 0 <= i < 8 :: |ExplodePoint(p, corner, length)[i]| >= 1
    ensures forall i | 0 <= i < 8 :: ExplodePoint(p, corner, length)[i][0] == p
  {
    var rays := ExplodePoint(p, corner, length);
    forall i | 0 <= i < 8
      ensures IsClippedRay(rays[i], p, corner, length, i) && |rays[i]| >= 1 && rays[i][0] == p
    {
      ExplodeRay(p, corner, length, i);
    }
  }

  lemma ExplodeRay(p: TextPoint, corner: TextPoint, length: nat, i: nat)
    requires length >= 1 && InCorner(p, corner) && i < 8
    ensures IsClippedRay(ExplodePoint(p, corner, length)[i], p, corner, length, i)
    ensures |ExplodePoint(p, corner, length)[i]| >= 1 && ExplodePoint(p, corner, length)[i][0] == p
  {
    if i == 0 {
      ExplodeRay0(p, corner, length);
    } else if i == 1 {
      ExplodeRay1(p, corner, length);
    } else if i == 2 {
      ExplodeRay2(p, corner, length);
    } else if i == 3 {
      ExplodeRay3(p, corner, length);
    } else if i == 4 {
      ExplodeRay4(p, corner, length);
    } else if i == 5 {
      ExplodeRay5(p, corner, length);
    } else if i == 6 {
      ExplodeRay6(p, corner, length);
    } else {
      ExplodeRay7(p, corner, length);
    }
  }

  /** The ray heading north. */
  lemma ExplodeRay0(p: TextPoint, corner: TextPoint, length: nat)
    requires length >= 1 && InCorner(p, corner)
    ensures IsClippedRay(ExplodePoint(p, corner, length)[0], p, corner, length, 0)
    ensures |ExplodePoint(p, corner, length)[0]| >= 1 && ExplodePoint(p, corner, length)[0][0] == p
  {
    var rays := ExplodePoint(p, corner, length);
    var north := Up(p.row, length);
    ExplodeParts(p, corner, length);
    UpSteps(p.row, length);
    RayFrom(rays[0], p, corner, length, 0, north, seq(|north|, _ => p.col));
  }

  /** The ray heading north-east. */
  lemma ExplodeRay1(p: TextPoint, corner: TextPoint, length: nat)
    requires length >= 1 && InCorner(p, corner)
    ensures IsClippedRay(ExplodePoint(p, corner, length)[1], p, corner, length, 1)
    ensures |ExplodePoint(p, corner, length)[1]| >= 1 && ExplodePoint(p, corner, length)[1][0] == p
  {
    var rays := ExplodePoint(p, corner, length);
    var north := Up(p.row, length);
    var east := Down(p.col, corner.col, length);
    ExplodeParts(p, corner, length);
    UpSteps(p.row, length);
    DownSteps(p.col, corner.col, length);
    RayFrom(rays[1], p, corner, length, 1, north, east);
  }

  /** The ray heading east. */
  lemma ExplodeRay2(p: TextPoint, corner: TextPoint, length: nat)
    requires length >= 1 && InCorner(p, corner)
    ensures IsClippedRay(ExplodePoint(p, corner, length)[2], p, corner, length, 2)
    ensures |ExplodePoint(p, corner, length)[2]| >= 1 && ExplodePoint(p, corner, length)[2][0] == p
  {
    var rays := ExplodePoint(p, corner, length);
    var east := Down(p.col, corner.col, length);
    ExplodeParts(p, corner, length);
    DownSteps(p.col, corner.col, length);
    RayFrom(rays[2], p, corner, length, 2, seq(|east|, _ => p.row), east);
  }

  /** The ray heading south-east. */
  lemma ExplodeRay3(p: TextPoint, corner: TextPoint, length: nat)
    requires length >= 1 && InCorner(p, corner)
    ensures IsClippedRay(ExplodePoint(p, corner, length)[3], p, corner, length, 3)
    ensures |ExplodePoint(p, corner, length)[3]| >= 1 && ExplodePoint(p, corner, length)[3][0] == p
  {
    var rays := ExplodePoint(p, corner, length);
    var south := Down(p.row, corner.row, length);
    var east := Down(p.col, corner.col, length);
    ExplodeParts(p, corner, length);
    DownSteps(p.row, corner.row, length);
    DownSteps(p.col, corner.col, length);
    RayFrom(rays[3], p, corner, length, 3, south, east);
  }

  /** The ray heading south. */
  lemma ExplodeRay4(p: TextPoint, corner: TextPoint, length: nat)
    requires length >= 1 && InCorner(p, corner)
    ensures IsClippedRay(ExplodePoint(p, corner, length)[4], p, corner, length, 4)
    ensures |ExplodePoint(p, corner, length)[4]| >= 1 && ExplodePoint(p, corner, length)[4][0] == p
  {
    var rays := ExplodePoint(p, corner, length);
    var south := Down(p.row, corner.row, length);
    ExplodeParts(p, corner, length);
    DownSteps(p.row, corner.row, length);
    RayFrom(rays[4], p, corner, length, 4, south, seq(|south|, _ => p.col));
  }

  /** The ray heading south-west. */
  lemma ExplodeRay5(p: TextPoint, corner: TextPoint, length: nat)
    requires length >= 1 && InCorner(p, corner)
    ensures IsClippedRay(ExplodePoint(p, corner, length)[5], p, corner, length, 5)
    ensures |ExplodePoint(p, corner, length)[5]| >= 1 && ExplodePoint(p, corner, length)[5][0] == p
  {
    var rays := ExplodePoint(p, corner, length);
    var south := Down(p.row, corner.row, length);
    var west := Up(p.col, length);
    ExplodeParts(p, corner, length);
    DownSteps(p.row, corner.row, length);
    UpSteps(p.col, length);
    RayFrom(rays[5], p, corner, length, 5, south, west);
  }

  /** The ray heading west. */
  lemma ExplodeRay6(p: TextPoint, corner: TextPoint, length: nat)
    requires length >= 1 && InCorner(p, corner)
    ensures IsClippedRay(ExplodePoint(p, corner, length)[6], p, corner, length, 6)
    ensures |ExplodePoint(p, corner, length)[6]| >= 1 && ExplodePoint(p, corner, length)[6][0] == p
  {
    var rays := ExplodePoint(p, corner, length);
    var west := Up(p.col, length);
    ExplodeParts(p, corner, length);
    UpSteps(p.col, length);
    RayFrom(rays[6], p, corner, length, 6, seq(|west|, _ => p.row), west);
  }

  /** The ray heading north-west. */
  lemma ExplodeRay7(p: TextPoint, corner: TextPoint, length: nat)
    requires length >= 1 && InCorner(p, corner)
    ensures IsClippedRay(ExplodePoint(p, corner, length)[7], p, corner, length, 7)
    ensures |ExplodePoint(p, corner, length)[7]| >= 1 && ExplodePoint(p, corner, length)[7][0] == p
  {
    var rays := ExplodePoint(p, corner, length);
    var north := Up(p.row, length);
    var west := Up(p.col, length);
    ExplodeParts(p, corner, length);
    UpSteps(p.row, length);
    UpSteps(p.col, length);
    RayFrom(rays[7], p, corner, length, 7, north, west);
  }

  /** `(min..=x).rev()` with `min = x.checked_sub(length - 1).unwrap_or(0)`. */
  function Up(x: nat, length: nat): seq<nat>
    requires length >= 1
  {
    Rev(RangeIncl(if x >= length - 1 then x - (length - 1) else 0, x))
  }

  /** `x..=max` with `max = min(x + length - 1, limit)`. */
  function Down(x: nat, limit: nat, length: nat): seq<nat>
    requires length >= 1
  {
    RangeIncl(x, Min(x + length - 1, limit))
  }

  lemma UpSteps(x: nat, length: nat)
    requires length >= 1
    ensures |Up(x, length)| == Room(x, 0, length, -1)
    ensures forall k | 0 <= k < |Up(x, length)| :: Up(x, length)[k] == x - k
  {
  }

  lemma DownSteps(x: nat, limit: nat, length: nat)
    requires length >= 1
    ensures |Down(x, limit, length)| == Room(x, limit, length, 1)
    ensures forall k | 0 <= k < |Down(x, limit, length)| :: Down(x, limit, length)[k] == x + k
  {
  }

  /** The eight rays of `explode_point` written with the four half-ranges. */
  lemma ExplodeParts(p: TextPoint, corner: TextPoint, length: nat)
    requires length >= 1
    ensures var rays := ExplodePoint(p, corner, length);
      var north, south := Up(p.row, length), Down(p.row, corner.row, length);
      var west, east := Up(p.col, length), Down(p.col, corner.col, length);
      && rays[0] == WithRows(p, north) && rays[1] == ZipPoints(north, east)
      && rays[2] == WithCols(p, east) && rays[3] == ZipPoints(south, east)
      && rays[4] == WithRows(p, south) && rays[5] == ZipPoints(south, west)
      && rays[6] == WithCols(p, west) && rays[7] == ZipPoints(north, west)
  {
  }

  /** A ray read off a row sequence and a column sequence that step in direction `i`. */
  lemma RayFrom(ray: seq<TextPoint>, p: TextPoint, corner: TextPoint, length: nat, i: nat, rows: seq<int>, cols: seq<int>)
    requires length >= 1 && InCorner(p, corner) && i < 8
    requires |rows| == (if DRow(i) == 0 then Room(p.col, corner.col, length, DCol(i)) else Room(p.row, corner.row, length, DRow(i)))
    requires |cols| == (if DCol(i) == 0 then Room(p.row, corner.row, length, DRow(i)) else Room(p.col, corner.col, length, DCol(i)))
    requires forall k | 0 <= k < |rows| :: rows[k] == StepRow(p, i, k)
    requires forall k | 0 <= k < |cols| :: cols[k] == StepCol(p, i, k)
    requires |ray| == Min(|rows|, |cols|)
    requires forall k | 0 <= k < |ray| :: ray[k].row == rows[k] && ray[k].col == cols[k]
    ensures IsClippedRay(ray, p, corner, length, i) && |ray| >= 1 && ray[0] == p
  {
    ClippedRay(ray, p, corner, length, i);
  }

  /** How many of the `length` steps from `x` in direction `d` stay within `0..=limit`. */
  function Room(x: nat, limit: nat, length: nat, d: int): nat
  {
    if d == 1 then Min(if limit >= x then limit - x + 1 else 0, length)
    else if d == -1 then Min(x + 1, length)
    else length
  }

  /** A ray that steps in direction `i` and is as long as the room in both coordinates is clipped. */
  lemma ClippedRay(ray: seq<TextPoint>, p: TextPoint, corner: TextPoint, length: nat, i: nat)
    requires length >= 1 && InCorner(p, corner) && i < 8
    requires |ray| == Min(Room(p.row, corner.row, length, DRow(i)), Room(p.col, corner.col, length, DCol(i)))
    requires forall k | 0 <= k < |ray| :: ray[k].row == StepRow(p, i, k) && ray[k].col == StepCol(p, i, k)
    ensures IsClippedRay(ray, p, corner, length, i) && |ray| >= 1 && ray[0] == p
  {
  }

  /** The clipped rays from the top-left corner of a 4x4 box. */
  lemma ExplodeFromOrigin()
    ensures ExplodePoint(TextPoint(0, 0), TextPoint(3, 3), 4) ==
      [ [TextPoint(0, 0)],
        [TextPoint(0, 0)],
        [TextPoint(0, 0), TextPoint(0, 1), TextPoint(0, 2), TextPoint(0, 3)],
        [TextPoint(0, 0), TextPoint(1, 1), TextPoint(2, 2), TextPoint(3, 3)],
        [TextPoint(0, 0), TextPoint(1, 0), TextPoint(2, 0), TextPoint(3, 0)],
        [TextPoint(0, 0)],
        [TextPoint(0, 0)],
        [TextPoint(0, 0)] ]
  {
    var p, c := TextPoint(0, 0), TextPoint(3, 3);
    ExplodeParts(p, c, 4);
    UpSteps(0, 4);
    DownSteps(0, 3, 4);
    assert Up(0, 4) == [0];
    assert Down(0, 3, 4) == [0, 1, 2, 3];
    var north, east := [0], [0, 1, 2, 3];
    var rays := ExplodePoint(p, c, 4);
    assert rays[0] == WithRows(p, north) == [p];
    assert rays[1] == ZipPoints(north, east) == [p];
    assert rays[2] == WithCols(p, east) == [p, TextPoint(0, 1), TextPoint(0, 2), TextPoint(0, 3)];
    assert rays[3] == ZipPoints(east, east) == [p, TextPoint(1, 1), TextPoint(2, 2), TextPoint(3, 3)];
    assert rays[4] == WithRows(p, east) == [p, TextPoint(1, 0), TextPoint(2, 0), TextPoint(3, 0)];
    assert rays[5] == ZipPoints(east, north) == [p];
    assert rays[6] == WithCols(p, north) == [p];
    assert rays[7] == ZipPoints(north, north) == [p];
  }

  /** The clipped rays from the bottom-right corner of a 4x4 box. */
  lemma ExplodeFromFarCorner()
    ensures ExplodePoint(TextPoint(3, 3), TextPoint(3, 3), 4) ==
      [ [TextPoint(3, 3), TextPoint(2, 3), TextPoint(1, 3), TextPoint(0, 3)],
        [TextPoint(3, 3)],
        [TextPoint(3, 3)],
        [TextPoint(3, 3)],
        [TextPoint(3, 3)],
        [TextPoint(3, 3)],
        [TextPoint(3, 3), TextPoint(3, 2), TextPoint(3, 1), TextPoint(3, 0)],
        [TextPoint(3, 3), TextPoint(2, 2), TextPoint(1, 1), TextPoint(0, 0)] ]
  {
    var p, c := TextPoint(3, 3), TextPoint(3, 3);
    ExplodeParts(p, c, 4);
    UpSteps(3, 4);
    DownSteps(3, 3, 4);
    var up, down := [3, 2, 1, 0], [3];
    assert Up(3, 4) == up;
    assert Down(3, 3, 4) == down;
    var rays := ExplodePoint(p, c, 4);
    assert rays[0] == WithRows(p, up) == [p, TextPoint(2, 3), TextPoint(1, 3), TextPoint(0, 3)];
    assert rays[1] == ZipPoints(up, down) == [p];
    assert rays[2] == WithCols(p, down) == [p];
    assert rays[3] == ZipPoints(down, down) == [p];
    assert rays[4] == WithRows(p, down) == [p];
    assert rays[5] == ZipPoints(down, up) == [p];
    assert rays[6] == WithCols(p, up) == [p, TextPoint(3, 2), TextPoint(3, 1), TextPoint(3, 0)];
    assert rays[7] == ZipPoints(up, up) == [p, TextPoint(2, 2), TextPoint(1, 1), TextPoint(0, 0)];
  }

  /** `q` names a cell of `puzzle`. */
  predicate InGrid(puzzle: seq<seq<Byte>>, q: TextPoint)
  {
    q.row < |puzzle| && q.col < |puzzle[q.row]|
  }

  /** Every point of `ray` names a cell. */
  predicate RayInGrid(puzzle: seq<seq<Byte>>, ray: seq<TextPoint>)
  {
    forall k | 0 <= k < |ray| :: InGrid(puzzle, ray[k])
  }

  /** In a rectangular grid the cells are exactly the points up to the corner. */
  lemma CornerInGrid(puzzle: seq<seq<Byte>>, q: TextPoint)
    requires Rectangular(puzzle)
    ensures InGrid(puzzle, q) <==> InCorner(q, Corner(puzzle))
  {
    if q.row < |puzzle| {
      assert puzzle[q.row] in puzzle;
    }
  }

  /**
   * `extract_string_from_vector`: the bytes under the points of `ray`, in order. Indexing outside the
   * grid panics, hence the precondition.
   */
  function ExtractString(puzzle: seq<seq<Byte>>, ray: seq<TextPoint>): (r: seq<Byte>)
    requires RayInGrid(puzzle, ray)
    ensures |r| == |ray|
    ensures forall k | 0 <= k < |ray| :: InGrid(puzzle, ray[k]) && r[k] == puzzle[ray[k].row][ray[k].col]
  {
    seq(|ray|, k requires 0 <= k < |ray| && InGrid(puzzle, ray[k]) => puzzle[ray[k].row][ray[k].col])
  }

  /** The cells of row `row` from column `col` on that hold `c`, left to right. */
  function FindInRow(line: seq<Byte>, row: nat, c: Byte, col: nat): (r: seq<TextPoint>)
    requires col <= |line|
    ensures forall q | q in r :: q.row == row && col <= q.col < |line| && line[q.col] == c
    ensures forall k | col <= k < |line| && line[k] == c :: TextPoint(row, k) in r
    ensures forall i, j | 0 <= i < j < |r| :: r[i].col < r[j].col
    decreases |line| - col
  {
    if col == |line| then []
    else if line[col] == c then [TextPoint(row, col)] + FindInRow(line, row, c, col + 1)
    else FindInRow(line, row, c, col + 1)
  }

  /** The cells of rows `row..` that hold `c`, in row-major order. */
  function FindInRows(puzzle: seq<seq<Byte>>, c: Byte, row: nat): (r: seq<TextPoint>)
    requires row <= |puzzle|
    ensures forall q | q in r :: row <= q.row && InGrid(puzzle, q) && puzzle[q.row][q.col] == c
    ensures forall q: TextPoint | row <= q.row && InGrid(puzzle, q) && puzzle[q.row][q.col] == c :: q in r
    ensures forall i, j | 0 <= i < j < |r| :: Less(r[i], r[j])
    decreases |puzzle| - row
  {
    if row == |puzzle| then []
    else
      var here := FindInRow(puzzle[row], row, c, 0);
      var rest := FindInRows(puzzle, c, row + 1);
      assert forall i, j | 0 <= i < |here| <= j < |here| + |rest| :: Less((here + rest)[i], (here + rest)[j]) by {
        forall i, j | 0 <= i < |here| <= j < |here| + |rest| ensures Less((here + rest)[i], (here + rest)[j]) {
          assert here[i] in here && rest[j - |here|] in rest;
        }
      }
      forall q: TextPoint | row <= q.row && InGrid(puzzle, q) && puzzle[q.row][q.col] == c ensures q in here + rest {
        if q.row == row {
          assert TextPoint(row, q.col) in here;
        }
      }
      here + rest
  }

  /**
   * `find_char_in_puzzle`: exactly the cells holding `c`, each once, in row-major order (strictly
   * increasing under the derived order).
   */
  function FindChar(puzzle: seq<seq<Byte>>, c: Byte): (r: seq<TextPoint>)
    ensures forall q | q in r :: InGrid(puzzle, q) && puzzle[q.row][q.col] == c
    ensures forall q | InGrid(puzzle, q) && puzzle[q.row][q.col] == c :: q in r
    ensures forall i, j | 0 <= i < j < |r| :: Less(r[i], r[j])
  {
    FindInRows(puzzle, c, 0)
  }

  const X: Byte := 88
  const M: Byte := 77
  const A: Byte := 65
  const S: Byte := 83

  /** The number of `rays` of length `|word|` that spell `word`. */
  function CountWord(puzzle: seq<seq<Byte>>, rays: seq<seq<TextPoint>>, word: seq<Byte>): (n: nat)
    requires forall j | 0 <= j < |rays| :: RayInGrid(puzzle, rays[j])
    ensures n <= |rays|
  {
    if rays == [] then 0
    else
      var hit := |rays[0]| == |word| && ExtractString(puzzle, rays[0]) == word;
      (if hit then 1 else 0) + CountWord(puzzle, rays[1..], word)
  }

  /** The number of "XMAS" rays of length 4 from each of `xs`. */
  function XmasFrom(puzzle: seq<seq<Byte>>, xs: seq<TextPoint>): nat
    requires Rectangular(puzzle)
    requires forall q | q in xs :: InCorner(q, Corner(puzzle))
  {
    if xs == [] then 0
    else
      var rays := ExplodePoint(xs[0], Corner(puzzle), 4);
      ExplodeInGrid(puzzle, xs[0], 4);
      CountWord(puzzle, rays, [X, M, A, S]) + XmasFrom(puzzle, xs[1..])
  }

  /** Every point of every ray from a cell of a rectangular grid is a cell. */
  lemma ExplodeInGrid(puzzle: seq<seq<Byte>>, p: TextPoint, length: nat)
    requires Rectangular(puzzle) && length >= 1 && InCorner(p, Corner(puzzle))
    ensures forall i | 0 <= i < 8 :: RayInGrid(puzzle, ExplodePoint(p, Corner(puzzle), length)[i])
  {
    var rays := ExplodePoint(p, Corner(puzzle), length);
    ExplodePointRays(p, Corner(puzzle), length);
    forall i, k | 0 <= i < 8 && 0 <= k < |rays[i]| ensures InGrid(puzzle, rays[i][k]) {
      CornerInGrid(puzzle, rays[i][k]);
    }
  }

  /**
   * `prob1_inner`: the number of "XMAS" rays from the 'X' cells, which is the number of
   * (X cell, direction) pairs along which "XMAS" is written inside the grid.
   */
  function Prob1(puzzle: seq<seq<Byte>>): (r: nat)
    requires Rectangular(puzzle)
    ensures forall q | q in FindChar(puzzle, X) :: InCorner(q, Corner(puzzle))
    ensures r == XmasCount(puzzle, FindChar(puzzle, X))
  {
    var xs := FindChar(puzzle, X);
    forall q | q in xs ensures InCorner(q, Corner(puzzle)) {
      CornerInGrid(puzzle, q);
    }
    XmasFromCount(puzzle, xs);
    XmasFrom(puzzle, xs)
  }

  /** Reference: "XMAS" is written from `p` in direction `i`, all four cells inside the grid. */
  predicate XmasAt(puzzle: seq<seq<Byte>>, p: TextPoint, i: nat)
    requires Rectangular(puzzle) && InCorner(p, Corner(puzzle))
  {
    && InBox(StepRow(p, i, 3), StepCol(p, i, 3), Corner(puzzle))
    && puzzle[StepRow(p, i, 0)][StepCol(p, i, 0)] == X
    && puzzle[StepRow(p, i, 1)][StepCol(p, i, 1)] == M
    && puzzle[StepRow(p, i, 2)][StepCol(p, i, 2)] == A
    && puzzle[StepRow(p, i, 3)][StepCol(p, i, 3)] == S
  }

  /** Reference: the number of directions `j..8` in which "XMAS" is written from `p`. */
  function XmasDirections(puzzle: seq<seq<Byte>>, p: TextPoint, j: nat): nat
    requires Rectangular(puzzle) && InCorner(p, Corner(puzzle)) && j <= 8
    decreases 8 - j
  {
    if j == 8 then 0 else (if XmasAt(puzzle, p, j) then 1 else 0) + XmasDirections(puzzle, p, j + 1)
  }

  /** Reference: the number of (cell of `xs`, direction) pairs along which "XMAS" is written. */
  function XmasCount(puzzle: seq<seq<Byte>>, xs: seq<TextPoint>): nat
    requires Rectangular(puzzle) && forall q | q in xs :: InCorner(q, Corner(puzzle))
  {
    if xs == [] then 0 else XmasDirections(puzzle, xs[0], 0) + XmasCount(puzzle, xs[1..])
  }

  lemma {:induction false} XmasFromCount(puzzle: seq<seq<Byte>>, xs: seq<TextPoint>)
    requires Rectangular(puzzle) && forall q | q in xs :: InCorner(q, Corner(puzzle))
    ensures XmasFrom(puzzle, xs) == XmasCount(puzzle, xs)
  {
    if xs != [] {
      XmasFromCount(puzzle, xs[1..]);
      ExplodeInGrid(puzzle, xs[0], 4);
      ExplodePointRays(xs[0], Corner(puzzle), 4);
      CountWordDirections(puzzle, xs[0], 0);
    }
  }

  /** Counting "XMAS" rays from `p` among rays `j..8` is counting directions `j..8` with the word. */
  lemma {:induction false} CountWordDirections(puzzle: seq<seq<Byte>>, p: TextPoint, j: nat)
    requires Rectangular(puzzle) && InCorner(p, Corner(puzzle)) && j <= 8
    requires forall i | 0 <= i < 8 :: RayInGrid(puzzle, ExplodePoint(p, Corner(puzzle), 4)[i])
    ensures CountWord(puzzle, ExplodePoint(p, Corner(puzzle), 4)[j..], [X, M, A, S]) == XmasDirections(puzzle, p, j)
    decreases 8 - j
  {
    var rays := ExplodePoint(p, Corner(puzzle), 4);
    if j < 8 {
      CountWordDirections(puzzle, p, j + 1);
      assert rays[j..][1..] == rays[j + 1..];
      ExplodeRay(p, Corner(puzzle), 4, j);
      RayWord(puzzle, p, j, rays[j]);
    }
  }

  /** A clipped ray of length at most 4 spells "XMAS" exactly when the word is written in its direction. */
  lemma RayWord(puzzle: seq<seq<Byte>>, p: TextPoint, i: nat, ray: seq<TextPoint>)
    requires Rectangular(puzzle) && InCorner(p, Corner(puzzle)) && i < 8
    requires IsClippedRay(ray, p, Corner(puzzle), 4, i) && RayInGrid(puzzle, ray)
    ensures (|ray| == 4 && ExtractString(puzzle, ray) == [X, M, A, S]) <==> XmasAt(puzzle, p, i)
  {
    var corner := Corner(puzzle);
    if |ray| == 4 {
      assert ray[3].row == StepRow(p, i, 3) && ray[3].col == StepCol(p, i, 3) && InCorner(ray[3], corner);
      var w := ExtractString(puzzle, ray);
      if XmasAt(puzzle, p, i) {
        assert w == [X, M, A, S] by {
          forall k | 0 <= k < 4 ensures w[k] == [X, M, A, S][k] {
            assert ray[k].row == StepRow(p, i, k) && ray[k].col == StepCol(p, i, k);
          }
        }
      }
      if w == [X, M, A, S] {
        forall k | 0 <= k < 4 ensures puzzle[StepRow(p, i, k)][StepCol(p, i, k)] == [X, M, A, S][k] {
          assert ray[k].row == StepRow(p, i, k) && ray[k].col == StepCol(p, i, k);
          assert w[k] == [X, M, A, S][k];
        }
      }
    } else {
      assert !InBox(StepRow(p, i, |ray|), StepCol(p, i, |ray|), corner);
    }
  }

  /** The diagonal rays (NE, SE, SW, NW) of length 3 from each of `ms`, in order. */
  function DiagonalsFrom(puzzle: seq<seq<Byte>>, ms: seq<TextPoint>): (vs: seq<seq<TextPoint>>)
    requires Rectangular(puzzle) && forall q | q in ms :: InCorner(q, Corner(puzzle))
    ensures forall j | 0 <= j < |vs| :: |vs[j]| == 3 && RayInGrid(puzzle, vs[j])
  {
    if ms == [] then []
    else
      var rays := ExplodePoint(ms[0], Corner(puzzle), 3);
      ExplodeInGrid(puzzle, ms[0], 3);
      var diagonals := [rays[1], rays[3], rays[5], rays[7]];
      assert forall d | d in diagonals :: RayInGrid(puzzle, d);
      KeepLength3(diagonals) + DiagonalsFrom(puzzle, ms[1..])
  }

  /** `.filter(|v| v.len() == 3)`. */
  function KeepLength3(vs: seq<seq<TextPoint>>): (r: seq<seq<TextPoint>>)
    ensures forall j | 0 <= j < |r| :: |r[j]| == 3 && r[j] in vs
    ensures forall v | v in vs && |v| == 3 :: v in r
  {
    if vs == [] then []
    else (if |vs[0]| == 3 then [vs[0]] else []) + KeepLength3(vs[1..])
  }

  /** The candidate "MAS" diagonals of `prob2_inner`: from every 'M' cell, the diagonals of length 3. */
  function Candidates(puzzle: seq<seq<Byte>>): (vs: seq<seq<TextPoint>>)
    requires Rectangular(puzzle)
    ensures forall j | 0 <= j < |vs| :: |vs[j]| == 3 && RayInGrid(puzzle, vs[j])
  {
    var ms := FindChar(puzzle, M);
    forall q | q in ms ensures InCorner(q, Corner(puzzle)) {
      CornerInGrid(puzzle, q);
    }
    DiagonalsFrom(puzzle, ms)
  }

  /** A candidate is a length-3 ray of the grid. */
  predicate Candidate(puzzle: seq<seq<Byte>>, v: seq<TextPoint>)
  {
    |v| == 3 && RayInGrid(puzzle, v)
  }

  predicate AllCandidates(puzzle: seq<seq<Byte>>, vs: seq<seq<TextPoint>>)
  {
    forall j | 0 <= j < |vs| :: |vs[j]| == 3 && RayInGrid(puzzle, vs[j])
  }

  /** The candidate spells "MAS". */
  predicate Mas(puzzle: seq<seq<Byte>>, v: seq<TextPoint>)
    requires Candidate(puzzle, v)
  {
    ExtractString(puzzle, v) == [M, A, S]
  }

  /** The number of "MAS" candidates in `g`. */
  function CountMas(puzzle: seq<seq<Byte>>, g: seq<seq<TextPoint>>): nat
    requires AllCandidates(puzzle, g)
  {
    if g == [] then 0
    else CountMas(puzzle, g[..|g| - 1]) + (if Mas(puzzle, g[|g| - 1]) then 1 else 0)
  }

  /** The pairs `g[a], g[b]` with `a < b` that both spell "MAS": what `combinations(2)` visits. */
  function GroupPairs(puzzle: seq<seq<Byte>>, g: seq<seq<TextPoint>>): nat
    requires AllCandidates(puzzle, g)
  {
    if g == [] then 0
    else (if Mas(puzzle, g[0]) then CountMas(puzzle, g[1..]) else 0) + GroupPairs(puzzle, g[1..])
  }

  /** The number of "MAS" candidates among `vs` whose middle cell is `k`. */
  function MasThrough(puzzle: seq<seq<Byte>>, vs: seq<seq<TextPoint>>, k: TextPoint): nat
    requires AllCandidates(puzzle, vs)
  {
    if vs == [] then 0
    else
      var v := vs[|vs| - 1];
      MasThrough(puzzle, vs[..|vs| - 1], k) + (if v[1] == k && Mas(puzzle, v) then 1 else 0)
  }

  /**
   * Reference: the number of pairs `i < j` of candidates with the same middle cell, both spelling
   * "MAS" (two crossing "MAS" diagonals), counting only middle cells in `keys`.
   */
  function Crossings(puzzle: seq<seq<Byte>>, vs: seq<seq<TextPoint>>, keys: set<TextPoint>): nat
    requires AllCandidates(puzzle, vs)
  {
    if vs == [] then 0
    else
      var v := vs[|vs| - 1];
      var init := vs[..|vs| - 1];
      Crossings(puzzle, init, keys) + (if v[1] in keys && Mas(puzzle, v) then MasThrough(puzzle, init, v[1]) else 0)
  }

  /** The middle cells of the candidates. */
  function Middles(vs: seq<seq<TextPoint>>): set<TextPoint>
    requires forall j | 0 <= j < |vs| :: |vs[j]| == 3
  {
    set j | 0 <= j < |vs| :: vs[j][1]
  }

  /** The candidates through middle cell `k`, in order: the list `cs[k]` collects. */
  function Group(vs: seq<seq<TextPoint>>, k: TextPoint): (g: seq<seq<TextPoint>>)
    requires forall j | 0 <= j < |vs| :: |vs[j]| == 3
    ensures forall j | 0 <= j < |g| :: g[j] in vs && g[j][1] == k
  {
    if vs == [] then []
    else Group(vs[..|vs| - 1], k) + (if vs[|vs| - 1][1] == k then [vs[|vs| - 1]] else [])
  }

  /**
   * `prob2_inner`: group the candidate diagonals by their middle cell, then count, within each group,
   * the pairs that both spell "MAS". The result is the number of crossing "MAS" pairs.
   */
  method Prob2(puzzle: seq<seq<Byte>>) returns (count: nat)
    requires Rectangular(puzzle)
    ensures count == Crossings(puzzle, Candidates(puzzle), Middles(Candidates(puzzle)))
  {
    var vs := Candidates(puzzle);
    assert AllCandidates(puzzle, vs);
    var cs := GroupByMiddle(vs);
    count := CountCrossings(puzzle, vs, cs);
  }

  /** The second loop of `prob2_inner`: over the groups, count the pairs that both spell "MAS". */
  method CountCrossings(puzzle: seq<seq<Byte>>, vs: seq<seq<TextPoint>>, cs: map<TextPoint, seq<seq<TextPoint>>>)
    returns (count: nat)
    requires AllCandidates(puzzle, vs)
    requires cs.Keys == Middles(vs) && forall k | k in cs :: cs[k] == Group(vs, k)
    ensures count == Crossings(puzzle, vs, Middles(vs))
  {
    count := 0;
    var todo, done := cs.Keys, {};
    CrossingsNone(puzzle, vs);
    while todo != {}
      invariant todo + done == cs.Keys && todo !! done
      invariant count == Crossings(puzzle, vs, done)
      decreases todo
    {
      var k :| k in todo;
      var g := cs[k];
      GroupCrossings(puzzle, vs, k);
      var c := CountGroup(puzzle, g);
      assert c == Crossings(puzzle, vs, {k});
      var done' := done + {k};
      CrossingsUnion(puzzle, vs, done, k);
      assert count + c == Crossings(puzzle, vs, done');
      count := count + c;
      todo, done := todo - {k}, done';
    }
    assert done == Middles(vs);
  }

  /** The first loop of `prob2_inner`: `cs[k]` collects, in order, the candidates through `k`. */
  method GroupByMiddle(vs: seq<seq<TextPoint>>) returns (cs: map<TextPoint, seq<seq<TextPoint>>>)
    requires forall j | 0 <= j < |vs| :: |vs[j]| == 3
    ensures cs.Keys == Middles(vs)
    ensures forall k | k in cs :: cs[k] == Group(vs, k)
  {
    cs := map[];
    for i := 0 to |vs|
      invariant cs.Keys == Middles(vs[..i])
      invariant forall k | k in cs :: cs[k] == Group(vs[..i], k)
    {
      var v := vs[i];
      var k := v[1];
      assert vs[..i + 1][..i] == vs[..i];
      GroupStep(vs[..i + 1], k);
      if k in cs {
        cs := cs[k := cs[k] + [v]];
      } else {
        cs := cs[k := [v]];
      }
    }
    assert vs[..|vs|] == vs;
  }

  /** The nested `combinations(2)` loop over one group. */
  method CountGroup(puzzle: seq<seq<Byte>>, g: seq<seq<TextPoint>>) returns (c: nat)
    requires AllCandidates(puzzle, g)
    ensures c == GroupPairs(puzzle, g)
  {
    c := 0;
    for a := 0 to |g|
      invariant AllCandidates(puzzle, g[a..]) && c + GroupPairs(puzzle, g[a..]) == GroupPairs(puzzle, g)
    {
      GroupPairsStep(puzzle, g, a);
      var n := CountPartners(puzzle, g, a);
      c := c + n;
    }
  }

  /** The inner loop of `combinations(2)`: the later candidates that pair with `g[a]`. */
  method CountPartners(puzzle: seq<seq<Byte>>, g: seq<seq<TextPoint>>, a: nat) returns (n: nat)
    requires AllCandidates(puzzle, g) && a < |g|
    ensures AllCandidates(puzzle, g[a + 1..])
    ensures n == if Mas(puzzle, g[a]) then CountMas(puzzle, g[a + 1..]) else 0
  {
    n := 0;
    CandidatesSlice(puzzle, g, a + 1, a + 1);
    for b := a + 1 to |g|
      invariant AllCandidates(puzzle, g[a + 1..b])
      invariant n == if Mas(puzzle, g[a]) then CountMas(puzzle, g[a + 1..b]) else 0
    {
      CountMasStep(puzzle, g, a + 1, b);
      if Mas(puzzle, g[a]) && Mas(puzzle, g[b]) {
        n := n + 1;
      }
    }
    assert g[a + 1..|g|] == g[a + 1..];
  }

  /** Every slice of a list of candidates is a list of candidates. */
  lemma CandidatesSlice(puzzle: seq<seq<Byte>>, g: seq<seq<TextPoint>>, i: nat, j: nat)
    requires AllCandidates(puzzle, g) && i <= j <= |g|
    ensures AllCandidates(puzzle, g[i..j])
  {
    forall k | 0 <= k < j - i ensures |g[i..j][k]| == 3 && RayInGrid(puzzle, g[i..j][k]) {
      assert g[i..j][k] == g[i + k];
    }
  }

  /** The inner loop's count grows by one for each further "MAS" candidate. */
  lemma CountMasStep(puzzle: seq<seq<Byte>>, g: seq<seq<TextPoint>>, a: nat, b: nat)
    requires AllCandidates(puzzle, g) && a <= b < |g|
    ensures AllCandidates(puzzle, g[a..b]) && AllCandidates(puzzle, g[a..b + 1])
    ensures CountMas(puzzle, g[a..b + 1]) == CountMas(puzzle, g[a..b]) + if Mas(puzzle, g[b]) then 1 else 0
  {
    CandidatesSlice(puzzle, g, a, b);
    CandidatesSlice(puzzle, g, a, b + 1);
    assert g[a..b + 1][..b - a] == g[a..b];
  }

  /** The pairs of a group: those with its first candidate, then those of the rest. */
  lemma GroupPairsStep(puzzle: seq<seq<Byte>>, g: seq<seq<TextPoint>>, a: nat)
    requires AllCandidates(puzzle, g) && a < |g|
    ensures AllCandidates(puzzle, g[a..]) && AllCandidates(puzzle, g[a + 1..])
    ensures GroupPairs(puzzle, g[a..])
         == (if Mas(puzzle, g[a]) then CountMas(puzzle, g[a + 1..]) else 0) + GroupPairs(puzzle, g[a + 1..])
  {
    CandidatesSlice(puzzle, g, a, |g|);
    CandidatesSlice(puzzle, g, a + 1, |g|);
    assert g[a..|g|] == g[a..] && g[a + 1..|g|] == g[a + 1..];
    assert g[a..][1..] == g[a + 1..];
  }

  /** Appending one candidate adds its middle cell and extends only that cell's group. */
  lemma GroupStep(ws: seq<seq<TextPoint>>, k: TextPoint)
    requires forall j | 0 <= j < |ws| :: |ws[j]| == 3
    requires ws != [] && ws[|ws| - 1][1] == k
    ensures Middles(ws) == Middles(ws[..|ws| - 1]) + {k}
    ensures forall j | j != k :: Group(ws, j) == Group(ws[..|ws| - 1], j)
    ensures k !in Middles(ws[..|ws| - 1]) ==> Group(ws[..|ws| - 1], k) == []
    ensures Group(ws, k) == Group(ws[..|ws| - 1], k) + [ws[|ws| - 1]]
  {
    var init := ws[..|ws| - 1];
    assert forall j | 0 <= j < |init| :: init[j] == ws[j];
    if k !in Middles(init) {
      GroupOutside(init, k);
    }
  }

  lemma {:induction false} GroupOutside(ws: seq<seq<TextPoint>>, k: TextPoint)
    requires forall j | 0 <= j < |ws| :: |ws[j]| == 3
    requires k !in Middles(ws)
    ensures Group(ws, k) == []
  {
    if ws != [] {
      var init := ws[..|ws| - 1];
      assert Middles(init) <= Middles(ws) by {
        forall j | 0 <= j < |init| ensures init[j][1] in Middles(ws) {
          assert init[j] == ws[j];
        }
      }
      GroupOutside(init, k);
      assert ws[|ws| - 1][1] in Middles(ws);
    }
  }

  /** The pairs counted within the group of `k` are the crossings through `k`. */
  lemma {:induction false} GroupCrossings(puzzle: seq<seq<Byte>>, vs: seq<seq<TextPoint>>, k: TextPoint)
    requires AllCandidates(puzzle, vs)
    ensures AllCandidates(puzzle, Group(vs, k))
    ensures GroupPairs(puzzle, Group(vs, k)) == Crossings(puzzle, vs, {k})
  {
    GroupCandidates(puzzle, vs, k);
    if vs != [] {
      var init, v := vs[..|vs| - 1], vs[|vs| - 1];
      assert forall j | 0 <= j < |init| :: init[j] == vs[j];
      GroupCrossings(puzzle, init, k);
      var g := Group(init, k);
      if v[1] == k {
        assert Group(vs, k) == g + [v];
        GroupPairsSnoc(puzzle, g, v);
        CountMasGroup(puzzle, init, k);
      } else {
        assert Group(vs, k) == g;
      }
    }
  }

  lemma {:induction false} GroupCandidates(puzzle: seq<seq<Byte>>, vs: seq<seq<TextPoint>>, k: TextPoint)
    requires AllCandidates(puzzle, vs)
    ensures AllCandidates(puzzle, Group(vs, k))
  {
    if vs != [] {
      var init := vs[..|vs| - 1];
      assert forall j | 0 <= j < |init| :: init[j] == vs[j];
      GroupCandidates(puzzle, init, k);
    }
  }

  lemma {:induction false} CountMasGroup(puzzle: seq<seq<Byte>>, vs: seq<seq<TextPoint>>, k: TextPoint)
    requires AllCandidates(puzzle, vs)
    requires AllCandidates(puzzle, Group(vs, k))
    ensures CountMas(puzzle, Group(vs, k)) == MasThrough(puzzle, vs, k)
  {
    if vs != [] {
      var init, v := vs[..|vs| - 1], vs[|vs| - 1];
      assert forall j | 0 <= j < |init| :: init[j] == vs[j];
      GroupCandidates(puzzle, init, k);
      CountMasGroup(puzzle, init, k);
      var g := Group(init, k);
      if v[1] == k {
        assert Group(vs, k) == g + [v];
        assert (g + [v])[..|g|] == g;
      } else {
        assert Group(vs, k) == g;
      }
    }
  }

  lemma {:induction false} GroupPairsSnoc(puzzle: seq<seq<Byte>>, g: seq<seq<TextPoint>>, v: seq<TextPoint>)
    requires AllCandidates(puzzle, g)
    requires Candidate(puzzle, v)
    ensures AllCandidates(puzzle, g + [v])
    ensures GroupPairs(puzzle, g + [v]) == GroupPairs(puzzle, g) + if Mas(puzzle, v) then CountMas(puzzle, g) else 0
  {
    if g != [] {
      var t := g[1..];
      assert (g + [v])[1..] == t + [v];
      GroupPairsSnoc(puzzle, t, v);
      assert (t + [v])[..|t|] == t;
      CountMasFront(puzzle, g);
    } else {
      assert [v][1..] == [];
    }
  }

  lemma {:induction false} CountMasFront(puzzle: seq<seq<Byte>>, g: seq<seq<TextPoint>>)
    requires AllCandidates(puzzle, g)
    requires g != []
    ensures CountMas(puzzle, g) == (if Mas(puzzle, g[0]) then 1 else 0) + CountMas(puzzle, g[1..])
    decreases |g|
  {
    if |g| > 1 {
      var init := g[..|g| - 1];
      CountMasFront(puzzle, init);
      assert init[1..] == g[1..][..|g| - 2];
    } else {
      assert g[1..] == [];
      assert g[..0] == [];
    }
  }

  /** Crossings over disjoint sets of middle cells add up. */
  lemma {:induction false} CrossingsUnion(puzzle: seq<seq<Byte>>, vs: seq<seq<TextPoint>>, keys: set<TextPoint>, k: TextPoint)
    requires AllCandidates(puzzle, vs)
    requires k !in keys
    ensures Crossings(puzzle, vs, keys + {k}) == Crossings(puzzle, vs, keys) + Crossings(puzzle, vs, {k})
  {
    if vs != [] {
      var init := vs[..|vs| - 1];
      assert forall j | 0 <= j < |init| :: init[j] == vs[j];
      CrossingsUnion(puzzle, init, keys, k);
    }
  }

  lemma {:induction false} CrossingsNone(puzzle: seq<seq<Byte>>, vs: seq<seq<TextPoint>>)
    requires AllCandidates(puzzle, vs)
    ensures Crossings(puzzle, vs, {}) == 0
  {
    if vs != [] {
      CrossingsNone(puzzle, vs[..|vs| - 1]);
    }
  }
}
