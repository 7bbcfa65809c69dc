/** src/day8.rs: signed offsets between grid points. */
module Day8 {
  import opened Common
  import opened Day4

  /** A signed (row, col) offset. */
  datatype TextDifference = TextDifference(row: int, col: int)

  /**
   * `TextDifference::apply`: `p` moved by `d`, or `None` when a coordinate would go below zero
   * (`checked_add_signed` fails).
   */
  function Apply(d: TextDifference, p: TextPoint): (r: Option<TextPoint>)
    ensures r.Some? <==> p.row + d.row >= 0 && p.col + d.col >= 0
    ensures r.Some? ==> r.value.row - p.row == d.row && r.value.col - p.col == d.col
  {
    if p.row + d.row >= 0 && p.col + d.col >= 0 then Some(TextPoint(p.row + d.row, p.col + d.col))
    else None
  }

  /** `TextDifference::apply_with_corner`: `apply`, also rejecting points beyond `corner`. */
  function ApplyWithCorner(d: TextDifference, p: TextPoint, corner: TextPoint): (r: Option<TextPoint>)
    ensures r.Some? <==> Apply(d, p).Some? && InCorner(Apply(d, p).value, corner)
    ensures r.Some? ==> r == Apply(d, p)
  {
    match Apply(d, p)
    case Some(q) => if q.row <= corner.row && q.col <= corner.col then Some(q) else None
    case None => None
  }

  /** `TextDifference::flip`: the opposite offset. */
  function Flip(d: TextDifference): (r: TextDifference)
    ensures r.row + d.row == 0 && r.col + d.col == 0
  {
    TextDifference(-d.row, -d.col)
  }

  /** `point_distance`: the offset that leads from `a` to `b`. */
  function PointDistance(a: TextPoint, b: TextPoint): (d: TextDifference)
    ensures a.row + d.row == b.row && a.col + d.col == b.col
  {
    TextDifference(b.row - a.row, b.col - a.col)
  }

  /** Flipping twice gives the offset back. */
  lemma FlipFlip(d: TextDifference)
    ensures Flip(Flip(d)) == d
  {
  }

  /** The distance from `a` to `b` leads from `a` to `b`; flipped, it leads back. */
  lemma DistanceApply(a: TextPoint, b: TextPoint)
    ensures Apply(PointDistance(a, b), a) == Some(b)
    ensures Apply(Flip(PointDistance(a, b)), b) == Some(a)
    ensures PointDistance(b, a) == Flip(PointDistance(a, b))
  {
  }

  /** Applying an offset and then its flip returns to the start. */
  lemma ApplyFlip(d: TextDifference, p: TextPoint)
    requires Apply(d, p).Some?
    ensures Apply(Flip(d), Apply(d, p).value) == Some(p)
  {
  }

  /** The offsets of the unit tests. */
  lemma DistanceExamples()
    ensures PointDistance(TextPoint(0, 0), TextPoint(1, 1)) == TextDifference(1, 1)
    ensures Apply(TextDifference(1, 1), TextPoint(0, 0)) == Some(TextPoint(1, 1))
    ensures PointDistance(TextPoint(0, 1), TextPoint(1, 0)) == TextDifference(1, -1)
    ensures Apply(TextDifference(1, -1), TextPoint(0, 1)) == Some(TextPoint(1, 0))
    ensures Apply(TextDifference(1, -1), TextPoint(0, 0)) == None
  {
  }

  lemma CornerAndFlipExamples()
    ensures ApplyWithCorner(PointDistance(TextPoint(0, 1), TextPoint(2, 2)), TextPoint(2, 2), TextPoint(3, 3)) == None
    ensures Apply(Flip(TextDifference(1, -1)), TextPoint(1, 0)) == Some(TextPoint(0, 1))
  {
  }
}
