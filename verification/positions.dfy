/** The usual optional value; `None` stands for a missing field. */
module Options {
  datatype Option<+T> = None | Some(value: T)
}

/**
  Positions of syntax nodes and comments, and the comparator `compare` of
  index.js that reconciles the three encodings parsers use for them.
 */
module Positions {
  import opened Options

  /** A line/column point, as in `loc.start` or `loc.end`. */
  datatype Point = Point(line: int, column: int)

  /** The `loc` field of a record; either of its points may be missing. */
  datatype Loc = Loc(start: Option<Point>, end: Option<Point>)

  /**
    The positional fields a record may carry. A record may carry several
    encodings at once (acorn with `ranges: true` gives both `range` and the
    flat `start`/`end`), so each encoding is an optional field of its own.
   */
  datatype Position = Position(
    range: Option<(int, int)>,
    loc: Option<Loc>,
    start: Option<int>,
    end: Option<int>)

  /** A record without any positional field. */
  const UNPOSITIONED := Position(None, None, None, None)

  /** `right.loc[field]`, where `field` is `end` or `start`. */
  function LocPoint(l: Loc, compareEnd: bool): Option<Point> {
    if compareEnd then l.end else l.start
  }

  /** `right[field]` for the flat fields. */
  function Flat(p: Position, compareEnd: bool): Option<int> {
    if compareEnd then p.end else p.start
  }

  /** Both sides expose `range`: offsets decide. */
  predicate ByRange(left: Position, right: Position) {
    left.range.Some? && right.range.Some?
  }

  /** `left.loc.start` and `right.loc[field]` both exist: points decide. */
  predicate ByLoc(left: Position, right: Position, compareEnd: bool) {
    left.loc.Some? && left.loc.value.start.Some? &&
    right.loc.Some? && LocPoint(right.loc.value, compareEnd).Some?
  }

  /** `left.start` and `right[field]` both exist: flat offsets decide. */
  predicate ByFlat(left: Position, right: Position, compareEnd: bool) {
    left.start.Some? && Flat(right, compareEnd).Some?
  }

  /**
    The comparator. `left` is compared by its start against the start of
    `right` (or its end when `compareEnd`). `None` stands for NaN: no
    encoding is shared by the two sides; mixed encodings are never coerced.
   */
  function Compare(left: Position, right: Position, compareEnd: bool): (r: Option<int>)
    ensures r.None? <==> !ByRange(left, right) && !ByLoc(left, right, compareEnd) && !ByFlat(left, right, compareEnd)
  {
    if ByRange(left, right) then
      Some(left.range.value.0 - (if compareEnd then right.range.value.1 else right.range.value.0))
    else if ByLoc(left, right, compareEnd) then
      var a, b := left.loc.value.start.value, LocPoint(right.loc.value, compareEnd).value;
      // `a.line - b.line || a.column - b.column`
      Some(if a.line - b.line != 0 then a.line - b.line else a.column - b.column)
    else if ByFlat(left, right, compareEnd) then
      Some(left.start.value - Flat(right, compareEnd).value)
    else
      None
  }

  /**
    `compare(left, right, compareEnd) < 1`: the comparison is defined and
    `left` is not after `right`'s start (or end). A NaN result never passes.
   */
  predicate NotAfter(left: Position, right: Position, compareEnd: bool) {
    match Compare(left, right, compareEnd)
    case Some(d) => d < 1
    case None => false
  }

  /** Line-then-column order on points, written independently of `Compare`. */
  predicate PointLeq(a: Point, b: Point) {
    a.line < b.line || (a.line == b.line && a.column <= b.column)
  }

  /** The offset of `right` that `left` is compared with under `range`. */
  function RangeBound(right: Position, compareEnd: bool): int
    requires right.range.Some?
  {
    if compareEnd then right.range.value.1 else right.range.value.0
  }

  /** When both sides have `range`, the offsets decide, whatever else the records carry. */
  lemma RangeFirst(left: Position, right: Position, compareEnd: bool)
    requires ByRange(left, right)
    ensures Compare(left, right, compareEnd).Some?
    ensures Compare(left, right, compareEnd).value <= 0 <==> left.range.value.0 <= RangeBound(right, compareEnd)
    ensures Compare(left, right, compareEnd).value == 0 <==> left.range.value.0 == RangeBound(right, compareEnd)
  {
  }

  /**
    Without a common `range`, two `loc` points are ordered line first, then
    column: the result is at most zero exactly when the left point is not
    after the right one, and zero exactly when the points coincide.
   */
  lemma LocIsLineThenColumn(left: Position, right: Position, compareEnd: bool)
    requires !ByRange(left, right) && ByLoc(left, right, compareEnd)
    ensures Compare(left, right, compareEnd).Some?
    ensures var a, b := left.loc.value.start.value, LocPoint(right.loc.value, compareEnd).value;
      && (Compare(left, right, compareEnd).value <= 0 <==> PointLeq(a, b))
      && (Compare(left, right, compareEnd).value == 0 <==> a == b)
  {
  }

  /**
    Without `range` or `loc` on both sides, the flat offsets decide: the
    result is at most zero exactly when the left start is not after the
    right boundary, and zero exactly when they are equal.
   */
  lemma FlatLast(left: Position, right: Position, compareEnd: bool)
    requires !ByRange(left, right) && !ByLoc(left, right, compareEnd) && ByFlat(left, right, compareEnd)
    ensures Compare(left, right, compareEnd).Some?
    ensures Compare(left, right, compareEnd).value <= 0 <==> left.start.value <= Flat(right, compareEnd).value
    ensures Compare(left, right, compareEnd).value == 0 <==> left.start.value == Flat(right, compareEnd).value
  {
  }

  /** A record without positional fields is incomparable with everything. */
  lemma UnpositionedIsUndefined(p: Position, compareEnd: bool)
    ensures Compare(UNPOSITIONED, p, compareEnd).None?
    ensures Compare(p, UNPOSITIONED, compareEnd).None?
  {
  }

  /**
    Start against start, the comparator is antisymmetric: swapping the
    sides negates the difference and keeps NaN.
   */
  lemma StartsAntisymmetric(a: Position, b: Position)
    ensures Compare(a, b, false).None? <==> Compare(b, a, false).None?
    ensures Compare(a, b, false).Some? ==> Compare(b, a, false) == Some(-Compare(a, b, false).value)
  {
  }
}
