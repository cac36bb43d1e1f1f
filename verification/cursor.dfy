/**
  Comment records and the shared cursor over the sorted comment stream:
  the `{comments, index}` state of index.js and its `slice` function.
 */
module Cursor {
  import opened Options
  import opened Positions

  /** A comment as the parser gives it: a payload the core never inspects, and a position. */
  datatype Comment = Comment(kind: string, value: string, pos: Position)

  /** A copy of a comment with the `leading` and `trailing` flags added. */
  datatype Attached = Attached(comment: Comment, leading: bool, trailing: bool)

  /**
    The comparator applied to a comment and a boundary, read as in
    `compare(...) < 1` (`NotAfter`): the comment is ready exactly when its
    start is not after the boundary in the first encoding the two share,
    and never when they share none (NaN).
   */
  predicate Ready(c: Comment, boundary: Position, compareEnd: bool)
    ensures ByRange(c.pos, boundary) ==>
      (Ready(c, boundary, compareEnd) <==> c.pos.range.value.0 <= RangeBound(boundary, compareEnd))
    ensures !ByRange(c.pos, boundary) && ByLoc(c.pos, boundary, compareEnd) ==>
      (Ready(c, boundary, compareEnd) <==>
         PointLeq(c.pos.loc.value.start.value, LocPoint(boundary.loc.value, compareEnd).value))
    ensures !ByRange(c.pos, boundary) && !ByLoc(c.pos, boundary, compareEnd) && ByFlat(c.pos, boundary, compareEnd) ==>
      (Ready(c, boundary, compareEnd) <==> c.pos.start.value <= Flat(boundary, compareEnd).value)
    ensures !ByRange(c.pos, boundary) && !ByLoc(c.pos, boundary, compareEnd) && !ByFlat(c.pos, boundary, compareEnd) ==>
      !Ready(c, boundary, compareEnd)
  {
    NotAfter(c.pos, boundary, compareEnd)
  }

  /** Copies of `cs` tagged with the given flags, in order. */
  function Tag(cs: seq<Comment>, leading: bool, trailing: bool): (r: seq<Attached>)
    ensures |r| == |cs|
  {
    if cs == [] then [] else Tag(cs[..|cs| - 1], leading, trailing) + [Attached(cs[|cs| - 1], leading, trailing)]
  }

  /** The `k`-th copy is the `k`-th comment with the given flags. */
  lemma {:induction false} TagAt(cs: seq<Comment>, leading: bool, trailing: bool)
    ensures forall k | 0 <= k < |cs| :: Tag(cs, leading, trailing)[k] == Attached(cs[k], leading, trailing)
  {
    if cs != [] {
      TagAt(cs[..|cs| - 1], leading, trailing);
    }
  }

  /** The comments underneath attached copies, with the flags dropped. */
  function Strip(s: seq<Attached>): (r: seq<Comment>)
    ensures |r| == |s|
  {
    seq(|s|, k requires 0 <= k < |s| => s[k].comment)
  }

  /** Tagging keeps the comments: stripping the flags gives back the input. */
  lemma StripTag(cs: seq<Comment>, leading: bool, trailing: bool)
    ensures Strip(Tag(cs, leading, trailing)) == cs
  {
    TagAt(cs, leading, trailing);
  }

  /** Every copy made by `Tag` carries exactly the flags it was given. */
  lemma TagFlags(cs: seq<Comment>, leading: bool, trailing: bool)
    ensures forall a | a in Tag(cs, leading, trailing) :: a.leading == leading && a.trailing == trailing
  {
    TagAt(cs, leading, trailing);
  }

  lemma StripConcat(a: seq<Attached>, b: seq<Attached>)
    ensures Strip(a + b) == Strip(a) + Strip(b)
  {
  }

  /** Consumption order: a run, what was consumed in between, and a later run read back give one segment of the stream. */
  lemma SegmentsJoin(cs: seq<Comment>, i: nat, a: nat, j: nat, b: nat, mid: seq<Attached>,
                     l1: bool, t1: bool, l2: bool, t2: bool)
    requires i <= a <= j <= b <= |cs| && Strip(mid) == cs[a..j]
    ensures Strip(Tag(cs[i..a], l1, t1) + mid + Tag(cs[j..b], l2, t2)) == cs[i..b]
  {
    StripConcat(Tag(cs[i..a], l1, t1), mid);
    StripConcat(Tag(cs[i..a], l1, t1) + mid, Tag(cs[j..b], l2, t2));
    StripTag(cs[i..a], l1, t1);
    StripTag(cs[j..b], l2, t2);
    assert cs[i..b] == cs[i..a] + cs[a..j] + cs[j..b];
  }

  /** Two consecutive stretches of consumption give one segment of the stream. */
  lemma StretchesJoin(cs: seq<Comment>, i: nat, j: nat, k: nat, first: seq<Attached>, second: seq<Attached>)
    requires i <= j <= k <= |cs| && Strip(first) == cs[i..j] && Strip(second) == cs[j..k]
    ensures Strip(first + second) == cs[i..k]
  {
    StripConcat(first, second);
    assert cs[i..k] == cs[i..j] + cs[j..k];
  }

  /**
    How many comments `slice` takes from index `i`: the length of the run
    of consecutive comments, from `i` on, that are ready against the
    boundary.
   */
  function TakeCount(cs: seq<Comment>, i: nat, boundary: Position, compareEnd: bool): (n: nat)
    requires i <= |cs|
    ensures i + n <= |cs|
    decreases |cs| - i, 1
  {
    if i == |cs| then 0 else TakeFrom(cs, i, boundary, compareEnd)
  }

  /** The same run from an index inside the stream: empty unless the comment there is ready. */
  function TakeFrom(cs: seq<Comment>, i: nat, boundary: Position, compareEnd: bool): (n: nat)
    requires i < |cs|
    ensures i + n <= |cs|
    decreases |cs| - i, 0
  {
    if Ready(cs[i], boundary, compareEnd) then 1 + TakeCount(cs, i + 1, boundary, compareEnd) else 0
  }

  /**
    The run `TakeCount` measures is maximal: every comment in it is ready,
    and it stops at the end of the stream or at the first comment that
    compares positive or NaN.
   */
  lemma {:induction false} TakeCountIsMaximalRun(cs: seq<Comment>, i: nat, boundary: Position, compareEnd: bool)
    requires i <= |cs|
    ensures var n := TakeCount(cs, i, boundary, compareEnd);
      && (forall k | i <= k < i + n :: Ready(cs[k], boundary, compareEnd))
      && (i + n == |cs| || !Ready(cs[i + n], boundary, compareEnd))
    decreases |cs| - i
  {
    if i < |cs| && Ready(cs[i], boundary, compareEnd) {
      TakeCountIsMaximalRun(cs, i + 1, boundary, compareEnd);
    }
  }

  /** Conversely, any maximal ready run from `i` is the one `TakeCount` measures. */
  lemma {:induction false} MaximalRunIsTakeCount(cs: seq<Comment>, i: nat, boundary: Position, compareEnd: bool, n: nat)
    requires i + n <= |cs|
    requires forall k | i <= k < i + n :: Ready(cs[k], boundary, compareEnd)
    requires i + n == |cs| || !Ready(cs[i + n], boundary, compareEnd)
    ensures TakeCount(cs, i, boundary, compareEnd) == n
    decreases n
  {
    if n > 0 {
      MaximalRunIsTakeCount(cs, i + 1, boundary, compareEnd, n - 1);
    }
  }

  /** A comment the comparator cannot place against the boundary stops the cursor there. */
  lemma UndefinedStops(cs: seq<Comment>, i: nat, boundary: Position, compareEnd: bool)
    requires i < |cs| && Compare(cs[i].pos, boundary, compareEnd).None?
    ensures TakeCount(cs, i, boundary, compareEnd) == 0
  {
  }

  /** A comment exactly at the boundary is taken at that boundary, not deferred. */
  lemma TieIsTaken(c: Comment, boundary: Position, compareEnd: bool)
    requires Compare(c.pos, boundary, compareEnd) == Some(0)
    ensures Ready(c, boundary, compareEnd)
  {
  }

  /** The traversal state: the sorted comment stream and the one index shared by the whole walk. */
  class State {
    const comments: seq<Comment>
    var index: nat

    ghost predicate Valid()
      reads this
    {
      index <= |comments|
    }

    constructor (comments: seq<Comment>)
      ensures Valid() && this.comments == comments && index == 0
    {
      this.comments := comments;
      index := 0;
    }

    /**
      `slice`: copy the ready run starting at the index, tagged with the
      given flags, and move the index past it.
     */
    method Slice(boundary: Position, compareEnd: bool, leading: bool, trailing: bool) returns (result: seq<Attached>)
      requires Valid()
      modifies this
      ensures Valid()
      ensures index == old(index) + TakeCount(comments, old(index), boundary, compareEnd)
      ensures index == old(index) + |result|
      ensures result == Tag(comments[old(index)..index], leading, trailing)
    {
      result := [];
      while index < |comments| && Ready(comments[index], boundary, compareEnd)
        invariant old(index) <= index <= |comments|
        invariant result == Tag(comments[old(index)..index], leading, trailing)
        invariant TakeCount(comments, old(index), boundary, compareEnd)
          == index - old(index) + TakeCount(comments, index, boundary, compareEnd)
        decreases |comments| - index
      {
        assert comments[old(index)..index + 1][..index - old(index)] == comments[old(index)..index];
        result := result + [Attached(comments[index], leading, trailing)];
        index := index + 1;
      }
    }
  }
}
