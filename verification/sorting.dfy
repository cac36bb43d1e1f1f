/**
  The two `.sort(compare)` calls of index.js: the comments against each
  other, and a node's children against each other, always start against
  start. The engine's sort is represented by a stable insertion sort that
  moves an element left only past elements that compare strictly after it
  (a NaN comparison counts as equal, as in the sort's own definition).
 */
module Sorting {
  import opened Options
  import opened Positions

  /** `compare(a, b) > 0`: `a` belongs after `b`. */
  predicate After(a: Position, b: Position) {
    match Compare(a, b, false)
    case Some(d) => d > 0
    case None => false
  }

  /** Insert `x` into `r` just after the last element that is not after it. */
  function Insert<T>(r: seq<T>, x: T, pos: T -> Position): (s: seq<T>)
    ensures |s| == |r| + 1
  {
    if r == [] || !After(pos(r[|r| - 1]), pos(x)) then r + [x]
    else
      assert r == r[..|r| - 1] + [r[|r| - 1]];
      Insert(r[..|r| - 1], x, pos) + [r[|r| - 1]]
  }

  /** The sorted copy: a permutation of `s` (and sorted by start when the comparator is consistent on `s`). */
  function SortByStart<T>(s: seq<T>, pos: T -> Position): (r: seq<T>)
    ensures |r| == |s|
  {
    if s == [] then []
    else
      assert s == s[..|s| - 1] + [s[|s| - 1]];
      Insert(SortByStart(s[..|s| - 1], pos), s[|s| - 1], pos)
  }

  /** Inserting adds exactly the one element. */
  lemma {:induction false} InsertPermutes<T>(r: seq<T>, x: T, pos: T -> Position)
    ensures multiset(Insert(r, x, pos)) == multiset(r) + multiset{x}
  {
    if r != [] && After(pos(r[|r| - 1]), pos(x)) {
      InsertPermutes(r[..|r| - 1], x, pos);
      assert r == r[..|r| - 1] + [r[|r| - 1]];
    }
  }

  /** The sorted copy holds the same elements as the input, each as often. */
  lemma {:induction false} SortByStartPermutes<T>(s: seq<T>, pos: T -> Position)
    ensures multiset(SortByStart(s, pos)) == multiset(s)
  {
    if s != [] {
      SortByStartPermutes(s[..|s| - 1], pos);
      InsertPermutes(SortByStart(s[..|s| - 1], pos), s[|s| - 1], pos);
      assert s == s[..|s| - 1] + [s[|s| - 1]];
    }
  }

  /** Ascending by start: no element is after a later one. */
  ghost predicate SortedBy<T>(s: seq<T>, pos: T -> Position) {
    forall i, j | 0 <= i < j < |s| :: NotAfter(pos(s[i]), pos(s[j]), false)
  }

  /** A run of a sorted sequence followed by a later run is sorted. */
  lemma RunsSorted<T>(s: seq<T>, i: nat, a: nat, b: nat, c: nat, pos: T -> Position)
    requires i <= a <= b <= c <= |s| && SortedBy(s, pos)
    ensures SortedBy(s[i..a] + s[b..c], pos)
  {
    var r := s[i..a] + s[b..c];
    forall x, y | 0 <= x < y < |r| ensures NotAfter(pos(r[x]), pos(r[y]), false) {
      var X := if x < a - i then i + x else b + x - (a - i);
      var Y := if y < a - i then i + y else b + y - (a - i);
      assert r[x] == s[X] && r[y] == s[Y];
    }
  }

  /**
    The comparator orders the elements of `s` consistently: every two are
    comparable, and "not after" is transitive among them.
   */
  ghost predicate Consistent<T>(s: seq<T>, pos: T -> Position) {
    && (forall x, y | x in s && y in s :: Compare(pos(x), pos(y), false).Some?)
    && (forall x, y, z | x in s && y in s && z in s ::
          NotAfter(pos(x), pos(y), false) && NotAfter(pos(y), pos(z), false) ==> NotAfter(pos(x), pos(z), false))
  }

  lemma ConsistentSub<T>(s: seq<T>, t: seq<T>, pos: T -> Position)
    requires Consistent(s, pos) && forall x | x in t :: x in s
    ensures Consistent(t, pos)
  {
  }

  /** Appending an element that no element is after keeps a sequence sorted. */
  lemma AppendSorted<T>(s: seq<T>, y: T, pos: T -> Position)
    requires SortedBy(s, pos)
    requires forall z | z in s :: NotAfter(pos(z), pos(y), false)
    ensures SortedBy(s + [y], pos)
  {
    forall i, j | 0 <= i < j < |s + [y]| ensures NotAfter(pos((s + [y])[i]), pos((s + [y])[j]), false) {
      if j == |s| {
        assert (s + [y])[i] == s[i] && s[i] in s;
      } else {
        assert (s + [y])[i] == s[i] && (s + [y])[j] == s[j];
      }
    }
  }

  /** In a consistently ordered sorted sequence, what its last element is not after, no element is after. */
  lemma BelowLast<T>(r: seq<T>, x: T, pos: T -> Position)
    requires r != [] && SortedBy(r, pos) && Consistent(r + [x], pos)
    requires NotAfter(pos(r[|r| - 1]), pos(x), false)
    ensures forall z | z in r :: NotAfter(pos(z), pos(x), false)
  {
    var y := r[|r| - 1];
    assert y in r + [x] && x in r + [x];
    forall z | z in r ensures NotAfter(pos(z), pos(x), false) {
      var i :| 0 <= i < |r| && r[i] == z;
      if i < |r| - 1 {
        assert r[i] in r + [x];
        assert NotAfter(pos(r[i]), pos(y), false);
      }
    }
  }

  lemma {:induction false} InsertSorted<T>(r: seq<T>, x: T, pos: T -> Position)
    requires SortedBy(r, pos) && Consistent(r + [x], pos)
    ensures SortedBy(Insert(r, x, pos), pos)
  {
    if r == [] {
    } else if !After(pos(r[|r| - 1]), pos(x)) {
      assert r[|r| - 1] in r + [x] && x in r + [x];
      BelowLast(r, x, pos);
      AppendSorted(r, x, pos);
    } else {
      var init, y := r[..|r| - 1], r[|r| - 1];
      assert y in r + [x] && x in r + [x];
      StartsAntisymmetric(pos(y), pos(x));
      ConsistentSub(r + [x], init + [x], pos);
      assert SortedBy(init, pos);
      InsertSorted(init, x, pos);
      var s := Insert(init, x, pos);
      InsertPermutes(init, x, pos);
      forall z | z in s ensures NotAfter(pos(z), pos(y), false) {
        assert z in multiset(s);
        if z != x {
          var i :| 0 <= i < |init| && init[i] == z;
          assert r[i] == z;
        }
      }
      AppendSorted(s, y, pos);
    }
  }

  /** When the comparator is consistent on `s`, its sorted copy is in ascending start order. */
  lemma {:induction false} SortByStartSorted<T>(s: seq<T>, pos: T -> Position)
    requires Consistent(s, pos)
    ensures SortedBy(SortByStart(s, pos), pos)
  {
    if s != [] {
      var init, x := s[..|s| - 1], s[|s| - 1];
      ConsistentSub(s, init, pos);
      SortByStartSorted(init, pos);
      var r := SortByStart(init, pos);
      SortByStartPermutes(init, pos);
      forall z | z in r + [x] ensures z in s {
        if z in r {
          assert z in multiset(r);
        }
      }
      ConsistentSub(s, r + [x], pos);
      InsertSorted(r, x, pos);
    }
  }

  /** Which single encoding a sequence of records is uniformly positioned by. */
  ghost predicate UniformlyPositioned<T>(s: seq<T>, pos: T -> Position) {
    || (forall x | x in s :: pos(x).range.Some?)
    || (forall x | x in s :: pos(x).range.None? && pos(x).loc.Some? && pos(x).loc.value.start.Some?)
    || (forall x | x in s :: pos(x).range.None? && (pos(x).loc.None? || pos(x).loc.value.start.None?) && pos(x).start.Some?)
  }

  /**
    Records that all carry `range`, or all only `loc.start`, or all only a
    flat `start` (what one parser configuration produces), are ordered
    consistently, so their sorted copy is ascending.
   */
  lemma UniformIsConsistent<T>(s: seq<T>, pos: T -> Position)
    requires UniformlyPositioned(s, pos)
    ensures Consistent(s, pos)
  {
  }
}
