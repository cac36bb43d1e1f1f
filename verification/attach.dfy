/**
  The node visitor `walk` and the entry point `attachComments` of index.js.

  A node is an object whose structure (kind, position, children) the pass
  only reads and whose `comments` field it writes. What one walk does is
  specified by ghost functions that follow `walk` step by step on values:
  `Walked` gives the cursor index it leaves, `Written` the lists it assigns
  (a later write to the same node replaces an earlier one, as an assignment
  does) and `Log` the attached copies in the order the cursor made them.
 */
module Attach {
  import opened Options
  import opened Positions
  import opened Cursor
  import opened Sorting

  /**
    A syntax node. `children` holds the values of its child-bearing fields
    in field-enumeration order; `comments` is the attached-comments field,
    `None` while the node has none.
   */
  class Node {
    const kind: string
    const pos: Position
    const children: seq<Node>
    var comments: Option<seq<Attached>>
    ghost const repr: set<Node>
    ghost const height: nat

    /** The node and its descendants form an acyclic structure that `repr` covers. */
    ghost predicate Valid()
      decreases height
    {
      this in repr &&
      forall j | 0 <= j < |children| ::
        children[j] in repr && children[j].repr <= repr && children[j].height < height && children[j].Valid()
    }

    constructor (kind: string, pos: Position, children: seq<Node>)
      requires forall c | c in children :: c.Valid()
      ensures Valid()
      ensures this.kind == kind && this.pos == pos && this.children == children && comments == None
      ensures repr == {this} + ReprOf(children)
    {
      this.kind := kind;
      this.pos := pos;
      this.children := children;
      comments := None;
      repr := {this} + ReprOf(children);
      height := 1 + MaxHeight(children);
      assert forall j | 0 <= j < |children| :: children[j] in children;
    }
  }

  ghost function ReprOf(s: seq<Node>): (r: set<Node>)
    ensures forall c | c in s :: c.repr <= r
  {
    if s == [] then {} else s[0].repr + ReprOf(s[1..])
  }

  ghost function MaxHeight(s: seq<Node>): (h: nat)
    ensures forall c | c in s :: c.height <= h
  {
    if s == [] then 0 else var t := MaxHeight(s[1..]); if s[0].height < t then t else s[0].height
  }

  function NodePos(n: Node): Position { n.pos }

  function CommentPos(c: Comment): Position { c.pos }

  /** Every node of `kids` is a valid structure inside `n`'s footprint and below `n`. */
  ghost predicate Subtrees(n: Node, kids: seq<Node>) {
    forall j | 0 <= j < |kids| :: kids[j].Valid() && kids[j].repr <= n.repr && kids[j].height < n.height
  }

  /** `children.sort(compare)`: the node's children, rearranged. */
  function SortedChildren(n: Node): (r: seq<Node>)
    requires n.Valid()
    ensures |r| == |n.children| && forall j | 0 <= j < |r| :: r[j] in n.children
    ensures Subtrees(n, r)
  {
    var r := SortByStart(n.children, NodePos);
    SortByStartPermutes(n.children, NodePos);
    forall j | 0 <= j < |r| ensures r[j] in n.children {
      assert r[j] in multiset(n.children);
    }
    r
  }

  /** The sorted children are the node's children, each as often as it occurs among them. */
  lemma ChildrenPermuted(n: Node)
    requires n.Valid()
    ensures multiset(SortedChildren(n)) == multiset(n.children)
  {
    SortByStartPermutes(n.children, NodePos);
  }

  /** When the children's positions are ordered consistently, they are visited in ascending start order. */
  lemma ChildrenInStartOrder(n: Node)
    requires n.Valid() && Consistent(n.children, NodePos)
    ensures SortedBy(SortedChildren(n), NodePos)
  {
    SortByStartSorted(n.children, NodePos);
  }

  // ---------------------------------------------------------------------
  // What one walk does, on values
  // ---------------------------------------------------------------------

  /** How far `walk(n, state)` moves the index from `i` over the stream `cs`. */
  ghost function Walked(n: Node, cs: seq<Comment>, i: nat): (j: nat)
    requires n.Valid() && i <= |cs|
    ensures i <= j <= |cs|
    decreases n.height, 1
  {
    if i == |cs| then i
    else
      var b := WalkedEach(n, SortedChildren(n), |n.children|, cs, i + TakeCount(cs, i, n.pos, false));
      b + TakeCount(cs, b, n.pos, true)
  }

  /** How far the walks of the first `k` of `kids`, one after the other, move the index from `i`. */
  ghost function WalkedEach(n: Node, kids: seq<Node>, k: nat, cs: seq<Comment>, i: nat): (j: nat)
    requires Subtrees(n, kids)
    requires k <= |kids| && i <= |cs|
    ensures i <= j <= |cs|
    decreases n.height, 0, k
  {
    if k == 0 then i else Walked(kids[k - 1], cs, WalkedEach(n, kids, k - 1, cs, i))
  }

  /**
    The list `walk(n, state)` gives `n` itself: the leading run against the
    node's start, then, after the children, the run against its end, tagged
    trailing when there are children and dangling when there are none.
   */
  ghost function Own(n: Node, cs: seq<Comment>, i: nat): (own: seq<Attached>)
    requires n.Valid() && i < |cs|
    ensures Flagged(n, own)
  {
    var a := i + TakeCount(cs, i, n.pos, false);
    var b := WalkedEach(n, SortedChildren(n), |n.children|, cs, a);
    var c := b + TakeCount(cs, b, n.pos, true);
    RunsFlagged(n, cs[i..a], cs[b..c]);
    Tag(cs[i..a], true, false) + Tag(cs[b..c], false, |n.children| > 0)
  }

  /**
    The lists `walk(n, state)` assigns, by node: those of the children's
    walks, then the node's own list when it is non-empty.
   */
  ghost function Written(n: Node, cs: seq<Comment>, i: nat): (w: map<Node, seq<Attached>>)
    requires n.Valid() && i <= |cs|
    ensures w.Keys <= n.repr
    decreases n.height, 1
  {
    if i == |cs| then map[]
    else
      var kids := WrittenEach(n, SortedChildren(n), |n.children|, cs, i + TakeCount(cs, i, n.pos, false));
      var own := Own(n, cs, i);
      if |own| > 0 then kids[n := own] else kids
  }

  /** The lists the walks of the first `k` of `kids` assign, one walk after the other. */
  ghost function WrittenEach(n: Node, kids: seq<Node>, k: nat, cs: seq<Comment>, i: nat): (w: map<Node, seq<Attached>>)
    requires Subtrees(n, kids)
    requires k <= |kids| && i <= |cs|
    ensures w.Keys <= n.repr
    decreases n.height, 0, k
  {
    if k == 0 then map[]
    else WrittenEach(n, kids, k - 1, cs, i) + Written(kids[k - 1], cs, WalkedEach(n, kids, k - 1, cs, i))
  }

  /** The copies `walk(n, state)` makes, in the order it makes them. */
  ghost function Log(n: Node, cs: seq<Comment>, i: nat): (log: seq<Attached>)
    requires n.Valid() && i <= |cs|
    decreases n.height, 1
  {
    if i == |cs| then []
    else
      var a := i + TakeCount(cs, i, n.pos, false);
      var b := WalkedEach(n, SortedChildren(n), |n.children|, cs, a);
      Tag(cs[i..a], true, false) + LogEach(n, SortedChildren(n), |n.children|, cs, a)
        + Tag(cs[b..b + TakeCount(cs, b, n.pos, true)], false, |n.children| > 0)
  }

  /** The copies the walks of the first `k` of `kids` make, one walk after the other. */
  ghost function LogEach(n: Node, kids: seq<Node>, k: nat, cs: seq<Comment>, i: nat): (log: seq<Attached>)
    requires Subtrees(n, kids)
    requires k <= |kids| && i <= |cs|
    decreases n.height, 0, k
  {
    if k == 0 then [] else LogEach(n, kids, k - 1, cs, i) + Log(kids[k - 1], cs, WalkedEach(n, kids, k - 1, cs, i))
  }

  /**
    `log`, with the flags dropped, is the stretch `cs[i..j]` of the stream,
    in order: every comment passed is copied once and none is skipped.
   */
  ghost predicate Consumed(log: seq<Attached>, cs: seq<Comment>, i: nat, j: nat)
    requires i <= j <= |cs|
  {
    Strip(log) == cs[i..j]
  }

  // ---------------------------------------------------------------------
  // Properties of a walk
  // ---------------------------------------------------------------------

  /**
    The copies a walk makes, with the flags dropped, are exactly the
    stretch of the sorted stream the cursor moved over, in order: every
    comment passed is copied once and none is skipped.
   */
  lemma {:induction false} WalkConsumes(n: Node, cs: seq<Comment>, i: nat)
    requires n.Valid() && i <= |cs|
    ensures Consumed(Log(n, cs, i), cs, i, Walked(n, cs, i))
    decreases n.height, 1
  {
    if i < |cs| {
      var kids := SortedChildren(n);
      var a := i + TakeCount(cs, i, n.pos, false);
      var b := WalkedEach(n, kids, |n.children|, cs, a);
      var c := b + TakeCount(cs, b, n.pos, true);
      var mid := LogEach(n, kids, |n.children|, cs, a);
      assert Walked(n, cs, i) == c;
      assert Log(n, cs, i) == Tag(cs[i..a], true, false) + mid + Tag(cs[b..c], false, |n.children| > 0);
      EachConsumes(n, kids, |n.children|, cs, a);
      SegmentsJoin(cs, i, a, b, c, mid, true, false, false, |n.children| > 0);
    }
  }

  lemma {:induction false} EachConsumes(n: Node, kids: seq<Node>, k: nat, cs: seq<Comment>, i: nat)
    requires Subtrees(n, kids) && k <= |kids| && i <= |cs|
    ensures Consumed(LogEach(n, kids, k, cs, i), cs, i, WalkedEach(n, kids, k, cs, i))
    decreases n.height, 0, k
  {
    if k > 0 {
      var j := WalkedEach(n, kids, k - 1, cs, i);
      EachConsumes(n, kids, k - 1, cs, i);
      WalkConsumes(kids[k - 1], cs, j);
      ConsumesStep(n, kids, k - 1, cs, i, j);
    }
  }

  /** One more child's walk extends the stretch consumed by the children before it. */
  lemma ConsumesStep(n: Node, kids: seq<Node>, k: nat, cs: seq<Comment>, i: nat, j: nat)
    requires Subtrees(n, kids) && k < |kids| && i <= |cs|
    requires j == WalkedEach(n, kids, k, cs, i)
    requires Consumed(LogEach(n, kids, k, cs, i), cs, i, j)
    requires Consumed(Log(kids[k], cs, j), cs, j, Walked(kids[k], cs, j))
    ensures Consumed(LogEach(n, kids, k + 1, cs, i), cs, i, WalkedEach(n, kids, k + 1, cs, i))
  {
    var before, here := LogEach(n, kids, k, cs, i), Log(kids[k], cs, j);
    assert LogEach(n, kids, k + 1, cs, i) == before + here;
    assert WalkedEach(n, kids, k + 1, cs, i) == Walked(kids[k], cs, j);
    StretchesJoin(cs, i, j, Walked(kids[k], cs, j), before, here);
  }

  /**
    The flags of one node's list: each copy is leading (and not trailing),
    or not leading and trailing exactly when the node has children
    (dangling otherwise); no leading copy follows a non-leading one.
   */
  ghost predicate Flagged(m: Node, list: seq<Attached>) {
    && (forall k | 0 <= k < |list| ::
          (list[k].leading && !list[k].trailing) || (!list[k].leading && list[k].trailing == (|m.children| > 0)))
    && (forall j, k | 0 <= j < k < |list| :: list[k].leading ==> list[j].leading)
  }

  /** A leading run followed by a run tagged as `walk` tags the node's trailing comments is flagged as its list. */
  lemma RunsFlagged(m: Node, lead: seq<Comment>, trail: seq<Comment>)
    ensures Flagged(m, Tag(lead, true, false) + Tag(trail, false, |m.children| > 0))
  {
    var x, y := Tag(lead, true, false), Tag(trail, false, |m.children| > 0);
    TagAt(lead, true, false);
    TagAt(trail, false, |m.children| > 0);
    forall k | 0 <= k < |x + y|
      ensures (x + y)[k] == if k < |x| then x[k] else y[k - |x|]
    {
    }
  }

  /** Every list in `w` is non-empty and flagged as its node's list. */
  ghost predicate AllFlagged(w: map<Node, seq<Attached>>) {
    forall m | m in w :: |w[m]| > 0 && Flagged(m, w[m])
  }

  /** Later writes replace earlier ones: flagged lists stay flagged. */
  lemma FlaggedJoined(w: map<Node, seq<Attached>>, v: map<Node, seq<Attached>>)
    requires AllFlagged(w) && AllFlagged(v)
    ensures AllFlagged(w + v)
  {
  }

  /** Every list a walk assigns is non-empty and flagged as its node's list. */
  lemma {:induction false} WrittenFlagged(n: Node, cs: seq<Comment>, i: nat)
    requires n.Valid() && i <= |cs|
    ensures AllFlagged(Written(n, cs, i))
    decreases n.height, 1
  {
    if i < |cs| {
      var a := i + TakeCount(cs, i, n.pos, false);
      var kids := WrittenEach(n, SortedChildren(n), |n.children|, cs, a);
      EachFlagged(n, SortedChildren(n), |n.children|, cs, a);
      WrittenIs(n, cs, i, a, kids);
    }
  }

  lemma {:induction false} EachFlagged(n: Node, kids: seq<Node>, k: nat, cs: seq<Comment>, i: nat)
    requires Subtrees(n, kids) && k <= |kids| && i <= |cs|
    ensures AllFlagged(WrittenEach(n, kids, k, cs, i))
    decreases n.height, 0, k
  {
    if k > 0 {
      var j := WalkedEach(n, kids, k - 1, cs, i);
      EachFlagged(n, kids, k - 1, cs, i);
      WrittenFlagged(kids[k - 1], cs, j);
      FlaggedJoined(WrittenEach(n, kids, k - 1, cs, i), Written(kids[k - 1], cs, j));
      EachStep(n, kids, k - 1, cs, i);
    }
  }

  /**
    Where the copies of one node's list lie: each leading copy is at or
    before the node's start, and each trailing or dangling copy at or
    before its end, as the comparator sees them.
   */
  ghost predicate Placed(m: Node, list: seq<Attached>) {
    forall k | 0 <= k < |list| :: Ready(list[k].comment, m.pos, !list[k].leading)
  }

  /** A node's own list is placed against the node's start and end. */
  lemma OwnPlaced(n: Node, cs: seq<Comment>, i: nat)
    requires n.Valid() && i < |cs|
    ensures Placed(n, Own(n, cs, i))
  {
    var a := i + TakeCount(cs, i, n.pos, false);
    var b := WalkedEach(n, SortedChildren(n), |n.children|, cs, a);
    OwnIs(n, cs, i, a, b);
    TakeCountIsMaximalRun(cs, i, n.pos, false);
    TakeCountIsMaximalRun(cs, b, n.pos, true);
    RunsPlaced(n, cs, i, a, b, Walked(n, cs, i), |n.children| > 0);
  }

  /**
    A run ready against the node's start, tagged leading, followed by a run
    ready against its end, tagged otherwise, is placed against the node.
   */
  lemma RunsPlaced(m: Node, cs: seq<Comment>, i: nat, a: nat, b: nat, c: nat, trailing: bool)
    requires i <= a <= |cs| && b <= c <= |cs|
    requires forall k | i <= k < a :: Ready(cs[k], m.pos, false)
    requires forall k | b <= k < c :: Ready(cs[k], m.pos, true)
    ensures Placed(m, Tag(cs[i..a], true, false) + Tag(cs[b..c], false, trailing))
  {
    var x, y := Tag(cs[i..a], true, false), Tag(cs[b..c], false, trailing);
    TagAt(cs[i..a], true, false);
    TagAt(cs[b..c], false, trailing);
    var list: seq<Attached> := x + y;
    forall k | 0 <= k < |list| ensures Ready(list[k].comment, m.pos, !list[k].leading) {
      if k < |x| {
        assert list[k] == Attached(cs[i + k], true, false);
      } else {
        assert list[k] == Attached(cs[b + k - |x|], false, trailing);
      }
    }
  }

  /** Every list in `w` is placed against its own node. */
  ghost predicate AllPlaced(w: map<Node, seq<Attached>>) {
    forall m | m in w :: Placed(m, w[m])
  }

  /** Later writes replace earlier ones: placed lists stay placed. */
  lemma PlacedJoined(w: map<Node, seq<Attached>>, v: map<Node, seq<Attached>>)
    requires AllPlaced(w) && AllPlaced(v)
    ensures AllPlaced(w + v)
  {
  }

  /**
    Every list a walk assigns, to the node or to any node below it, holds
    leading copies at or before that node's start and trailing or dangling
    copies at or before that node's end.
   */
  lemma {:induction false} WrittenPlaced(n: Node, cs: seq<Comment>, i: nat)
    requires n.Valid() && i <= |cs|
    ensures AllPlaced(Written(n, cs, i))
    decreases n.height, 1
  {
    if i < |cs| {
      var a := i + TakeCount(cs, i, n.pos, false);
      var kids := WrittenEach(n, SortedChildren(n), |n.children|, cs, a);
      EachPlaced(n, SortedChildren(n), |n.children|, cs, a);
      OwnPlaced(n, cs, i);
      WrittenIs(n, cs, i, a, kids);
    }
  }

  lemma {:induction false} EachPlaced(n: Node, kids: seq<Node>, k: nat, cs: seq<Comment>, i: nat)
    requires Subtrees(n, kids) && k <= |kids| && i <= |cs|
    ensures AllPlaced(WrittenEach(n, kids, k, cs, i))
    decreases n.height, 0, k
  {
    if k > 0 {
      var j := WalkedEach(n, kids, k - 1, cs, i);
      EachPlaced(n, kids, k - 1, cs, i);
      WrittenPlaced(kids[k - 1], cs, j);
      PlacedJoined(WrittenEach(n, kids, k - 1, cs, i), Written(kids[k - 1], cs, j));
      EachStep(n, kids, k - 1, cs, i);
    }
  }

  /**
    Over a stream in ascending start order, a node's own list is in
    ascending start order too: it is a run of the stream followed by a
    later run.
   */
  lemma OwnInOrder(n: Node, cs: seq<Comment>, i: nat)
    requires n.Valid() && i < |cs| && SortedBy(cs, CommentPos)
    ensures SortedBy(Strip(Own(n, cs, i)), CommentPos)
  {
    var a := i + TakeCount(cs, i, n.pos, false);
    var b := WalkedEach(n, SortedChildren(n), |n.children|, cs, a);
    OwnCopies(n, cs, i, a, b);
    RunsSorted(cs, i, a, b, Walked(n, cs, i), CommentPos);
  }

  /** Every list in `w`, with the flags dropped, is in ascending start order. */
  ghost predicate AllInOrder(w: map<Node, seq<Attached>>) {
    forall m | m in w :: SortedBy(Strip(w[m]), CommentPos)
  }

  /** Later writes replace earlier ones: lists in order stay in order. */
  lemma InOrderJoined(w: map<Node, seq<Attached>>, v: map<Node, seq<Attached>>)
    requires AllInOrder(w) && AllInOrder(v)
    ensures AllInOrder(w + v)
  {
  }

  /** Adding a node's list in ascending start order keeps every list in order. */
  lemma InOrderExtended(w: map<Node, seq<Attached>>, n: Node, own: seq<Attached>)
    requires AllInOrder(w) && SortedBy(Strip(own), CommentPos)
    ensures AllInOrder(if |own| > 0 then w[n := own] else w)
  {
  }

  /** Over a stream in ascending start order, every list a walk assigns is in ascending start order. */
  lemma {:induction false} WrittenInOrder(n: Node, cs: seq<Comment>, i: nat)
    requires n.Valid() && i <= |cs| && SortedBy(cs, CommentPos)
    ensures AllInOrder(Written(n, cs, i))
    decreases n.height, 1
  {
    if i < |cs| {
      var a := i + TakeCount(cs, i, n.pos, false);
      var kids := WrittenEach(n, SortedChildren(n), |n.children|, cs, a);
      EachInOrder(n, SortedChildren(n), |n.children|, cs, a);
      OwnInOrder(n, cs, i);
      InOrderExtended(kids, n, Own(n, cs, i));
      WrittenIs(n, cs, i, a, kids);
    }
  }

  lemma {:induction false} EachInOrder(n: Node, kids: seq<Node>, k: nat, cs: seq<Comment>, i: nat)
    requires Subtrees(n, kids) && k <= |kids| && i <= |cs| && SortedBy(cs, CommentPos)
    ensures AllInOrder(WrittenEach(n, kids, k, cs, i))
    decreases n.height, 0, k
  {
    if k > 0 {
      var j := WalkedEach(n, kids, k - 1, cs, i);
      EachInOrder(n, kids, k - 1, cs, i);
      WrittenInOrder(kids[k - 1], cs, j);
      InOrderJoined(WrittenEach(n, kids, k - 1, cs, i), Written(kids[k - 1], cs, j));
      EachStep(n, kids, k - 1, cs, i);
    }
  }

  /**
    The stream positions one node's list is copied from: the leading run
    `[from, leadTo)` and, after the children's walks, the trailing (or
    dangling) run `[trailFrom, to)`.
   */
  datatype Span = Span(from: nat, leadTo: nat, trailFrom: nat, to: nat)

  /** Stream position `k` is one the span copies. */
  predicate Holds(s: Span, k: int) {
    s.from <= k < s.leadTo || s.trailFrom <= k < s.to
  }

  /** The span lies, in order, within `[lo, hi)`. */
  predicate Inside(s: Span, lo: nat, hi: nat) {
    lo <= s.from <= s.leadTo <= s.trailFrom <= s.to <= hi
  }

  /** The comments a span covers, in stream order. */
  function Covered(s: Span, cs: seq<Comment>): seq<Comment>
    requires Inside(s, 0, |cs|)
  {
    cs[s.from..s.leadTo] + cs[s.trailFrom..s.to]
  }

  /**
    Where the lists of `walk(n, state)` are copied from, by node: as
    `Written`, with the node's own span around those of its children.
   */
  ghost function Spans(n: Node, cs: seq<Comment>, i: nat): (sp: map<Node, Span>)
    requires n.Valid() && i <= |cs|
    decreases n.height, 1
  {
    if i == |cs| then map[]
    else
      var a := i + TakeCount(cs, i, n.pos, false);
      var b := WalkedEach(n, SortedChildren(n), |n.children|, cs, a);
      var kids := SpansEach(n, SortedChildren(n), |n.children|, cs, a);
      if |Own(n, cs, i)| > 0 then kids[n := Span(i, a, b, Walked(n, cs, i))] else kids
  }

  /** Where the lists of the walks of the first `k` of `kids` are copied from. */
  ghost function SpansEach(n: Node, kids: seq<Node>, k: nat, cs: seq<Comment>, i: nat): (sp: map<Node, Span>)
    requires Subtrees(n, kids)
    requires k <= |kids| && i <= |cs|
    decreases n.height, 0, k
  {
    if k == 0 then map[]
    else SpansEach(n, kids, k - 1, cs, i) + Spans(kids[k - 1], cs, WalkedEach(n, kids, k - 1, cs, i))
  }

  /** Every span lies within `[lo, hi)`. */
  ghost predicate Within(sp: map<Node, Span>, lo: nat, hi: nat) {
    forall m | m in sp :: Inside(sp[m], lo, hi)
  }

  /** Every list, with the flags dropped, is what its span covers, in stream order. */
  ghost predicate Copied(w: map<Node, seq<Attached>>, sp: map<Node, Span>, cs: seq<Comment>) {
    forall m | m in w :: m in sp && Inside(sp[m], 0, |cs|) && Strip(w[m]) == Covered(sp[m], cs)
  }

  /** No stream position lies in the spans of two nodes. */
  ghost predicate Separate(sp: map<Node, Span>) {
    forall m1, m2, k | m1 in sp && m2 in sp && m1 != m2 && Holds(sp[m1], k) :: !Holds(sp[m2], k)
  }

  /**
    The lists `w` are laid out over `cs[lo..hi]` by the spans `sp`: every
    list is copied from its span, and no stream position is copied into
    two lists.
   */
  ghost predicate Laid(w: map<Node, seq<Attached>>, sp: map<Node, Span>, cs: seq<Comment>, lo: nat, hi: nat) {
    lo <= hi <= |cs| && w.Keys == sp.Keys && Within(sp, lo, hi) && Copied(w, sp, cs) && Separate(sp)
  }

  lemma WithinJoined(s1: map<Node, Span>, s2: map<Node, Span>, i: nat, j: nat, l: nat)
    requires i <= j <= l && Within(s1, i, j) && Within(s2, j, l)
    ensures Within(s1 + s2, i, l)
  {
    forall m | m in s1 + s2 ensures Inside((s1 + s2)[m], i, l) {
      if m in s2 {
        assert (s1 + s2)[m] == s2[m];
      } else {
        assert (s1 + s2)[m] == s1[m];
      }
    }
  }

  lemma CopiedJoined(w1: map<Node, seq<Attached>>, s1: map<Node, Span>, w2: map<Node, seq<Attached>>, s2: map<Node, Span>,
                     cs: seq<Comment>)
    requires w2.Keys == s2.Keys && Copied(w1, s1, cs) && Copied(w2, s2, cs)
    ensures Copied(w1 + w2, s1 + s2, cs)
  {
    forall m | m in w1 + w2
      ensures m in s1 + s2 && Inside((s1 + s2)[m], 0, |cs|) && Strip((w1 + w2)[m]) == Covered((s1 + s2)[m], cs)
    {
      if m in w2 {
        assert (w1 + w2)[m] == w2[m] && (s1 + s2)[m] == s2[m];
      } else {
        assert (w1 + w2)[m] == w1[m] && (s1 + s2)[m] == s1[m];
      }
    }
  }

  lemma SeparateJoined(s1: map<Node, Span>, s2: map<Node, Span>, i: nat, j: nat, l: nat)
    requires Within(s1, i, j) && Within(s2, j, l) && Separate(s1) && Separate(s2)
    ensures Separate(s1 + s2)
  {
    var s := s1 + s2;
    forall m1, m2, k | m1 in s && m2 in s && m1 != m2 && Holds(s[m1], k) ensures !Holds(s[m2], k) {
      if m1 in s2 && m2 in s2 {
        assert s[m1] == s2[m1] && s[m2] == s2[m2];
      } else if m1 in s2 {
        assert s[m1] == s2[m1] && s[m2] == s1[m2] && Inside(s1[m2], i, j) && Inside(s2[m1], j, l);
      } else if m2 in s2 {
        assert s[m1] == s1[m1] && s[m2] == s2[m2] && Inside(s1[m1], i, j) && Inside(s2[m2], j, l);
      } else {
        assert s[m1] == s1[m1] && s[m2] == s1[m2];
      }
    }
  }

  /** Lists laid out over one stretch, then lists laid out over the next, are laid out over both. */
  lemma LaidJoined(w1: map<Node, seq<Attached>>, s1: map<Node, Span>, w2: map<Node, seq<Attached>>, s2: map<Node, Span>,
                   cs: seq<Comment>, i: nat, j: nat, l: nat)
    requires Laid(w1, s1, cs, i, j) && Laid(w2, s2, cs, j, l)
    ensures Laid(w1 + w2, s1 + s2, cs, i, l)
  {
    WithinJoined(s1, s2, i, j, l);
    CopiedJoined(w1, s1, w2, s2, cs);
    SeparateJoined(s1, s2, i, j, l);
  }

  /**
    A node's own list, copied from `cs[i..a]` and `cs[b..c]` around the
    children's lists laid out over `cs[a..b]`, shares no position with them.
   */
  lemma LaidExtended(w: map<Node, seq<Attached>>, sp: map<Node, Span>, cs: seq<Comment>, a: nat, b: nat,
                     n: Node, own: seq<Attached>, i: nat, c: nat)
    requires Laid(w, sp, cs, a, b) && i <= a && b <= c <= |cs|
    requires Strip(own) == Covered(Span(i, a, b, c), cs)
    ensures Laid(if |own| > 0 then w[n := own] else w, if |own| > 0 then sp[n := Span(i, a, b, c)] else sp, cs, i, c)
  {
    WithinWidened(sp, a, b, i, c);
    if |own| > 0 {
      WithinAround(sp, n, i, a, b, c);
      SeparateAround(sp, n, i, a, b, c);
    }
  }

  lemma WithinWidened(sp: map<Node, Span>, a: nat, b: nat, i: nat, c: nat)
    requires Within(sp, a, b) && i <= a && b <= c
    ensures Within(sp, i, c)
  {
    forall m | m in sp ensures Inside(sp[m], i, c) {
      assert Inside(sp[m], a, b);
    }
  }

  /** Adding the span `Span(i, a, b, c)` around spans within `[a, b)` keeps every span within `[i, c)`. */
  lemma WithinAround(sp: map<Node, Span>, n: Node, i: nat, a: nat, b: nat, c: nat)
    requires Within(sp, i, c) && i <= a <= b <= c
    ensures Within(sp[n := Span(i, a, b, c)], i, c)
  {
    var sp' := sp[n := Span(i, a, b, c)];
    forall m | m in sp' ensures Inside(sp'[m], i, c) {
      if m != n {
        assert sp'[m] == sp[m];
      }
    }
  }

  /** The span `Span(i, a, b, c)` shares no position with spans within `[a, b)`. */
  lemma SeparateAround(sp: map<Node, Span>, n: Node, i: nat, a: nat, b: nat, c: nat)
    requires Within(sp, a, b) && Separate(sp)
    ensures Separate(sp[n := Span(i, a, b, c)])
  {
    var sp' := sp[n := Span(i, a, b, c)];
    forall m1, m2, k | m1 in sp' && m2 in sp' && m1 != m2 && Holds(sp'[m1], k) ensures !Holds(sp'[m2], k) {
      if m1 == n {
        assert sp'[m2] == sp[m2] && Inside(sp[m2], a, b);
      } else if m2 == n {
        assert sp'[m1] == sp[m1] && Inside(sp[m1], a, b);
      } else {
        assert sp'[m1] == sp[m1] && sp'[m2] == sp[m2];
      }
    }
  }

  /** A node's own list, with the flags dropped, is its leading run followed by its trailing run. */
  lemma OwnCopies(n: Node, cs: seq<Comment>, i: nat, a: nat, b: nat)
    requires n.Valid() && i < |cs|
    requires a == i + TakeCount(cs, i, n.pos, false)
    requires b == WalkedEach(n, SortedChildren(n), |n.children|, cs, a)
    ensures Strip(Own(n, cs, i)) == cs[i..a] + cs[b..Walked(n, cs, i)]
  {
    var c := Walked(n, cs, i);
    var lead, trail := Tag(cs[i..a], true, false), Tag(cs[b..c], false, |n.children| > 0);
    OwnIs(n, cs, i, a, b);
    StripConcat(lead, trail);
    StripTag(cs[i..a], true, false);
    StripTag(cs[b..c], false, |n.children| > 0);
  }

  /** The walk's spans are the children's, then the node's own span when its list is non-empty. */
  lemma SpansIs(n: Node, cs: seq<Comment>, i: nat, a: nat, kids: map<Node, Span>)
    requires n.Valid() && i < |cs| && a == i + TakeCount(cs, i, n.pos, false)
    requires kids == SpansEach(n, SortedChildren(n), |n.children|, cs, a)
    ensures Spans(n, cs, i) ==
      if |Own(n, cs, i)| > 0
      then kids[n := Span(i, a, WalkedEach(n, SortedChildren(n), |n.children|, cs, a), Walked(n, cs, i))]
      else kids
  {
  }

  /**
    Each comment the walk passes is copied into at most one node's list:
    every list a walk assigns, with the flags dropped, is the stretch of
    the sorted stream its span covers, the spans lie within the stretch the
    cursor moved over, and no stream position lies in two of them.
   */
  lemma {:induction false} WrittenLaid(n: Node, cs: seq<Comment>, i: nat)
    requires n.Valid() && i <= |cs|
    ensures Laid(Written(n, cs, i), Spans(n, cs, i), cs, i, Walked(n, cs, i))
    decreases n.height, 1
  {
    if i < |cs| {
      var kids := SortedChildren(n);
      var a := i + TakeCount(cs, i, n.pos, false);
      var b := WalkedEach(n, kids, |n.children|, cs, a);
      var w, sp := WrittenEach(n, kids, |n.children|, cs, a), SpansEach(n, kids, |n.children|, cs, a);
      EachLaid(n, kids, |n.children|, cs, a);
      OwnCopies(n, cs, i, a, b);
      LaidExtended(w, sp, cs, a, b, n, Own(n, cs, i), i, Walked(n, cs, i));
      WrittenIs(n, cs, i, a, w);
      SpansIs(n, cs, i, a, sp);
    }
  }

  lemma {:induction false} EachLaid(n: Node, kids: seq<Node>, k: nat, cs: seq<Comment>, i: nat)
    requires Subtrees(n, kids) && k <= |kids| && i <= |cs|
    ensures Laid(WrittenEach(n, kids, k, cs, i), SpansEach(n, kids, k, cs, i), cs, i, WalkedEach(n, kids, k, cs, i))
    decreases n.height, 0, k
  {
    if k > 0 {
      var j := WalkedEach(n, kids, k - 1, cs, i);
      EachLaid(n, kids, k - 1, cs, i);
      WrittenLaid(kids[k - 1], cs, j);
      LaidJoined(WrittenEach(n, kids, k - 1, cs, i), SpansEach(n, kids, k - 1, cs, i),
                 Written(kids[k - 1], cs, j), Spans(kids[k - 1], cs, j), cs, i, j, Walked(kids[k - 1], cs, j));
      EachStep(n, kids, k - 1, cs, i);
    }
  }

  /**
    The shape of an ESTree tree: no node lies below itself, and distinct
    children share no node, all the way down.
   */
  ghost predicate Tree(n: Node)
    requires n.Valid()
    decreases n.height
  {
    && Disjoint(n.children)
    && forall j | 0 <= j < |n.children| :: n !in n.children[j].repr && Tree(n.children[j])
  }

  /** No two entries of `kids` share a node. */
  ghost predicate Disjoint(kids: seq<Node>) {
    forall j1, j2 | 0 <= j1 < j2 < |kids| :: kids[j1].repr !! kids[j2].repr
  }

  /** The nodes of the first `k` of `kids` and of everything below them. */
  ghost function Below(kids: seq<Node>, k: nat): set<Node>
    requires k <= |kids|
  {
    if k == 0 then {} else Below(kids, k - 1) + kids[k - 1].repr
  }

  lemma {:induction false} BelowApart(kids: seq<Node>, k: nat, x: set<Node>)
    requires k <= |kids| && forall j | 0 <= j < k :: kids[j].repr !! x
    ensures Below(kids, k) !! x
  {
    if k > 0 {
      BelowApart(kids, k - 1, x);
    }
  }

  /** A node at two places of `s` occurs in it at least twice. */
  lemma TwiceCounted(s: seq<Node>, p: nat, q: nat)
    requires p < q < |s| && s[p] == s[q]
    ensures multiset(s)[s[p]] >= 2
  {
    assert s == s[..p] + [s[p]] + s[p + 1..q] + [s[q]] + s[q + 1..];
  }

  /** A node occurring at least twice in `s` sits at two places of it. */
  lemma {:induction false} CountedTwice(s: seq<Node>, x: Node)
    requires multiset(s)[x] >= 2
    ensures exists p, q | 0 <= p < q < |s| :: s[p] == x && s[q] == x
  {
    assert s != [];
    assert s == [s[0]] + s[1..];
    if s[0] == x {
      assert x in multiset(s[1..]);
      var q :| 0 <= q < |s[1..]| && s[1..][q] == x;
      assert s[0] == x && s[q + 1] == x;
    } else {
      CountedTwice(s[1..], x);
      var p, q :| 0 <= p < q < |s[1..]| && s[1..][p] == x && s[1..][q] == x;
      assert s[p + 1] == x && s[q + 1] == x;
    }
  }

  /** Two places of a rearrangement of nodes with disjoint footprints hold distinct nodes. */
  lemma DistinctPermuted(s: seq<Node>, r: seq<Node>, j1: nat, j2: nat)
    requires Disjoint(s) && multiset(r) == multiset(s)
    requires forall j | 0 <= j < |s| :: s[j] in s[j].repr
    requires j1 < j2 < |r|
    ensures r[j1] != r[j2]
  {
    if r[j1] == r[j2] {
      TwiceCounted(r, j1, j2);
      CountedTwice(s, r[j1]);
      assert false;
    }
  }

  /** Rearranging nodes whose footprints are pairwise disjoint keeps them pairwise disjoint. */
  lemma DisjointPermuted(s: seq<Node>, r: seq<Node>)
    requires Disjoint(s) && multiset(r) == multiset(s)
    requires forall j | 0 <= j < |s| :: s[j] in s[j].repr
    ensures Disjoint(r)
  {
    forall j1, j2 | 0 <= j1 < j2 < |r| ensures r[j1].repr !! r[j2].repr {
      DistinctPermuted(s, r, j1, j2);
      assert r[j1] in multiset(s) && r[j2] in multiset(s);
      var p :| 0 <= p < |s| && s[p] == r[j1];
      var q :| 0 <= q < |s| && s[q] == r[j2];
      assert p < q || q < p;
    }
  }

  /**
    The children of a tree, in the order `walk` visits them, share no node,
    are trees themselves and do not hold their parent.
   */
  lemma SortedTree(n: Node)
    requires n.Valid() && Tree(n)
    ensures Disjoint(SortedChildren(n))
    ensures forall j | 0 <= j < |SortedChildren(n)| :: Tree(SortedChildren(n)[j]) && n !in SortedChildren(n)[j].repr
  {
    var kids := SortedChildren(n);
    ChildrenPermuted(n);
    DisjointPermuted(n.children, kids);
    forall j | 0 <= j < |kids| ensures Tree(kids[j]) && n !in kids[j].repr {
      var p :| 0 <= p < |n.children| && n.children[p] == kids[j];
    }
  }

  /** Some span holds stream position `k`. */
  ghost predicate Held(sp: map<Node, Span>, k: int) {
    exists m: Node | m in sp :: Holds(sp[m], k)
  }

  /** Every stream position in `[lo, hi)` lies in some span. */
  ghost predicate Covers(sp: map<Node, Span>, lo: nat, hi: nat) {
    forall k | lo <= k < hi :: Held(sp, k)
  }

  /** Spans covering one stretch and spans of other nodes covering the next together cover both. */
  lemma CoversJoined(s1: map<Node, Span>, s2: map<Node, Span>, i: nat, j: nat, l: nat)
    requires Covers(s1, i, j) && Covers(s2, j, l) && s1.Keys !! s2.Keys
    ensures Covers(s1 + s2, i, l)
  {
    forall k | i <= k < l ensures Held(s1 + s2, k) {
      if k < j {
        assert Held(s1, k);
        var m: Node :| m in s1 && Holds(s1[m], k);
        assert (s1 + s2)[m] == s1[m];
      } else {
        assert Held(s2, k);
        var m: Node :| m in s2 && Holds(s2[m], k);
        assert (s1 + s2)[m] == s2[m];
      }
    }
  }

  /** A node's own span around spans covering `[a, b)` covers `[i, c)`. */
  lemma CoversAround(sp: map<Node, Span>, n: Node, i: nat, a: nat, b: nat, c: nat)
    requires Covers(sp, a, b) && n !in sp
    ensures Covers(sp[n := Span(i, a, b, c)], i, c)
  {
    var sp' := sp[n := Span(i, a, b, c)];
    forall k | i <= k < c ensures Held(sp', k) {
      if a <= k < b {
        assert Held(sp, k);
        var m: Node :| m in sp && Holds(sp[m], k);
        assert sp'[m] == sp[m];
      } else {
        assert Holds(sp'[n], k);
      }
    }
  }

  /** The children's walks have spans only for nodes at or below the children walked. */
  lemma {:induction false} SpansEachKeys(n: Node, kids: seq<Node>, k: nat, cs: seq<Comment>, i: nat)
    requires Subtrees(n, kids) && k <= |kids| && i <= |cs|
    ensures SpansEach(n, kids, k, cs, i).Keys <= Below(kids, k)
    decreases k
  {
    if k > 0 {
      SpansEachKeys(n, kids, k - 1, cs, i);
      SpansKeys(kids[k - 1], cs, WalkedEach(n, kids, k - 1, cs, i));
    }
  }

  /** A walk has spans only for the node and nodes below it. */
  lemma SpansKeys(n: Node, cs: seq<Comment>, i: nat)
    requires n.Valid() && i <= |cs|
    ensures Spans(n, cs, i).Keys <= n.repr
  {
    WrittenLaid(n, cs, i);
  }

  /**
    In a tree, no comment the walk passes is lost: the spans of the lists
    it assigns cover the whole stretch the cursor moved over. (Were a
    subtree shared by two parents, the second assignment to its nodes would
    replace the first, and the comments of the first list would be lost.)
   */
  lemma {:induction false} WrittenCovers(n: Node, cs: seq<Comment>, i: nat)
    requires n.Valid() && Tree(n) && i <= |cs|
    ensures Covers(Spans(n, cs, i), i, Walked(n, cs, i))
    decreases n.height, 1
  {
    if i < |cs| {
      var kids := SortedChildren(n);
      var a := i + TakeCount(cs, i, n.pos, false);
      var b := WalkedEach(n, kids, |n.children|, cs, a);
      var sp := SpansEach(n, kids, |n.children|, cs, a);
      SortedTree(n);
      EachCovers(n, kids, |n.children|, cs, a);
      SpansIs(n, cs, i, a, sp);
      if |Own(n, cs, i)| > 0 {
        SpansEachKeys(n, kids, |n.children|, cs, a);
        BelowApart(kids, |kids|, {n});
        CoversAround(sp, n, i, a, b, Walked(n, cs, i));
      } else {
        OwnCopies(n, cs, i, a, b);
      }
    }
  }

  lemma {:induction false} EachCovers(n: Node, kids: seq<Node>, k: nat, cs: seq<Comment>, i: nat)
    requires Subtrees(n, kids) && k <= |kids| && i <= |cs|
    requires Disjoint(kids) && forall j | 0 <= j < |kids| :: Tree(kids[j])
    ensures Covers(SpansEach(n, kids, k, cs, i), i, WalkedEach(n, kids, k, cs, i))
    decreases n.height, 0, k
  {
    if k > 0 {
      var j := WalkedEach(n, kids, k - 1, cs, i);
      EachCovers(n, kids, k - 1, cs, i);
      WrittenCovers(kids[k - 1], cs, j);
      CoversStep(n, kids, k - 1, cs, i, j);
    }
  }

  /** One more child's walk extends the stretch the children's spans before it cover. */
  lemma CoversStep(n: Node, kids: seq<Node>, k: nat, cs: seq<Comment>, i: nat, j: nat)
    requires Subtrees(n, kids) && k < |kids| && i <= |cs| && Disjoint(kids)
    requires j == WalkedEach(n, kids, k, cs, i)
    requires Covers(SpansEach(n, kids, k, cs, i), i, j)
    requires Covers(Spans(kids[k], cs, j), j, Walked(kids[k], cs, j))
    ensures Covers(SpansEach(n, kids, k + 1, cs, i), i, WalkedEach(n, kids, k + 1, cs, i))
  {
    SpansEachKeys(n, kids, k, cs, i);
    SpansKeys(kids[k], cs, j);
    BelowApart(kids, k, kids[k].repr);
    CoversJoined(SpansEach(n, kids, k, cs, i), Spans(kids[k], cs, j), i, j, Walked(kids[k], cs, j));
  }

  /** When every comment from the cursor on lies at or before the node's end, the walk passes them all. */
  lemma WalkReachesEnd(n: Node, cs: seq<Comment>, i: nat)
    requires n.Valid() && i <= |cs|
    requires forall k | i <= k < |cs| :: Ready(cs[k], n.pos, true)
    ensures Walked(n, cs, i) == |cs|
  {
    if i < |cs| {
      var b := WalkedEach(n, SortedChildren(n), |n.children|, cs, i + TakeCount(cs, i, n.pos, false));
      MaximalRunIsTakeCount(cs, b, n.pos, true, |cs| - b);
    }
  }

  /**
    Over a tree whose root ends at or after every comment, each comment of
    the sorted stream is copied into exactly one node's list: the lists are
    laid out over the whole stream, and their spans cover all of it.
   */
  lemma EveryCommentAttached(n: Node, cs: seq<Comment>)
    requires n.Valid() && Tree(n)
    requires forall k | 0 <= k < |cs| :: Ready(cs[k], n.pos, true)
    ensures Laid(Written(n, cs, 0), Spans(n, cs, 0), cs, 0, |cs|)
    ensures Covers(Spans(n, cs, 0), 0, |cs|)
  {
    WalkReachesEnd(n, cs, 0);
    WrittenLaid(n, cs, 0);
    WrittenCovers(n, cs, 0);
  }

  /** The cursor is used up, or stands at a comment no boundary can be compared with. */
  ghost predicate Stuck(cs: seq<Comment>, i: nat) {
    i == |cs| || (i < |cs| && cs[i].pos == UNPOSITIONED)
  }

  /**
    A walk entered with the stream used up returns at once; and a comment
    without any position cannot be compared with anything, so once the
    cursor reaches one it stays there. Either way the walk neither moves
    the cursor nor copies nor attaches anything.
   */
  lemma {:induction false} Idle(n: Node, cs: seq<Comment>, i: nat)
    requires n.Valid() && i <= |cs| && Stuck(cs, i)
    ensures Walked(n, cs, i) == i && Written(n, cs, i) == map[] && Log(n, cs, i) == []
    decreases n.height, 1
  {
    WalkConsumes(n, cs, i);
    if i < |cs| {
      UnpositionedIsUndefined(n.pos, false);
      UnpositionedIsUndefined(n.pos, true);
      UndefinedStops(cs, i, n.pos, false);
      UndefinedStops(cs, i, n.pos, true);
      EachIdle(n, SortedChildren(n), |n.children|, cs, i);
    }
    assert |Strip(Log(n, cs, i))| == 0;
  }

  lemma {:induction false} EachIdle(n: Node, kids: seq<Node>, k: nat, cs: seq<Comment>, i: nat)
    requires Subtrees(n, kids) && k <= |kids| && i <= |cs| && Stuck(cs, i)
    ensures WalkedEach(n, kids, k, cs, i) == i && WrittenEach(n, kids, k, cs, i) == map[]
    ensures LogEach(n, kids, k, cs, i) == []
    decreases n.height, 0, k
  {
    if k > 0 {
      EachIdle(n, kids, k - 1, cs, i);
      Idle(kids[k - 1], cs, i);
    }
    NothingPassedNothingCopied(n, kids, k, cs, i);
  }

  /** Children's walks that leave the cursor where it was copy nothing. */
  lemma NothingPassedNothingCopied(n: Node, kids: seq<Node>, k: nat, cs: seq<Comment>, i: nat)
    requires Subtrees(n, kids) && k <= |kids| && i <= |cs| && WalkedEach(n, kids, k, cs, i) == i
    ensures LogEach(n, kids, k, cs, i) == []
  {
    EachConsumes(n, kids, k, cs, i);
    assert |Strip(LogEach(n, kids, k, cs, i))| == 0;
  }

  /** Neither the node nor any node below it carries a position. */
  ghost predicate Unpositioned(n: Node) {
    forall m | m in n.repr :: m.pos == UNPOSITIONED
  }

  /**
    A tree none of whose nodes carries a position takes nothing: no node
    can be compared with any comment, so the walk neither moves the cursor
    nor copies nor assigns anything.
   */
  lemma {:induction false} NoPositionsNoWalk(n: Node, cs: seq<Comment>, i: nat)
    requires n.Valid() && i <= |cs| && Unpositioned(n)
    ensures Walked(n, cs, i) == i && Written(n, cs, i) == map[] && Log(n, cs, i) == []
    decreases n.height, 1
  {
    NoPositionsStays(n, cs, i);
    WalkConsumes(n, cs, i);
    assert |Strip(Log(n, cs, i))| == 0;
    if i < |cs| {
      UnpositionedIsUndefined(cs[i].pos, false);
      UnpositionedIsUndefined(cs[i].pos, true);
      UndefinedStops(cs, i, n.pos, false);
      UndefinedStops(cs, i, n.pos, true);
      EachNoPositions(n, SortedChildren(n), |n.children|, cs, i);
    }
  }

  lemma {:induction false} EachNoPositions(n: Node, kids: seq<Node>, k: nat, cs: seq<Comment>, i: nat)
    requires Subtrees(n, kids) && k <= |kids| && i <= |cs| && Unpositioned(n)
    ensures WrittenEach(n, kids, k, cs, i) == map[]
    decreases n.height, 0, k
  {
    if k > 0 {
      EachNoPositions(n, kids, k - 1, cs, i);
      EachStays(n, kids, k - 1, cs, i);
      NoPositionsNoWalk(kids[k - 1], cs, i);
    }
  }

  /** Over a tree without positions, the cursor stays where it is. */
  lemma {:induction false} NoPositionsStays(n: Node, cs: seq<Comment>, i: nat)
    requires n.Valid() && i <= |cs| && Unpositioned(n)
    ensures Walked(n, cs, i) == i
    decreases n.height, 1
  {
    if i < |cs| {
      UnpositionedIsUndefined(cs[i].pos, false);
      UnpositionedIsUndefined(cs[i].pos, true);
      UndefinedStops(cs, i, n.pos, false);
      UndefinedStops(cs, i, n.pos, true);
      EachStays(n, SortedChildren(n), |n.children|, cs, i);
    }
  }

  lemma {:induction false} EachStays(n: Node, kids: seq<Node>, k: nat, cs: seq<Comment>, i: nat)
    requires Subtrees(n, kids) && k <= |kids| && i <= |cs| && Unpositioned(n)
    ensures WalkedEach(n, kids, k, cs, i) == i
    decreases n.height, 0, k
  {
    if k > 0 {
      EachStays(n, kids, k - 1, cs, i);
      NoPositionsStays(kids[k - 1], cs, i);
    }
  }

  // ---------------------------------------------------------------------
  // The walk on the heap
  // ---------------------------------------------------------------------

  /** Every node written by `w` holds the list `w` gives it. */
  ghost predicate Reflects(w: map<Node, seq<Attached>>)
    reads w.Keys
  {
    forall m | m in w :: m.comments == Some(w[m])
  }

  lemma EachStep(n: Node, kids: seq<Node>, k: nat, cs: seq<Comment>, i: nat)
    requires Subtrees(n, kids) && k < |kids| && i <= |cs|
    ensures WalkedEach(n, kids, k + 1, cs, i) == Walked(kids[k], cs, WalkedEach(n, kids, k, cs, i))
    ensures WrittenEach(n, kids, k + 1, cs, i) == WrittenEach(n, kids, k, cs, i) + Written(kids[k], cs, WalkedEach(n, kids, k, cs, i))
  {
  }

  /** The children walked so far write no node that the whole loop does not write. */
  lemma {:induction false} EachKeysGrow(n: Node, kids: seq<Node>, k: nat, K: nat, cs: seq<Comment>, i: nat)
    requires Subtrees(n, kids) && k <= K <= |kids| && i <= |cs|
    ensures WrittenEach(n, kids, k, cs, i).Keys <= WrittenEach(n, kids, K, cs, i).Keys
    decreases K
  {
    if k < K {
      EachKeysGrow(n, kids, k, K - 1, cs, i);
    }
  }

  /** The `k`-th child's walk writes only nodes the whole loop writes. */
  lemma ChildWithin(n: Node, kids: seq<Node>, k: nat, cs: seq<Comment>, i: nat)
    requires Subtrees(n, kids) && k < |kids| && i <= |cs|
    ensures Written(kids[k], cs, WalkedEach(n, kids, k, cs, i)).Keys <= WrittenEach(n, kids, |kids|, cs, i).Keys
  {
    EachStep(n, kids, k, cs, i);
    EachKeysGrow(n, kids, k + 1, |kids|, cs, i);
  }

  /** The children's walks write no node that the walk of `n` does not. */
  lemma ChildrenWithin(n: Node, cs: seq<Comment>, i: nat)
    requires n.Valid() && i < |cs|
    ensures WrittenEach(n, SortedChildren(n), |n.children|, cs, i + TakeCount(cs, i, n.pos, false)).Keys
         <= Written(n, cs, i).Keys
  {
  }

  /** `Own` and `Walked` in terms of the index after the leading run (`a`) and after the children (`b`). */
  lemma OwnIs(n: Node, cs: seq<Comment>, i: nat, a: nat, b: nat)
    requires n.Valid() && i < |cs|
    requires a == i + TakeCount(cs, i, n.pos, false)
    requires b == WalkedEach(n, SortedChildren(n), |n.children|, cs, a)
    ensures Walked(n, cs, i) == b + TakeCount(cs, b, n.pos, true)
    ensures Own(n, cs, i) == Tag(cs[i..a], true, false) + Tag(cs[b..Walked(n, cs, i)], false, |n.children| > 0)
  {
  }

  /** The walk's writes are the children's, then the node's own list when it is non-empty. */
  lemma WrittenIs(n: Node, cs: seq<Comment>, i: nat, a: nat, kids: map<Node, seq<Attached>>)
    requires n.Valid() && i < |cs| && a == i + TakeCount(cs, i, n.pos, false)
    requires kids == WrittenEach(n, SortedChildren(n), |n.children|, cs, a)
    ensures Written(n, cs, i) == if |Own(n, cs, i)| > 0 then kids[n := Own(n, cs, i)] else kids
  {
  }

  /** `node.comments = comments`, completing the writes `done`. */
  method Store(node: Node, comments: seq<Attached>, ghost done: map<Node, seq<Attached>>)
    requires Reflects(done)
    modifies node
    ensures node.comments == Some(comments)
    ensures Reflects(done[node := comments])
  {
    node.comments := Some(comments);
  }

  /**
    `walk`: unless the stream is used up, take the leading run against the
    node's start, walk the children in ascending start order, take the run
    against the node's end, and assign the node the two runs when they are
    not both empty. Only the nodes the walk writes are modified.
   */
  method Walk(node: Node, state: State)
    requires node.Valid() && state.Valid()
    modifies state, Written(node, state.comments, state.index).Keys
    ensures state.Valid()
    ensures state.index == Walked(node, state.comments, old(state.index))
    ensures Reflects(Written(node, state.comments, old(state.index)))
    decreases node.height, 3
  {
    if state.index == |state.comments| {
      return;
    }
    ghost var i := state.index;
    var children := SortedChildren(node);
    var comments := state.Slice(node.pos, false, true, false);
    ghost var a := state.index;
    ChildrenWithin(node, state.comments, i);
    WalkEach(node, children, state);
    ghost var kids := WrittenEach(node, children, |children|, state.comments, a);
    OwnIs(node, state.comments, i, a, state.index);
    WrittenIs(node, state.comments, i, a, kids);
    Close(node, state, comments, kids, Written(node, state.comments, i), Walked(node, state.comments, i));
  }

  /**
    The end of `walk`: take the run against the node's end, tagged trailing
    when the node has children, and assign the node the leading run
    `comments` followed by that run when the two are not both empty. `kids`
    are the children's writes, `total` the walk's, `fin` the index it ends at.
   */
  method Close(node: Node, state: State, comments: seq<Attached>,
               ghost kids: map<Node, seq<Attached>>, ghost total: map<Node, seq<Attached>>, ghost fin: nat)
    requires state.Valid() && Reflects(kids)
    requires fin == state.index + TakeCount(state.comments, state.index, node.pos, true)
    requires var own := comments + Tag(state.comments[state.index..fin], false, |node.children| > 0);
      total == if |own| > 0 then kids[node := own] else kids
    modifies state, total.Keys
    ensures state.Valid() && state.index == fin
    ensures Reflects(total)
  {
    var trailing := state.Slice(node.pos, true, false, |node.children| > 0);
    var own := comments + trailing;
    if |own| > 0 {
      Store(node, own, kids);
    }
  }

  /** The loop of `walk` over the sorted children, each walked with the shared cursor. */
  method WalkEach(node: Node, children: seq<Node>, state: State)
    requires Subtrees(node, children) && state.Valid()
    modifies state, WrittenEach(node, children, |children|, state.comments, state.index).Keys
    ensures state.Valid()
    ensures state.index == WalkedEach(node, children, |children|, state.comments, old(state.index))
    ensures Reflects(WrittenEach(node, children, |children|, state.comments, old(state.index)))
    decreases node.height, 2
  {
    ghost var a := state.index;
    var k := 0;
    while k < |children|
      invariant 0 <= k <= |children|
      invariant state.Valid() && state.index == WalkedEach(node, children, k, state.comments, a)
      invariant Reflects(WrittenEach(node, children, k, state.comments, a))
    {
      WalkChild(node, children, k, state, a);
      k := k + 1;
    }
  }

  /** One turn of that loop: walk the `k`-th sorted child. */
  method WalkChild(node: Node, children: seq<Node>, k: nat, state: State, ghost a: nat)
    requires Subtrees(node, children) && k < |children| && state.Valid() && a <= |state.comments|
    requires state.index == WalkedEach(node, children, k, state.comments, a)
    requires Reflects(WrittenEach(node, children, k, state.comments, a))
    modifies state, WrittenEach(node, children, |children|, state.comments, a).Keys
    ensures state.Valid()
    ensures state.index == WalkedEach(node, children, k + 1, state.comments, a)
    ensures Reflects(WrittenEach(node, children, k + 1, state.comments, a))
    decreases node.height, 1
  {
    EachStep(node, children, k, state.comments, a);
    ChildWithin(node, children, k, state.comments, a);
    Descend(children[k], state, node.height, WrittenEach(node, children, k, state.comments, a),
            WrittenEach(node, children, k + 1, state.comments, a), WrittenEach(node, children, |children|, state.comments, a).Keys);
  }

  /**
    Walk the child `kid` (lower than `bound`) after walks that wrote
    `before`, within `frame`; `after` adds the child's writes.
   */
  method Descend(kid: Node, state: State, ghost bound: nat, ghost before: map<Node, seq<Attached>>,
                 ghost after: map<Node, seq<Attached>>, ghost frame: set<Node>)
    requires kid.Valid() && kid.height < bound && state.Valid() && Reflects(before)
    requires after == before + Written(kid, state.comments, state.index)
    requires Written(kid, state.comments, state.index).Keys <= frame
    modifies state, frame
    ensures state.Valid() && state.index == Walked(kid, state.comments, old(state.index))
    ensures Reflects(after)
    decreases bound, 0
  {
    Walk(kid, state);
  }

  // ---------------------------------------------------------------------
  // The entry point
  // ---------------------------------------------------------------------

  /** The sorted copy of the input: `null` and `undefined` give an empty stream. */
  function Prepared(input: Option<seq<Comment>>): (cs: seq<Comment>)
    ensures input.None? ==> cs == []
    ensures input.Some? ==> multiset(cs) == multiset(input.value)
  {
    match input
    case None => []
    case Some(s) => SortByStartPermutes(s, CommentPos); SortByStart(s, CommentPos)
  }

  /** Comments that one parser configuration positions uniformly are walked in ascending start order. */
  lemma PreparedSorted(s: seq<Comment>)
    requires UniformlyPositioned(s, CommentPos)
    ensures SortedBy(Prepared(Some(s)), CommentPos)
  {
    UniformIsConsistent(s, CommentPos);
    SortByStartSorted(s, CommentPos);
  }

  /** The value of a node's `comments` field after a walk that wrote `written` over `before`. */
  function Stored(written: map<Node, seq<Attached>>, m: Node, before: Option<seq<Attached>>): Option<seq<Attached>> {
    if m in written then Some(written[m]) else before
  }

  /**
    `attachComments`: sort a copy of the comments, walk the tree with one
    fresh cursor, and return the very tree given. `null` stands for both
    `null` and `undefined`.
   */
  method AttachComments(tree: Node, comments: array?<Comment>) returns (result: Node)
    requires tree.Valid()
    modifies tree.repr
    ensures result == tree
    ensures comments != null ==> comments[..] == old(comments[..])
    ensures forall m | m in tree.repr ::
      m.comments == Stored(Written(tree, Prepared(if comments == null then None else Some(old(comments[..]))), 0), m, old(m.comments))
    ensures comments == null ==> forall m | m in tree.repr :: m.comments == old(m.comments)
  {
    var sorted := if comments == null then [] else SortByStart(comments[..], CommentPos);
    var state := new State(sorted);
    label walk:
    Walk(tree, state);
    forall m | m in tree.repr
      ensures m.comments == Stored(Written(tree, sorted, 0), m, old(m.comments))
    {
      if m !in Written(tree, sorted, 0) {
        assert m.comments == old@walk(m.comments);
      }
    }
    result := tree;
  }
}
