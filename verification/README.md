# estree-util-attach-comments in Dafny

This project models `index.js` of estree-util-attach-comments and proves
properties of the model. The module attaches a parser's separate comment
stream to the nodes of an ESTree syntax tree. It sorts a copy of the
comments and keeps one shared cursor `{comments, index}`. It walks the tree
depth first, visiting each node's children in ascending start order. At
each node it takes the comments at or before the node's start as *leading*.
After the children it takes the comments at or before the node's end as
*trailing*, or as *dangling* (`leading: false, trailing: false`) when the
node has no children. A node gets a `comments` field only when it collected
at least one comment.

Files:

- `positions.dfy`: the optional value and the three position encodings
  (`range`, `loc`, flat `start`/`end`), plus the comparator `compare`, with
  NaN as `None`.
- `cursor.dfy`: comments, attached copies, the run `slice` takes, and the
  cursor class `State` with its method `Slice`.
- `sorting.dfy`: `.sort(compare)` as a stable insertion sort. The sorted
  copy is a permutation of its input, and it is in ascending start order
  whenever the comparator orders the elements consistently.
- `attach.dfy`: the node class, the ghost functions that describe one walk
  on values, the properties of a walk, the imperative `Walk` proved
  against those functions, and the entry point `AttachComments`.

A walk is specified by four ghost functions that follow `walk` call by
call:

- `Walked` is where the cursor ends.
- `Written` gives the lists assigned, by node. A later assignment to the
  same node replaces an earlier one.
- `Log` lists the attached copies in the order `slice` made them.
- `Spans` gives, by node, the two stretches of the sorted stream that
  node's list was copied from.

In a tree (`Tree`: no node below itself, and no node shared by two
children), each comment the walk passes lands in exactly one node's list.
The lists copy their spans, no two spans share a stream position, and the
spans cover the whole stretch the cursor moved over. Every assigned list,
in a tree or not, holds leading copies at or before its node's start and
the other copies at or before its node's end (`Placed`).

The method `Walk` changes only the nodes in `Written`. It leaves the cursor
at `Walked` and every such node holding its list from `Written`.

## Model

| member | source | states |
|---|---|---|
| Positions.RangeFirst | index.js:96-98 | When both records have `range`, offsets decide whatever else they carry: at most zero exactly when the left start is not after the right boundary, zero exactly when equal |
| Positions.LocIsLineThenColumn | index.js:101-106 | Without a shared `range`, `loc` points are compared line first, then column: at most zero exactly when the left point is not after the right one, zero exactly when the points coincide |
| Positions.FlatLast | index.js:110-112 | With neither `range` nor `loc` on both sides, flat offsets decide: at most zero exactly when the left `start` is not after the right `start`/`end`, zero exactly when equal |
| Positions.Compare | index.js:92-115 | The result is NaN exactly when no encoding is present on both sides; mixed encodings are never coerced |
| Positions.UnpositionedIsUndefined | index.js:114 | A record without positional fields is incomparable with anything, from either side |
| Positions.StartsAntisymmetric | index.js:92-115 | Start against start, swapping the sides negates the difference and keeps NaN |
| Cursor.Ready | index.js:84 | `compare(...) < 1` holds exactly when the comment's start is not after the boundary in the first encoding both share (range offsets, then `loc` line then column, then flat offsets), and never when they share none |
| Cursor.TagAt | index.js:86 | The k-th copy a run makes is the k-th comment with the given `leading`/`trailing` flags |
| Cursor.StripTag | index.js:86 | Tagging keeps the comments: dropping the flags gives back the run, in order |
| Cursor.TagFlags | index.js:86 | Every copy carries exactly the flags its `slice` call was given |
| Cursor.TakeCount | index.js:82-86 | The number of comments `slice` takes from an index never runs past the end of the array (what the run is: the next two rows) |
| Cursor.TakeCountIsMaximalRun | index.js:82-87 | Every comment in the run `slice` takes compares below 1; the run ends at the end of the array or at the first comment comparing positive or NaN |
| Cursor.MaximalRunIsTakeCount | index.js:82-87 | Conversely, any maximal run of comments comparing below 1 is the one `slice` takes |
| Cursor.UndefinedStops | index.js:84 | A comment whose comparison is NaN stops the cursor where it is |
| Cursor.TieIsTaken | index.js:84 | A comment exactly at the boundary (comparison 0) is taken at that boundary |
| Cursor.State.constructor | index.js:8-14 | The shared state starts with the given stream and index 0 |
| Cursor.State.Slice | index.js:79-90 | `slice` returns the tagged copies of `comments[old index..new index]` and moves the index forward by exactly their number, the length of the maximal ready run |
| Sorting.Insert | index.js:12 | One insertion step of the sort makes the sequence one element longer (which element: the next row) |
| Sorting.SortByStart | index.js:12 | The sorted copy is as long as its input (its contents and order: the rows below) |
| Sorting.InsertPermutes | index.js:12 | One insertion step adds exactly the inserted element |
| Sorting.SortByStartPermutes | index.js:12 | The sorted copy holds the same elements as the input, each as often |
| Sorting.InsertSorted | index.js:51 | Inserting into a sorted, consistently ordered sequence keeps it in ascending start order |
| Sorting.SortByStartSorted | index.js:51 | When the comparator is consistent on the input, the sorted copy is in ascending start order |
| Sorting.RunsSorted | index.js:54-72 | A run of a sorted sequence followed by a later run is itself sorted |
| Sorting.UniformIsConsistent | index.js:92-112 | Records that all carry the same encoding are ordered consistently by the comparator |
| Attach.SortedChildren | index.js:51 | `children.sort(compare)` keeps the number of children and yields only children of the node, each a valid subtree below it |
| Attach.ChildrenPermuted | index.js:51 | The sorted children are the node's children, each exactly as often as among them |
| Attach.ChildrenInStartOrder | index.js:50-51 | With consistently ordered children, they are visited in ascending start order (that they are the node's children, each as often: the row above) |
| Attach.Walked | index.js:18-77 | The cursor never moves backwards and never passes the end of the stream |
| Attach.Written | index.js:74-76 | A walk assigns lists only to the node and its descendants |
| Attach.WalkConsumes | index.js:54-72 | The copies a walk makes, with the flags dropped, are exactly the stream segment the cursor passed, in order: each passed comment is copied once and none is skipped |
| Attach.EachConsumes | index.js:59-63 | The same for the walks of the sorted children, one after the other |
| Attach.Own | index.js:54-72 | A node's list holds leading copies (`leading`, not `trailing`) first, then copies with `leading` false and `trailing` exactly when the node has children |
| Attach.OwnCopies | index.js:54-72 | A node's list, with the flags dropped, is the run before its start followed by the run, after its children's walks, before its end |
| Attach.OwnPlaced | index.js:54-72 | Every leading copy in a node's own list compares below 1 against the node's start, and every trailing or dangling copy against its end |
| Attach.RunsPlaced | index.js:54-72 | A run ready against a node's start, tagged leading, followed by a run ready against its end, tagged otherwise, is placed against that node |
| Attach.WrittenPlaced | index.js:74-76 | Every list a walk assigns, to the node or to any node below it, holds leading copies at or before that node's start and the other copies at or before that node's end |
| Attach.EachPlaced | index.js:59-63 | The same for the children's walks |
| Attach.PlacedJoined | index.js:59-63 | Later writes replace earlier ones, and placed lists stay placed |
| Attach.WrittenFlagged | index.js:74-76 | Every list a walk assigns is non-empty and flagged as its node's list |
| Attach.EachFlagged | index.js:59-63 | The same for the children's walks |
| Attach.OwnInOrder | index.js:54-72 | Over a stream in ascending start order, a node's own list is in ascending start order |
| Attach.WrittenInOrder | index.js:74-76 | Over a stream in ascending start order, every list a walk assigns is in ascending start order |
| Attach.EachInOrder | index.js:59-63 | The same for the children's walks |
| Attach.Idle | index.js:26-28 | A walk entered with the stream used up, or with the cursor at a comment without any position, neither moves the cursor nor copies nor assigns anything |
| Attach.EachIdle | index.js:59-63 | The same for the children's walks |
| Attach.NothingPassedNothingCopied | index.js:59-63 | Children's walks that leave the cursor where it was copy nothing |
| Attach.NoPositionsNoWalk | test.js:92-104 | Over a tree none of whose nodes has a position, the walk neither moves the cursor nor copies nor assigns anything, whatever the comments |
| Attach.EachNoPositions | index.js:59-63 | The same for the children's walks, as far as their writes go |
| Attach.NoPositionsStays | index.js:84 | Over a tree without positions every comparison is NaN, so the cursor stays where it is |
| Attach.EachStays | index.js:59-63 | The same for the children's walks |
| Attach.WrittenLaid | index.js:54-76 | Each comment the walk passes goes into at most one node's list: every list it assigns, with the flags dropped, is exactly what that node's span of the sorted stream covers, in order; the spans lie inside the stretch the cursor moved over, and no stream position lies in two of them |
| Attach.EachLaid | index.js:59-63 | The same for the children's walks, one after the other |
| Attach.LaidJoined | index.js:59-63 | Lists laid out over one stretch and then lists laid out over the next stretch are laid out over both, even where a later write replaces an earlier one |
| Attach.LaidExtended | index.js:54-76 | A node's own list, copied from before and after its children's stretch, shares no stream position with the children's lists |
| Attach.SortedTree | index.js:50-51 | In a tree, the children in visiting order share no node, are trees themselves and do not hold their parent |
| Attach.WrittenCovers | index.js:54-76 | In a tree no passed comment is lost: the spans of the lists a walk assigns cover every stream position the cursor moved over |
| Attach.EachCovers | index.js:59-63 | The same for the children's walks, one after the other |
| Attach.CoversStep | index.js:61-62 | One more child's walk, over nodes not yet written, extends the covered stretch by the stretch that walk passes |
| Attach.CoversJoined | index.js:59-63 | Spans covering one stretch and spans of other nodes covering the next stretch together cover both |
| Attach.CoversAround | index.js:54-76 | A node's own span, around its children's spans covering their stretch, completes the cover of the node's whole stretch |
| Attach.WalkReachesEnd | index.js:65-72 | When every comment from the cursor on lies at or before the node's end, the walk passes them all |
| Attach.EveryCommentAttached | index.js:7-16 | Over a tree whose root ends at or after every comment, each comment of the sorted stream is copied into exactly one node's list |
| Attach.Store | index.js:75 | The assignment sets the node's field to the list and keeps the earlier writes in place |
| Attach.Walk | index.js:18-77 | `walk` modifies only the state and the nodes in `Written`, leaves the index at `Walked` and every written node holding its list |
| Attach.Close | index.js:65-76 | The trailing `slice` moves the index past the end run, and the conditional assignment completes the walk's writes |
| Attach.WalkEach | index.js:59-63 | The loop over the sorted children leaves the index and the writes as the children's walks one after the other give them |
| Attach.WalkChild | index.js:62 | One turn of that loop adds the child's walk to the writes before it |
| Attach.Descend | index.js:62 | The recursive call on a child adds that child's writes |
| Attach.Prepared | index.js:9-12 | `null`/`undefined` become an empty stream; otherwise the stream holds exactly the given comments |
| Attach.PreparedSorted | index.js:12 | Comments positioned uniformly are walked in ascending start order |
| Attach.AttachComments | index.js:7-16 | Returns the very tree given, leaves the caller's array unchanged, and leaves every node's field as the walk over the sorted copy writes it; with `null` no node changes |

## Left out

- Child discovery by reflection over the node's keys (index.js:31-48) is
  not modelled. A node carries its child list explicitly, in the order its
  child-bearing fields enumerate. Skipping the `comments` key and non-node
  values is therefore not stated.
- `Array.prototype.sort` is represented by one stable insertion sort. The
  order an engine produces for an inconsistent comparator, or one that
  returns NaN, is not modelled. Only what holds for any correct sort is
  proved: a permutation, ascending when the comparator is consistent.
- The `||` at index.js:103 is modelled on integer positions, where it is
  line-then-column order. NaN line numbers are not modelled.
- Positions are integers. A field that is present but `undefined`, and the
  `'start' in left` test on such a field, are modelled as an absent field.
- The element test `state.comments[state.index]` (index.js:83) is modelled
  as "the index is inside the array", since comments are objects and
  always truthy.
- The shallow copy made by `Object.assign` (index.js:86) is modelled as the
  comment record together with the two flags. Other fields of the record
  are not distinguished from the payload.
- Attach.WrittenCovers, Attach.EveryCommentAttached: the promise that no
  comment is lost is proved for trees only. With a subtree shared by two
  parents, the second walk over it assigns its nodes again, and the lists of
  the first walk are replaced, as index.js:75 does.
- Cyclic trees are excluded. `Node.Valid` requires an acyclic structure
  ordered by height, which is also the termination measure. Shared
  subtrees are allowed, with a later write replacing an earlier one.
- Cursor.TakeCount: the function's own contract only bounds the run.
  Maximality is stated by `TakeCountIsMaximalRun` and
  `MaximalRunIsTakeCount`.
- Sorting.Insert, Sorting.SortByStart: the functions' own contracts state
  lengths only. The permutation is stated by `InsertPermutes` and
  `SortByStartPermutes`, and the order by `InsertSorted` and
  `SortByStartSorted`.
- Running twice on a tree that already carries comments is not given a
  merge semantics, as the source gives none. A written node's earlier field
  value is replaced, and unwritten nodes keep theirs.
- test.js is not modelled as a whole. It checks printed output through an
  external parser and printer. Only its expectation for a tree without
  positions is restated, by `NoPositionsNoWalk`.
