/**
 * Comment threading: a flat list of comments becomes a forest of mutable nodes.
 * A comment hangs under the comment it replies to; failing that under the first
 * open comment of its discussion; failing that it is a root.
 */
module CommentThreads {
  import opened Wrappers
  import opened Text
  import opened Forest
  import opened ReplyMarker

  datatype Comment = Comment(
    noteId: int,
    replyToNoteId: Option<int>,
    discussionId: Option<string>,
    body: string,
    createdAt: int)

  // ---------------------------------------------------------------- order of creation

  function InsertByTime(c: Comment, sorted: seq<Comment>): seq<Comment> {
    if sorted == [] || c.createdAt < sorted[0].createdAt then [c] + sorted
    else [sorted[0]] + InsertByTime(c, sorted[1..])
  }

  /** The library's stable sort on created_at: a later comment goes behind its equals. */
  function SortByCreated(cs: seq<Comment>): seq<Comment> {
    if cs == [] then [] else InsertByTime(cs[|cs| - 1], SortByCreated(cs[..|cs| - 1]))
  }

  predicate Chronological(cs: seq<Comment>) {
    forall i, k :: 0 <= i < k < |cs| ==> cs[i].createdAt <= cs[k].createdAt
  }

  /** The comments of one instant, in list order. */
  function AtTime(cs: seq<Comment>, t: int): seq<Comment> {
    if cs == [] then [] else (if cs[0].createdAt == t then [cs[0]] else []) + AtTime(cs[1..], t)
  }

  lemma {:induction false} InsertAddsOne(c: Comment, sorted: seq<Comment>)
    ensures multiset(InsertByTime(c, sorted)) == multiset(sorted) + multiset{c}
    ensures |InsertByTime(c, sorted)| == |sorted| + 1
  {
    if sorted != [] && c.createdAt >= sorted[0].createdAt {
      InsertAddsOne(c, sorted[1..]);
      assert sorted == [sorted[0]] + sorted[1..];
    }
  }

  lemma {:induction false} InsertedOrOld(c: Comment, sorted: seq<Comment>)
    ensures forall k :: 0 <= k < |InsertByTime(c, sorted)| ==> InsertByTime(c, sorted)[k] == c || InsertByTime(c, sorted)[k] in sorted
  {
    if sorted != [] && c.createdAt >= sorted[0].createdAt { InsertedOrOld(c, sorted[1..]); }
  }

  lemma {:induction false} InsertKeepsOrder(c: Comment, sorted: seq<Comment>)
    requires Chronological(sorted)
    ensures Chronological(InsertByTime(c, sorted))
  {
    if sorted != [] && c.createdAt >= sorted[0].createdAt {
      InsertKeepsOrder(c, sorted[1..]);
      InsertedOrOld(c, sorted[1..]);
    }
  }

  lemma AtTimeCons(c: Comment, cs: seq<Comment>, t: int)
    ensures AtTime([c] + cs, t) == (if c.createdAt == t then [c] else []) + AtTime(cs, t)
  {
    assert ([c] + cs)[1..] == cs;
  }

  lemma {:induction false} InsertGoesLast(c: Comment, sorted: seq<Comment>, t: int)
    requires Chronological(sorted)
    ensures AtTime(InsertByTime(c, sorted), t) == AtTime(sorted, t) + (if c.createdAt == t then [c] else [])
  {
    var mine := if c.createdAt == t then [c] else [];
    if sorted == [] || c.createdAt < sorted[0].createdAt {
      AtTimeCons(c, sorted, t);
      if c.createdAt == t { NothingBefore(sorted, t); }
      assert mine + [] == mine && AtTime(sorted, t) + [] == AtTime(sorted, t) == [] + AtTime(sorted, t);
    } else {
      InsertGoesLast(c, sorted[1..], t);
      AtTimeCons(sorted[0], InsertByTime(c, sorted[1..]), t);
      Regroup(if sorted[0].createdAt == t then [sorted[0]] else [], AtTime(sorted[1..], t), mine);
    }
  }

  lemma {:induction false} NothingBefore(sorted: seq<Comment>, t: int)
    requires Chronological(sorted) && (sorted != [] ==> t < sorted[0].createdAt)
    ensures AtTime(sorted, t) == []
  {
    if sorted != [] { NothingBefore(sorted[1..], t); }
  }

  lemma {:induction false} AtTimeOfPrefix(cs: seq<Comment>, t: int)
    requires cs != []
    ensures AtTime(cs, t) == AtTime(cs[..|cs| - 1], t) + (if cs[|cs| - 1].createdAt == t then [cs[|cs| - 1]] else [])
  {
    var last := if cs[|cs| - 1].createdAt == t then [cs[|cs| - 1]] else [];
    if |cs| > 1 {
      AtTimeOfPrefix(cs[1..], t);
      assert cs[1..][..|cs| - 2] == cs[..|cs| - 1][1..];
      Regroup(if cs[0].createdAt == t then [cs[0]] else [], AtTime(cs[..|cs| - 1][1..], t), last);
    } else {
      assert last + [] == last == [] + last;
    }
  }

  lemma {:induction false} SortSorts(cs: seq<Comment>)
    ensures Chronological(SortByCreated(cs))
    ensures multiset(SortByCreated(cs)) == multiset(cs) && |SortByCreated(cs)| == |cs|
  {
    if cs != [] {
      var front, last := cs[..|cs| - 1], cs[|cs| - 1];
      SortSorts(front);
      InsertKeepsOrder(last, SortByCreated(front));
      InsertAddsOne(last, SortByCreated(front));
      assert cs == front + [last];
    }
  }

  lemma {:induction false} SortKeepsTies(cs: seq<Comment>, t: int)
    ensures AtTime(SortByCreated(cs), t) == AtTime(cs, t)
  {
    if cs != [] {
      var front, last := cs[..|cs| - 1], cs[|cs| - 1];
      SortKeepsTies(front, t);
      SortSorts(front);
      InsertGoesLast(last, SortByCreated(front), t);
      AtTimeOfPrefix(cs, t);
    }
  }

  /** The sort is a permutation, chronological, and keeps simultaneous comments in list order. */
  lemma SortIsStable(cs: seq<Comment>)
    ensures Chronological(SortByCreated(cs))
    ensures multiset(SortByCreated(cs)) == multiset(cs) && |SortByCreated(cs)| == |cs|
    ensures forall t :: AtTime(SortByCreated(cs), t) == AtTime(cs, t)
  {
    SortSorts(cs);
    forall t ensures AtTime(SortByCreated(cs), t) == AtTime(cs, t) {
      SortKeepsTies(cs, t);
    }
  }

  // ---------------------------------------------------------------- where a comment hangs

  function ReplyTarget(c: Comment): Option<int> {
    if c.replyToNoteId.Some? then c.replyToNoteId else ParseReplyTarget(c.body)
  }

  /** The map from note ids keeps the last comment of each id. */
  function LastWithNote(cs: seq<Comment>, note: int, n: nat): (k: Option<nat>)
    requires n <= |cs|
    ensures k.Some? ==> k.value < n && cs[k.value].noteId == note
    ensures k.None? ==> forall i :: 0 <= i < n ==> cs[i].noteId != note
  {
    if n == 0 then None else if cs[n - 1].noteId == note then Some(n - 1) else LastWithNote(cs, note, n - 1)
  }

  /** Zero is not a note id: the code tests the target for truth. */
  function ReplyParent(cs: seq<Comment>, i: nat): (k: Option<nat>)
    requires i < |cs|
    ensures k.Some? ==> k.value < |cs|
  {
    var target := ReplyTarget(cs[i]);
    if target.Some? && target.value != 0 then LastWithNote(cs, target.value, |cs|) else None
  }

  predicate InDiscussion(c: Comment) {
    c.discussionId.Some? && c.discussionId.value != ""
  }

  /** The first comment of the discussion that does not hang under a reply target. */
  function FirstOpen(cs: seq<Comment>, discussion: string, n: nat): (k: Option<nat>)
    requires n <= |cs|
    ensures k.Some? ==> k.value < n && ReplyParent(cs, k.value).None?
    ensures k.Some? ==> InDiscussion(cs[k.value]) && cs[k.value].discussionId.value == discussion
  {
    if n == 0 then None
    else
      var earlier := FirstOpen(cs, discussion, n - 1);
      if earlier.Some? then earlier
      else if InDiscussion(cs[n - 1]) && cs[n - 1].discussionId.value == discussion && ReplyParent(cs, n - 1).None?
        then Some(n - 1)
      else None
  }

  function ThreadParent(cs: seq<Comment>, i: nat): (k: Option<nat>)
    requires i < |cs|
    ensures k.Some? ==> k.value < |cs|
  {
    var parent := ReplyParent(cs, i);
    if parent.Some? then parent
    else if InDiscussion(cs[i]) then FirstOpen(cs, cs[i].discussionId.value, i)
    else None
  }

  function Replies(cs: seq<Comment>): (p: Parents)
    ensures InRange(p) && |p| == |cs| && forall i :: 0 <= i < |cs| ==> p[i] == ReplyParent(cs, i)
  {
    seq(|cs|, i requires 0 <= i < |cs| => ReplyParent(cs, i))
  }

  function Threads(cs: seq<Comment>): (p: Parents)
    ensures InRange(p) && |p| == |cs| && forall i :: 0 <= i < |cs| ==> p[i] == ThreadParent(cs, i)
  {
    seq(|cs|, i requires 0 <= i < |cs| => ThreadParent(cs, i))
  }

  /** The comment that opens a discussion is a root. */
  lemma {:induction false} OpenersAreRoots(cs: seq<Comment>, discussion: string, n: nat)
    requires n <= |cs| && FirstOpen(cs, discussion, n).Some?
    ensures ThreadParent(cs, FirstOpen(cs, discussion, n).value).None?
  {
    if FirstOpen(cs, discussion, n - 1).Some? { OpenersAreRoots(cs, discussion, n - 1); }
  }

  lemma {:induction false} ThreadedIfReplyChainEnds(cs: seq<Comment>, x: nat, d: nat)
    requires HasDepth(Replies(cs), x, d)
    ensures Rooted(Threads(cs), x)
    decreases d
  {
    var p := Threads(cs);
    RootedByStep(p, x);
    if d > 0 {
      ThreadedIfReplyChainEnds(cs, ReplyParent(cs, x).value, d - 1);
    } else if p[x].Some? {
      OpenersAreRoots(cs, cs[x].discussionId.value, x);
      RootedByStep(p, p[x].value);
    }
  }

  lemma {:induction false} ReplyChainEndsIfThreaded(cs: seq<Comment>, x: nat, d: nat)
    requires HasDepth(Threads(cs), x, d)
    ensures Rooted(Replies(cs), x)
    decreases d
  {
    RootedByStep(Replies(cs), x);
    if Replies(cs)[x].Some? { ReplyChainEndsIfThreaded(cs, Threads(cs)[x].value, d - 1); }
  }

  /** The discussion fallback neither creates nor removes cycles of the reply relation. */
  lemma FallbackKeepsCycles(cs: seq<Comment>)
    ensures forall x: nat :: x < |cs| ==> (Rooted(Threads(cs), x) <==> Rooted(Replies(cs), x))
    ensures Acyclic(Threads(cs)) <==> Acyclic(Replies(cs))
  {
    forall x: nat | x < |cs| ensures Rooted(Threads(cs), x) <==> Rooted(Replies(cs), x) {
      if Rooted(Replies(cs), x) {
        var d: nat :| HasDepth(Replies(cs), x, d);
        ThreadedIfReplyChainEnds(cs, x, d);
      }
      if Rooted(Threads(cs), x) {
        var d: nat :| HasDepth(Threads(cs), x, d);
        ReplyChainEndsIfThreaded(cs, x, d);
      }
    }
    AllRootedIffAcyclic(Threads(cs));
    AllRootedIffAcyclic(Replies(cs));
  }

  // ---------------------------------------------------------------- where a comment hangs, in words

  /** The comment replies to this note: by its own column, or, without one, by the marker in its text. */
  ghost predicate RepliesTo(c: Comment, note: int) {
    note != 0 && if c.replyToNoteId.Some? then c.replyToNoteId.value == note else ParseReplyTarget(c.body) == Some(note)
  }

  /** `k` is the last comment with the note id that `i` replies to. */
  ghost predicate Answers(cs: seq<Comment>, i: nat, k: nat)
    requires i < |cs| && k < |cs|
  {
    RepliesTo(cs[i], cs[k].noteId) && forall m :: k < m < |cs| ==> cs[m].noteId != cs[k].noteId
  }

  ghost predicate AnswersNobody(cs: seq<Comment>, i: nat)
    requires i < |cs|
  {
    forall k :: 0 <= k < |cs| ==> !RepliesTo(cs[i], cs[k].noteId)
  }

  ghost predicate SameDiscussion(a: Comment, b: Comment) {
    a.discussionId.Some? && a.discussionId.value != "" && b.discussionId == a.discussionId
  }

  /** `k` is the first comment of the discussion of `i` that answers nobody, and stands before `i`. */
  ghost predicate Joins(cs: seq<Comment>, i: nat, k: nat)
    requires i < |cs| && k < |cs|
  {
    && AnswersNobody(cs, i)
    && k < i && SameDiscussion(cs[i], cs[k]) && AnswersNobody(cs, k)
    && forall m: nat :: m < k && SameDiscussion(cs[i], cs[m]) ==> !AnswersNobody(cs, m)
  }

  ghost predicate StartsThread(cs: seq<Comment>, i: nat)
    requires i < |cs|
  {
    AnswersNobody(cs, i) && forall m: nat :: m < i && SameDiscussion(cs[i], cs[m]) ==> !AnswersNobody(cs, m)
  }

  lemma AnswersLast(cs: seq<Comment>, i: nat)
    requires i < |cs|
    ensures ReplyParent(cs, i).None? <==> AnswersNobody(cs, i)
    ensures forall k: nat :: k < |cs| ==> (ReplyParent(cs, i) == Some(k) <==> Answers(cs, i, k))
  {
    var target := ReplyTarget(cs[i]);
    if target.Some? { LastIsLast(cs, target.value, |cs|); }
  }

  lemma {:induction false} LastIsLast(cs: seq<Comment>, note: int, n: nat)
    requires n <= |cs|
    ensures var k := LastWithNote(cs, note, n); k.Some? ==> forall m :: k.value < m < n ==> cs[m].noteId != note
  {
    if n > 0 && cs[n - 1].noteId != note { LastIsLast(cs, note, n - 1); }
  }

  lemma {:induction false} OpensFirst(cs: seq<Comment>, i: nat, n: nat)
    requires i < |cs| && n <= |cs| && InDiscussion(cs[i])
    ensures var k := FirstOpen(cs, cs[i].discussionId.value, n);
      && (k.Some? ==> SameDiscussion(cs[i], cs[k.value]) && AnswersNobody(cs, k.value))
      && forall m: nat :: m < (if k.Some? then k.value else n) && SameDiscussion(cs[i], cs[m]) ==> !AnswersNobody(cs, m)
  {
    if n > 0 {
      OpensFirst(cs, i, n - 1);
      AnswersLast(cs, n - 1);
    }
  }

  /** Where each comment hangs: under the one it answers, else under the opener of its discussion, else nowhere. */
  lemma HangsWhereSaid(cs: seq<Comment>, i: nat)
    requires i < |cs|
    ensures ThreadParent(cs, i).None? <==> StartsThread(cs, i)
    ensures forall k: nat :: k < |cs| ==> (ThreadParent(cs, i) == Some(k) <==> Answers(cs, i, k) || Joins(cs, i, k))
  {
    AnswersLast(cs, i);
    if InDiscussion(cs[i]) { OpensFirst(cs, i, i); }
  }

  // ---------------------------------------------------------------- the forest of nodes

  class ThreadNode {
    const comment: Comment
    var children: seq<ThreadNode>

    constructor (comment: Comment)
      ensures this.comment == comment && children == []
    {
      this.comment := comment;
      children := [];
    }
  }

  function Pick<T>(items: seq<T>, ix: seq<nat>): (r: seq<T>)
    requires forall k :: 0 <= k < |ix| ==> ix[k] < |items|
    ensures |r| == |ix| && forall k :: 0 <= k < |ix| ==> r[k] == items[ix[k]]
  {
    seq(|ix|, k requires 0 <= k < |ix| => items[ix[k]])
  }

  /** What a reader of the forest sees, top to bottom. */
  ghost function Shown(forest: seq<ThreadNode>, depth: nat): seq<Comment>
    reads *
    decreases depth, |forest|
  {
    if depth == 0 || forest == [] then []
    else [forest[0].comment] + Shown(forest[0].children, depth - 1) + Shown(forest[1..], depth)
  }

  ghost predicate SiblingsInOrder(siblings: seq<ThreadNode>) {
    forall i, k :: 0 <= i < k < |siblings| ==> siblings[i].comment.createdAt <= siblings[k].comment.createdAt
  }

  /** Node i stands for comment i, and holds the nodes of the comments that hang under it. */
  ghost predicate Represents(nodes: seq<ThreadNode>, cs: seq<Comment>, p: Parents, n: nat)
    requires n <= |p|
    reads set node | node in nodes
  {
    && |nodes| == |cs| == |p|
    && (forall i :: 0 <= i < |nodes| ==> nodes[i].comment == cs[i])
    && (forall i: nat :: i < |nodes| ==> nodes[i].children == Pick(nodes, Under(p, Some(i), n)))
  }

  lemma PickJoins<T>(items: seq<T>, x: nat, a: seq<nat>, b: seq<nat>)
    requires x < |items|
    requires forall k :: 0 <= k < |a| ==> a[k] < |items|
    requires forall k :: 0 <= k < |b| ==> b[k] < |items|
    ensures forall k :: 0 <= k < |[x] + a + b| ==> ([x] + a + b)[k] < |items|
    ensures Pick(items, [x] + a + b) == [items[x]] + Pick(items, a) + Pick(items, b)
  {
  }

  lemma PickHead<T>(items: seq<T>, ix: seq<nat>)
    requires ix != [] && forall k :: 0 <= k < |ix| ==> ix[k] < |items|
    ensures Pick(items, ix)[0] == items[ix[0]] && Pick(items, ix)[1..] == Pick(items, ix[1..])
  {
  }

  lemma {:induction false} ShownIsPreorder(nodes: seq<ThreadNode>, cs: seq<Comment>, p: Parents, ix: seq<nat>, depth: nat)
    requires Represents(nodes, cs, p, |p|)
    requires forall k :: 0 <= k < |ix| ==> ix[k] < |p|
    requires forall k :: 0 <= k < |Preorder(p, ix, depth)| ==> Preorder(p, ix, depth)[k] < |p|
    ensures Shown(Pick(nodes, ix), depth) == Pick(cs, Preorder(p, ix, depth))
    decreases depth, |ix|
  {
    if depth > 0 && ix != [] {
      var kids := Under(p, Some(ix[0]), |p|);
      PreorderInRange(p, kids, depth - 1);
      PreorderInRange(p, ix[1..], depth);
      ShownIsPreorder(nodes, cs, p, kids, depth - 1);
      ShownIsPreorder(nodes, cs, p, ix[1..], depth);
      PickHead(nodes, ix);
      assert nodes[ix[0]].children == Pick(nodes, kids);
      PickJoins(cs, ix[0], Preorder(p, kids, depth - 1), Preorder(p, ix[1..], depth));
    }
  }

  lemma {:induction false} PickIndices<T>(items: seq<T>, ix: seq<nat>)
    requires multiset(ix) == multiset(Indices(|items|))
    requires forall k :: 0 <= k < |ix| ==> ix[k] < |items|
    ensures multiset(Pick(items, ix)) == multiset(items)
  {
    IndicesOnce(|items|, 0);
    var all := Indices(|items|);
    PickPermuted(items, ix, all);
    assert Pick(items, all) == items;
  }

  function Without(ix: seq<nat>, k: nat): seq<nat>
    requires k < |ix|
  {
    ix[..k] + ix[k + 1..]
  }

  lemma RemoveOne(ix: seq<nat>, k: nat)
    requires k < |ix|
    ensures multiset(Without(ix, k)) == multiset(ix) - multiset{ix[k]}
  {
    assert ix == ix[..k] + [ix[k]] + ix[k + 1..];
  }

  lemma PickRemovesOne<T>(items: seq<T>, ix: seq<nat>, k: nat)
    requires k < |ix| && forall i :: 0 <= i < |ix| ==> ix[i] < |items|
    ensures multiset(Pick(items, ix)) == multiset(Pick(items, Without(ix, k))) + multiset{items[ix[k]]}
  {
    var picked := Pick(items, ix);
    assert picked == picked[..k] + [picked[k]] + picked[k + 1..];
    assert Pick(items, Without(ix, k)) == picked[..k] + picked[k + 1..];
  }

  lemma {:induction false} PickPermuted<T>(items: seq<T>, a: seq<nat>, b: seq<nat>)
    requires multiset(a) == multiset(b)
    requires forall k :: 0 <= k < |a| ==> a[k] < |items|
    requires forall k :: 0 <= k < |b| ==> b[k] < |items|
    ensures multiset(Pick(items, a)) == multiset(Pick(items, b))
    decreases |a|
  {
    if a == [] {
      assert |multiset(b)| == 0;
    } else {
      assert a[0] in multiset(b);
      var k :| 0 <= k < |b| && b[k] == a[0];
      RemoveOne(a, 0);
      RemoveOne(b, k);
      PickRemovesOne(items, a, 0);
      PickRemovesOne(items, b, k);
      PickPermuted(items, Without(a, 0), Without(b, k));
    }
  }

  lemma PicksAllIffAcyclic(cs: seq<Comment>, p: Parents)
    requires InRange(p) && |p| == |cs|
    ensures forall k :: 0 <= k < |Flatten(p)| ==> Flatten(p)[k] < |cs|
    ensures Acyclic(p) <==> multiset(Pick(cs, Flatten(p))) == multiset(cs)
  {
    PreorderInRange(p, Under(p, None, |p|), |p|);
    FlattenCompleteIffAcyclic(p);
    AcyclicIffFullLength(p);
    if Acyclic(p) {
      PickIndices(cs, Flatten(p));
    } else {
      assert |multiset(Pick(cs, Flatten(p)))| == |Flatten(p)| && |multiset(cs)| == |cs|;
    }
  }

  /** The forest shows every comment once exactly when the reply relation has no cycle. */
  lemma {:induction false} ForestIsComplete(nodes: seq<ThreadNode>, cs: seq<Comment>)
    requires Represents(nodes, cs, Threads(cs), |cs|)
    ensures var shown := Shown(Pick(nodes, Under(Threads(cs), None, |cs|)), |cs|);
      Acyclic(Replies(cs)) <==> multiset(shown) == multiset(cs)
  {
    var p := Threads(cs);
    PicksAllIffAcyclic(cs, p);
    FallbackKeepsCycles(cs);
    ShownIsPreorder(nodes, cs, p, Under(p, None, |cs|), |cs|);
  }

  lemma PickInOrder(nodes: seq<ThreadNode>, cs: seq<Comment>, ix: seq<nat>)
    requires Chronological(cs) && |nodes| == |cs|
    requires forall i :: 0 <= i < |nodes| ==> nodes[i].comment == cs[i]
    requires forall k :: 0 <= k < |ix| ==> ix[k] < |cs|
    requires Ascending(ix)
    ensures SiblingsInOrder(Pick(nodes, ix))
  {
  }

  /** The reply edges among the comments form no cycle. */
  ghost predicate RepliesAcyclic(comments: seq<Comment>) {
    Acyclic(Replies(SortByCreated(comments)))
  }

  ghost predicate Distinct(nodes: seq<ThreadNode>) {
    forall i, k :: 0 <= i < k < |nodes| ==> nodes[i] != nodes[k]
  }

  method MakeNodes(cs: seq<Comment>) returns (nodes: seq<ThreadNode>)
    ensures fresh(nodes) && Distinct(nodes) && |nodes| == |cs|
    ensures forall i :: 0 <= i < |cs| ==> nodes[i].comment == cs[i] && nodes[i].children == []
  {
    nodes := [];
    for i := 0 to |cs|
      invariant |nodes| == i && fresh(nodes) && Distinct(nodes)
      invariant forall a :: 0 <= a < i ==> nodes[a].comment == cs[a] && nodes[a].children == []
    {
      var node := new ThreadNode(cs[i]);
      nodes := nodes + [node];
    }
  }

  /** The map from note ids to nodes, over the first n comments. */
  ghost predicate NotesIndexed(byNoteId: map<int, ThreadNode>, cs: seq<Comment>, nodes: seq<ThreadNode>, n: nat) {
    && n <= |cs| == |nodes|
    && (forall note :: note in byNoteId <==> LastWithNote(cs, note, n).Some?)
    && (forall note :: note in byNoteId ==> byNoteId[note] == nodes[LastWithNote(cs, note, n).value])
  }

  /** The map from discussions to the nodes that opened them, over the first n comments. */
  ghost predicate OpenersIndexed(openers: map<string, ThreadNode>, cs: seq<Comment>, nodes: seq<ThreadNode>, n: nat) {
    && n <= |cs| == |nodes|
    && (forall d :: d in openers <==> FirstOpen(cs, d, n).Some?)
    && (forall d :: d in openers ==> openers[d] == nodes[FirstOpen(cs, d, n).value])
  }

  method IndexByNote(cs: seq<Comment>, nodes: seq<ThreadNode>) returns (byNoteId: map<int, ThreadNode>)
    requires |nodes| == |cs|
    ensures NotesIndexed(byNoteId, cs, nodes, |cs|)
  {
    byNoteId := map[];
    for i := 0 to |cs|
      invariant NotesIndexed(byNoteId, cs, nodes, i)
    {
      byNoteId := byNoteId[cs[i].noteId := nodes[i]];
    }
  }

  /** Hanging node i below its parent carries the representation one comment further. */
  lemma PickUnderStep(nodes: seq<ThreadNode>, p: Parents, q: Option<nat>, i: nat)
    requires i < |p| == |nodes|
    ensures Pick(nodes, Under(p, q, i + 1)) == Pick(nodes, Under(p, q, i)) + (if p[i] == q then [nodes[i]] else [])
  {
  }

  /** A root goes under nobody. */
  lemma StaysARoot(nodes: seq<ThreadNode>, cs: seq<Comment>, p: Parents, i: nat)
    requires i < |p| && p[i].None? && Represents(nodes, cs, p, i)
    ensures Represents(nodes, cs, p, i + 1)
  {
  }

  method Hang(node: ThreadNode, parent: ThreadNode, ghost nodes: seq<ThreadNode>, ghost cs: seq<Comment>, ghost p: Parents, ghost i: nat)
    requires Distinct(nodes) && InRange(p)
    requires i < |p| && p[i].Some? && Represents(nodes, cs, p, i)
    requires node == nodes[i] && parent == nodes[p[i].value]
    modifies parent
    ensures Represents(nodes, cs, p, i + 1)
  {
    ghost var k := p[i].value;
    PickUnderStep(nodes, p, Some(k), i);
    parent.children := parent.children + [node];
    forall q: nat | q < |nodes| ensures nodes[q].children == Pick(nodes, Under(p, Some(q), i + 1)) {
      if q != k { assert nodes[q] != nodes[k]; }
    }
  }

  lemma OpenersAdvance(openers: map<string, ThreadNode>, cs: seq<Comment>, nodes: seq<ThreadNode>, i: nat)
    requires i < |cs| && OpenersIndexed(openers, cs, nodes, i)
    ensures var opens := InDiscussion(cs[i]) && ReplyParent(cs, i).None? && cs[i].discussionId.value !in openers;
      OpenersIndexed(if opens then openers[cs[i].discussionId.value := nodes[i]] else openers, cs, nodes, i + 1)
  {
  }

  /** After i rounds of the last loop. */
  ghost predicate PlacedUpTo(nodes: seq<ThreadNode>, cs: seq<Comment>, openers: map<string, ThreadNode>, roots: seq<ThreadNode>, i: nat)
    requires |nodes| == |cs|
    reads nodes
  {
    && i <= |cs| && Represents(nodes, cs, Threads(cs), i) && OpenersIndexed(openers, cs, nodes, i)
    && roots == Pick(nodes, Under(Threads(cs), None, i))
  }

  /** One round of the last loop: comment i goes under its parent or among the roots. */
  method Place(cs: seq<Comment>, nodes: seq<ThreadNode>, byNoteId: map<int, ThreadNode>,
               openers: map<string, ThreadNode>, roots: seq<ThreadNode>, i: nat)
    returns (openers': map<string, ThreadNode>, roots': seq<ThreadNode>)
    requires i < |cs| == |nodes| && Distinct(nodes)
    requires NotesIndexed(byNoteId, cs, nodes, |cs|) && PlacedUpTo(nodes, cs, openers, roots, i)
    modifies nodes
    ensures PlacedUpTo(nodes, cs, openers', roots', i + 1)
  {
    ghost var p := Threads(cs);
    PickUnderStep(nodes, p, None, i);
    OpenersAdvance(openers, cs, nodes, i);
    openers', roots' := openers, roots;
    var node := nodes[i];
    var target, discussion := ReplyTarget(node.comment), node.comment.discussionId;
    if target.Some? && target.value != 0 && target.value in byNoteId {
      Hang(node, byNoteId[target.value], nodes, cs, p, i);
    } else if InDiscussion(node.comment) && discussion.value in openers {
      Hang(node, openers[discussion.value], nodes, cs, p, i);
    } else {
      StaysARoot(nodes, cs, p, i);
      roots' := roots + [node];
      if InDiscussion(node.comment) {
        openers' := openers[discussion.value := node];
      }
    }
  }

  lemma NothingPlaced(cs: seq<Comment>, nodes: seq<ThreadNode>)
    requires |nodes| == |cs| && Represents(nodes, cs, Threads(cs), 0)
    ensures PlacedUpTo(nodes, cs, map[], [], 0)
  {
  }

  method Link(cs: seq<Comment>, nodes: seq<ThreadNode>, byNoteId: map<int, ThreadNode>)
    returns (roots: seq<ThreadNode>, ghost openers: map<string, ThreadNode>)
    requires |nodes| == |cs| && Distinct(nodes) && PlacedUpTo(nodes, cs, map[], [], 0)
    requires NotesIndexed(byNoteId, cs, nodes, |cs|)
    modifies nodes
    ensures PlacedUpTo(nodes, cs, openers, roots, |cs|)
  {
    roots := [];
    var discussionRoots: map<string, ThreadNode> := map[];
    for i := 0 to |cs|
      invariant PlacedUpTo(nodes, cs, discussionRoots, roots, i)
    {
      discussionRoots, roots := Place(cs, nodes, byNoteId, discussionRoots, roots, i);
    }
    openers := discussionRoots;
  }

  lemma PickHolds(nodes: seq<ThreadNode>, ix: seq<nat>, i: nat)
    requires Distinct(nodes) && i < |nodes| && forall k :: 0 <= k < |ix| ==> ix[k] < |nodes|
    ensures nodes[i] in Pick(nodes, ix) <==> i in ix
  {
    if i in ix {
      var k :| 0 <= k < |ix| && ix[k] == i;
      assert Pick(nodes, ix)[k] == nodes[i];
    }
  }

  /** Each node is a child of the comment it answers or joins, and a root if it does neither. */
  ghost predicate HangsAsSaid(nodes: seq<ThreadNode>, roots: seq<ThreadNode>, cs: seq<Comment>)
    reads nodes
  {
    && |nodes| == |cs| && (forall i :: 0 <= i < |cs| ==> nodes[i].comment == cs[i])
    && (forall i: nat :: i < |cs| ==> (nodes[i] in roots <==> StartsThread(cs, i)))
    && forall i: nat, k: nat :: i < |cs| && k < |cs| ==> (nodes[i] in nodes[k].children <==> Answers(cs, i, k) || Joins(cs, i, k))
  }

  lemma {:induction false} NodesHangWhereSaid(nodes: seq<ThreadNode>, cs: seq<Comment>)
    requires Represents(nodes, cs, Threads(cs), |cs|) && Distinct(nodes)
    ensures HangsAsSaid(nodes, Pick(nodes, Under(Threads(cs), None, |cs|)), cs)
  {
    var p := Threads(cs);
    forall i: nat | i < |cs| ensures nodes[i] in Pick(nodes, Under(p, None, |cs|)) <==> StartsThread(cs, i) {
      HangsWhereSaid(cs, i);
      PickHolds(nodes, Under(p, None, |cs|), i);
    }
    forall i: nat, k: nat | i < |cs| && k < |cs| ensures nodes[i] in nodes[k].children <==> Answers(cs, i, k) || Joins(cs, i, k) {
      HangsWhereSaid(cs, i);
      PickHolds(nodes, Under(p, Some(k), |cs|), i);
    }
  }

  /**
   * Whatever the comments: a comment is a child of the last comment it answers, or, answering
   * nobody, of the opener of its discussion before it, and all others and only they are roots.
   * The roots and every list of children are in order of creation, and the forest shows each
   * comment exactly once if and only if the reply relation has no cycle.
   */
  method BuildCommentThreads(comments: seq<Comment>) returns (roots: seq<ThreadNode>, ghost nodes: seq<ThreadNode>)
    ensures fresh(nodes) && Distinct(nodes)
    ensures var cs := SortByCreated(comments);
      Represents(nodes, cs, Threads(cs), |cs|) && roots == Pick(nodes, Under(Threads(cs), None, |cs|))
    ensures HangsAsSaid(nodes, roots, SortByCreated(comments))
    ensures RepliesAcyclic(comments) <==> multiset(Shown(roots, |comments|)) == multiset(comments)
    ensures SiblingsInOrder(roots) && forall i :: 0 <= i < |nodes| ==> SiblingsInOrder(nodes[i].children)
  {
    var cs := SortByCreated(comments);
    SortIsStable(comments);
    var made := MakeNodes(cs);
    var byNoteId := IndexByNote(cs, made);
    NothingPlaced(cs, made);
    ghost var openers;
    roots, openers := Link(cs, made, byNoteId);
    nodes := made;
    ForestIsComplete(made, cs);
    NodesHangWhereSaid(made, cs);
    PickInOrder(made, cs, Under(Threads(cs), None, |cs|));
    forall i: nat | i < |nodes| ensures SiblingsInOrder(nodes[i].children) {
      PickInOrder(made, cs, Under(Threads(cs), Some(i), |cs|));
    }
  }
}
