/**
 * The comments of one issue over its life: local comments, comments created through
 * GitLab, and imports of whole discussions, one after the other.
 */
module CommentRuns {
  import opened Wrappers
  import opened Forest
  import opened ReplyMarker
  import opened CommentThreads

  datatype Note = Note(id: int, body: string, createdAt: int)

  datatype Discussion = Discussion(id: string, notes: seq<Note>)

  datatype Error = TargetNotFound | DiscussionNotResolved

  type Rows = seq<Comment>  // one row per comment, in insertion order

  function FindRow(rows: Rows, note: int): (k: Option<nat>)
    ensures k.Some? ==> k.value < |rows| && rows[k.value].noteId == note
    ensures k.None? ==> forall i :: 0 <= i < |rows| ==> rows[i].noteId != note
  {
    LastWithNote(rows, note, |rows|)
  }

  /** `ON CONFLICT (issue_id, gitlab_note_id) DO UPDATE`: everything but created_at is taken over. */
  function Upsert(rows: Rows, c: Comment): Rows {
    var k := FindRow(rows, c.noteId);
    if k.Some? then rows[k.value := c.(createdAt := rows[k.value].createdAt)] else rows + [c]
  }

  function UpsertAll(rows: Rows, cs: seq<Comment>): Rows {
    if cs == [] then rows else Upsert(UpsertAll(rows, cs[..|cs| - 1]), cs[|cs| - 1])
  }

  /** Every note after the first answers the first note of its discussion. */
  function ImportedNote(d: Discussion, i: nat): Comment
    requires i < |d.notes|
  {
    Comment(d.notes[i].id, if |d.notes| > 1 && i > 0 then Some(d.notes[0].id) else None,
            Some(d.id), d.notes[i].body, d.notes[i].createdAt)
  }

  function ImportedNotes(d: Discussion): (cs: seq<Comment>)
    ensures |cs| == |d.notes| && forall i :: 0 <= i < |cs| ==> cs[i] == ImportedNote(d, i)
  {
    seq(|d.notes|, i requires 0 <= i < |d.notes| => ImportedNote(d, i))
  }

  function ImportedComments(ds: seq<Discussion>): seq<Comment> {
    if ds == [] then [] else ImportedComments(ds[..|ds| - 1]) + ImportedNotes(ds[|ds| - 1])
  }

  function LeastNote(rows: Rows): Option<int> {
    if rows == [] then None
    else
      var rest, last := LeastNote(rows[..|rows| - 1]), rows[|rows| - 1].noteId;
      if rest.Some? && rest.value < last then rest else Some(last)
  }

  function NextLocalId(rows: Rows): int {
    var least := LeastNote(rows);
    if least.Some? && least.value < 0 then least.value - 1 else -1
  }

  /** The discussion a reply joins, or why it cannot. */
  function ReplyDiscussion(rows: Rows, target: int): Result<string, Error> {
    var k := FindRow(rows, target);
    if k.None? then Err(TargetNotFound)
    else if rows[k.value].discussionId.None? then Err(DiscussionNotResolved)
    else Ok(rows[k.value].discussionId.value)
  }

  /**
   * One more discussion adds its notes behind the others: all in that discussion, the first
   * without a target, every other one answering the first.
   */
  lemma DiscussionImported(ds: seq<Discussion>, d: Discussion)
    ensures var before, after := ImportedComments(ds), ImportedComments(ds + [d]);
      && |after| == |before| + |d.notes| && after[..|before|] == before
      && forall i :: 0 <= i < |d.notes| ==>
           after[|before| + i] == Comment(d.notes[i].id, if i == 0 then None else Some(d.notes[0].id), Some(d.id), d.notes[i].body, d.notes[i].createdAt)
  {
    assert (ds + [d])[..|ds|] == ds;
  }

  /** The row `k` has the comment's note id and takes over everything but its creation time. */
  ghost predicate ReplacedAt(before: Rows, after: Rows, k: nat, c: Comment) {
    && k < |before| && before[k].noteId == c.noteId
    && after == before[k := Comment(c.noteId, c.replyToNoteId, c.discussionId, c.body, before[k].createdAt)]
  }

  /** A comment with a known note id takes that row's place and keeps its creation time; any other is added; no other row changes. */
  lemma UpsertIsExact(rows: Rows, c: Comment)
    ensures (forall i :: 0 <= i < |rows| ==> rows[i].noteId != c.noteId) ==> Upsert(rows, c) == rows + [c]
    ensures (exists i :: 0 <= i < |rows| && rows[i].noteId == c.noteId) ==>
      exists k: nat :: ReplacedAt(rows, Upsert(rows, c), k, c)
  {
    var k := FindRow(rows, c.noteId);
    if k.Some? { assert ReplacedAt(rows, Upsert(rows, c), k.value, c); }
  }

  // ---------------------------------------------------------------- steps and runs

  datatype Step =
    | CreateLocal(replyTo: Option<int>, body: string, newDiscussion: string, now: int)
    | CreateOnGitLab(replyTo: Option<int>, created: Note, newDiscussion: string)
    | Import(discussions: seq<Discussion>, persisted: nat)  // an error may end it after some notes

  function Apply(rows: Rows, e: Step): Rows {
    match e
    case CreateLocal(replyTo, body, started, now) =>
      var discussion := if replyTo.Some? then ReplyDiscussion(rows, replyTo.value) else Ok(started);
      if discussion.Err? then rows
      else rows + [Comment(NextLocalId(rows), replyTo, Some(discussion.value), body, now)]
    case CreateOnGitLab(replyTo, note, started) =>
      var discussion := if replyTo.Some? then ReplyDiscussion(rows, replyTo.value) else Ok(started);
      if discussion.Err? then rows
      else Upsert(rows, Comment(note.id, replyTo, Some(discussion.value), note.body, note.createdAt))
    case Import(ds, n) =>
      var cs := ImportedComments(ds);
      UpsertAll(rows, if n <= |cs| then cs[..n] else cs)
  }

  /** GitLab's ids are positive, new when created, and different within one discussion. */
  predicate FromGitLab(rows: Rows, e: Step) {
    match e
    case CreateLocal(_, _, _, _) => true
    case CreateOnGitLab(_, note, _) => note.id > 0 && FindRow(rows, note.id).None?
    case Import(ds, _) => forall d :: 0 <= d < |ds| ==> GoodDiscussion(ds[d])
  }

  predicate GoodDiscussion(d: Discussion) {
    forall i :: 0 <= i < |d.notes| ==> d.notes[i].id > 0 && (i > 0 ==> d.notes[i].id != d.notes[0].id)
  }

  ghost predicate Run(es: seq<Step>)
    decreases |es|, 0
  {
    es == [] || (Run(es[..|es| - 1]) && FromGitLab(Exec(es[..|es| - 1]), es[|es| - 1]))
  }

  ghost function Exec(es: seq<Step>): Rows
    requires Run(es)
    decreases |es|, 1
  {
    if es == [] then [] else Apply(Exec(es[..|es| - 1]), es[|es| - 1])
  }

  // ---------------------------------------------------------------- what every run keeps

  ghost predicate UniqueNotes(rows: Rows) {
    forall i, k :: 0 <= i < k < |rows| ==> rows[i].noteId != rows[k].noteId
  }

  ghost predicate TargetsExist(rows: Rows) {
    forall i :: 0 <= i < |rows| && rows[i].replyToNoteId.Some? ==> FindRow(rows, rows[i].replyToNoteId.value).Some?
  }

  /** The stored reply edges, as parent pointers between rows. */
  ghost function Edges(rows: Rows): (p: Parents)
    ensures InRange(p) && |p| == |rows|
  {
    seq(|rows|, i requires 0 <= i < |rows| =>
      if rows[i].replyToNoteId.Some? then FindRow(rows, rows[i].replyToNoteId.value) else None)
  }

  /** The local ids are exactly -1 down to -k. */
  ghost predicate LocalIds(rows: Rows, k: nat) {
    && (forall i :: 0 <= i < |rows| ==> 0 - k <= rows[i].noteId && rows[i].noteId != 0)
    && (forall id :: 0 - k <= id < 0 ==> FindRow(rows, id).Some?)
  }

  ghost predicate Kept(rows: Rows, k: nat) {
    UniqueNotes(rows) && TargetsExist(rows) && AllRooted(Edges(rows)) && LocalIds(rows, k)
  }

  lemma {:induction false} LeastIsLeast(rows: Rows)
    ensures LeastNote(rows).None? <==> rows == []
    ensures rows != [] ==> exists i :: 0 <= i < |rows| && rows[i].noteId == LeastNote(rows).value
    ensures forall i :: 0 <= i < |rows| ==> LeastNote(rows).value <= rows[i].noteId
  {
    if rows != [] {
      var front := rows[..|rows| - 1];
      LeastIsLeast(front);
      assert rows[|rows| - 1].noteId == rows[|rows| - 1].noteId;
      if front != [] {
        var i :| 0 <= i < |front| && front[i].noteId == LeastNote(front).value;
        assert rows[i].noteId == LeastNote(front).value;
      }
      forall i | 0 <= i < |rows| ensures LeastNote(rows).value <= rows[i].noteId {
        if i < |front| { assert rows[i] == front[i]; }
      }
    }
  }

  /** The next local id continues the sequence. */
  lemma NextLocalContinues(rows: Rows, k: nat)
    requires LocalIds(rows, k)
    ensures NextLocalId(rows) == -(k + 1)
  {
    LeastIsLeast(rows);
    if k > 0 { assert FindRow(rows, 0 - k).Some?; }
  }

  /** A row with a new id may answer any row that is there. */
  lemma InsertKept(rows: Rows, c: Comment, k: nat, k': nat)
    requires Kept(rows, k) && FindRow(rows, c.noteId).None?
    requires c.replyToNoteId.Some? ==> FindRow(rows, c.replyToNoteId.value).Some?
    requires (c.noteId > 0 && k' == k) || (c.noteId == -(k + 1) && k' == k + 1)
    ensures Kept(rows + [c], k')
  {
    var after := rows + [c];
    forall id | FindRow(rows, id).Some? ensures FindRow(after, id) == FindRow(rows, id) {
      assert after[FindRow(rows, id).value].noteId == id;
    }
    forall id | 0 - k' <= id < 0 ensures FindRow(after, id).Some? {
      if id == c.noteId { assert after[|rows|].noteId == id; } else { assert FindRow(rows, id).Some?; }
    }
    var p, q := Edges(rows), Edges(after);
    assert forall i: nat :: i < |p| ==> q[i] == p[i];
    TargetRooted(p, q, |rows|);
    AllRootedAfterChange(p, q, |rows|);
  }

  /** A new pointer to a node of the old forest ends where that node's chain ends. */
  lemma TargetRooted(p: Parents, after: Parents, i: nat)
    requires InRange(p) && InRange(after) && AllRooted(p)
    requires |after| == |p| + 1 && i == |p|
    requires forall k: nat :: k < |p| ==> after[k] == p[k]
    requires after[i].Some? ==> after[i].value < |p|
    ensures Rooted(after, i)
  {
    RootedByStep(after, i);
    if after[i].Some? {
      assert Rooted(p, after[i].value);
      var d: nat :| HasDepth(p, after[i].value, d);
      SameDepth(p, after, after[i].value, d);
    }
  }

  lemma {:induction false} SameDepth(p: Parents, after: Parents, x: nat, d: nat)
    requires InRange(p) && InRange(after) && |p| <= |after| && HasDepth(p, x, d)
    requires forall k: nat :: k < |p| ==> after[k] == p[k]
    ensures HasDepth(after, x, d)
    decreases d
  {
    if d > 0 { SameDepth(p, after, p[x].value, d - 1); }
  }

  /** A rewritten row must not answer anything, or answer another row that answers nothing. */
  lemma UpdateKept(rows: Rows, i: nat, c: Comment, k: nat)
    requires Kept(rows, k) && i < |rows| && c.noteId == rows[i].noteId
    requires c.replyToNoteId.Some? ==>
      var target := FindRow(rows, c.replyToNoteId.value);
      target.Some? && target.value != i && rows[target.value].replyToNoteId.None?
    ensures Kept(rows[i := c], k)
  {
    var after := rows[i := c];
    forall id | FindRow(rows, id).Some? ensures FindRow(after, id) == FindRow(rows, id) {
      assert after[FindRow(rows, id).value].noteId == id;
    }
    forall id | 0 - k <= id < 0 ensures FindRow(after, id).Some? { assert FindRow(rows, id).Some?; }
    var p, q := Edges(rows), Edges(after);
    assert forall x: nat :: x < |p| && x != i ==> q[x] == p[x];
    if q[i].Some? { RootedByStep(q, q[i].value); }
    RootedByStep(q, i);
    AllRootedAfterChange(p, q, i);
  }

  /** Local rows are the ones with a negative id. */
  ghost predicate LocalRowsStay(rows: Rows, after: Rows) {
    |rows| <= |after| && forall i :: 0 <= i < |rows| && rows[i].noteId < 0 ==> after[i] == rows[i]
  }

  ghost predicate AnswersARoot(rows: Rows, c: Comment) {
    c.replyToNoteId.Some? ==>
      var target := FindRow(rows, c.replyToNoteId.value);
      target.Some? && c.replyToNoteId.value != c.noteId && rows[target.value].replyToNoteId.None?
  }

  lemma UpsertKept(rows: Rows, c: Comment, k: nat)
    requires Kept(rows, k) && c.noteId > 0 && AnswersARoot(rows, c)
    ensures Kept(Upsert(rows, c), k) && LocalRowsStay(rows, Upsert(rows, c))
    ensures FindRow(Upsert(rows, c), c.noteId).Some?
    ensures Upsert(rows, c)[FindRow(Upsert(rows, c), c.noteId).value].replyToNoteId == c.replyToNoteId
  {
    var found := FindRow(rows, c.noteId);
    if found.Some? {
      UpdateKept(rows, found.value, c.(createdAt := rows[found.value].createdAt), k);
      assert Upsert(rows, c)[found.value].noteId == c.noteId;
    } else {
      InsertKept(rows, c, k, k);
      assert Upsert(rows, c)[|rows|].noteId == c.noteId;
    }
  }

  /** Persisting the first n notes of one discussion. */
  lemma {:induction false} DiscussionKept(rows: Rows, d: Discussion, n: nat, k: nat)
    requires Kept(rows, k) && GoodDiscussion(d) && n <= |d.notes|
    ensures var after := UpsertAll(rows, ImportedNotes(d)[..n]);
      && Kept(after, k) && LocalRowsStay(rows, after)
      && (n > 0 ==>
            var first := FindRow(after, d.notes[0].id);
            first.Some? && after[first.value].replyToNoteId.None?)
  {
    var cs := ImportedNotes(d);
    if n > 0 {
      DiscussionKept(rows, d, n - 1, k);
      assert cs[..n][..n - 1] == cs[..n - 1];
      var before, c := UpsertAll(rows, cs[..n - 1]), cs[n - 1];
      UpsertKept(before, c, k);
      if n > 1 { UpsertKeepsOther(before, c, d.notes[0].id); }
    }
  }

  lemma UpsertKeepsOther(rows: Rows, c: Comment, id: int)
    requires UniqueNotes(rows) && UniqueNotes(Upsert(rows, c)) && id != c.noteId && FindRow(rows, id).Some?
    ensures FindRow(Upsert(rows, c), id) == FindRow(rows, id)
    ensures Upsert(rows, c)[FindRow(rows, id).value] == rows[FindRow(rows, id).value]
  {
    assert Upsert(rows, c)[FindRow(rows, id).value].noteId == id;
  }

  lemma {:induction false} UpsertAllJoins(rows: Rows, a: seq<Comment>, b: seq<Comment>)
    ensures UpsertAll(rows, a + b) == UpsertAll(UpsertAll(rows, a), b)
    decreases |b|
  {
    if b == [] {
      assert a + b == a;
    } else {
      assert (a + b)[..|a + b| - 1] == a + b[..|b| - 1];
      UpsertAllJoins(rows, a, b[..|b| - 1]);
    }
  }

  lemma TakeOfConcat<T>(a: seq<T>, b: seq<T>, n: nat)
    requires n <= |a| + |b|
    ensures (a + b)[..n] == if n <= |a| then a[..n] else a + b[..n - |a|]
  {
  }

  /** Persisting any number of notes of an import. */
  lemma {:induction false} ImportKept(rows: Rows, ds: seq<Discussion>, n: nat, k: nat)
    requires Kept(rows, k) && n <= |ImportedComments(ds)|
    requires forall d :: 0 <= d < |ds| ==> GoodDiscussion(ds[d])
    ensures Kept(UpsertAll(rows, ImportedComments(ds)[..n]), k)
    ensures LocalRowsStay(rows, UpsertAll(rows, ImportedComments(ds)[..n]))
    decreases |ds|
  {
    if ds != [] {
      var front, last := ds[..|ds| - 1], ds[|ds| - 1];
      var a, b := ImportedComments(front), ImportedNotes(last);
      TakeOfConcat(a, b, n);
      if n <= |a| {
        ImportKept(rows, front, n, k);
      } else {
        ImportKept(rows, front, |a|, k);
        assert a[..|a|] == a;
        DiscussionKept(UpsertAll(rows, a), last, n - |a|, k);
        UpsertAllJoins(rows, a, b[..n - |a|]);
      }
    }
  }

  /** How many local comments a run has created. */
  ghost function Created(es: seq<Step>): nat
    requires Run(es)
    decreases |es|
  {
    if es == [] then 0
    else
      var before, e := Exec(es[..|es| - 1]), es[|es| - 1];
      Created(es[..|es| - 1]) + (if e.CreateLocal? && |Apply(before, e)| > |before| then 1 else 0)
  }

  lemma StepKept(rows: Rows, e: Step, k: nat)
    requires Kept(rows, k) && FromGitLab(rows, e)
    ensures Kept(Apply(rows, e), if e.CreateLocal? && |Apply(rows, e)| > |rows| then k + 1 else k)
    ensures LocalRowsStay(rows, Apply(rows, e))
  {
    match e
    case CreateLocal(_, _, _, _) =>
      NextLocalContinues(rows, k);
      if |Apply(rows, e)| > |rows| { InsertKept(rows, Apply(rows, e)[|rows|], k, k + 1); }
    case CreateOnGitLab(_, _, _) =>
      if |Apply(rows, e)| > |rows| { InsertKept(rows, Apply(rows, e)[|rows|], k, k); }
    case Import(ds, n) =>
      var cs := ImportedComments(ds);
      assert cs[..|cs|] == cs;
      ImportKept(rows, ds, if n <= |cs| then n else |cs|, k);
  }

  /**
   * Every run of creations and imports, interrupted imports included, keeps note ids
   * unique, keeps every reply target present, keeps the reply edges acyclic, and gives
   * local comments exactly the ids -1 to -k for the k local comments created.
   */
  lemma {:induction false} RunsKeepEdgesAcyclic(es: seq<Step>)
    requires Run(es)
    ensures Kept(Exec(es), Created(es)) && Acyclic(Edges(Exec(es)))
    decreases |es|
  {
    if es != [] {
      RunsKeepEdgesAcyclic(es[..|es| - 1]);
      StepKept(Exec(es[..|es| - 1]), es[|es| - 1], Created(es[..|es| - 1]));
    }
    AllRootedIffAcyclic(Edges(Exec(es)));
  }

  /** A local comment is never overwritten by what comes later. */
  lemma {:induction false} LocalCommentsStay(es: seq<Step>, n: nat)
    requires Run(es) && n <= |es|
    ensures Run(es[..n]) && LocalRowsStay(Exec(es[..n]), Exec(es))
    decreases |es|
  {
    if n < |es| {
      LocalCommentsStay(es[..|es| - 1], n);
      assert es[..|es| - 1][..n] == es[..n];
      RunsKeepEdgesAcyclic(es[..|es| - 1]);
      StepKept(Exec(es[..|es| - 1]), es[|es| - 1], Created(es[..|es| - 1]));
    } else {
      assert es[..n] == es;
    }
  }

  // ---------------------------------------------------------------- threading what a run stored

  /** A stored reply leads from row to row just as it does among the visible comments. */
  lemma StepIsStored(rows: Rows, cs: seq<Comment>, u: nat, r: nat)
    requires UniqueNotes(rows) && (forall i :: 0 <= i < |cs| ==> cs[i] in rows)
    requires u < |cs| && r < |rows| && rows[r] == cs[u] && cs[u].replyToNoteId.Some? && ReplyParent(cs, u).Some?
    ensures Edges(rows)[r].Some? && rows[Edges(rows)[r].value] == cs[ReplyParent(cs, u).value]
  {
    var w := ReplyParent(cs, u).value;
    var q :| 0 <= q < |rows| && rows[q] == cs[w];
    assert rows[q].noteId == rows[r].replyToNoteId.value;
  }

  /** So does a walk that uses stored replies only. */
  lemma {:induction false} WalkIsStored(rows: Rows, cs: seq<Comment>, u: nat, m: nat, z: nat, r: nat) returns (q: nat)
    requires UniqueNotes(rows) && (forall i :: 0 <= i < |cs| ==> cs[i] in rows)
    requires u < |cs| && z < |cs| && r < |rows| && rows[r] == cs[u] && Follows(Replies(cs), u, m, z)
    requires forall k: nat, y: nat :: k < m && y < |cs| && Follows(Replies(cs), u, k, y) ==> cs[y].replyToNoteId.Some?
    ensures q < |rows| && rows[q] == cs[z] && Follows(Edges(rows), r, m, q)
    decreases m
  {
    if m == 0 {
      q := r;
    } else {
      var p := Replies(cs);
      assert Follows(p, u, 0, u);
      StepIsStored(rows, cs, u, r);
      forall k: nat, y: nat | k < m - 1 && y < |cs| && Follows(p, p[u].value, k, y) ensures cs[y].replyToNoteId.Some? {
        assert Follows(p, u, k + 1, y);
      }
      q := WalkIsStored(rows, cs, p[u].value, m - 1, z, Edges(rows)[r].value);
    }
  }

  /** A marker leads back to its own comment: from the one it names the comment is reached again. */
  ghost predicate MarkerLeadsBack(cs: seq<Comment>, v: nat, m: nat)
    requires v < |cs|
  {
    cs[v].replyToNoteId.None? && ReplyParent(cs, v).Some? && Follows(Replies(cs), ReplyParent(cs, v).value, m, v)
  }

  /** Every cycle uses a marker. */
  lemma CycleHasMarker(rows: Rows, cs: seq<Comment>, v: nat, m: nat)
    requires UniqueNotes(rows) && Acyclic(Edges(rows)) && (forall i :: 0 <= i < |cs| ==> cs[i] in rows)
    requires v < |cs| && OnCycle(Replies(cs), v, m)
    ensures exists y: nat, n: nat :: y < |cs| && MarkerLeadsBack(cs, y, n)
  {
    var p := Replies(cs);
    if k: nat, y: nat :| k < m && y < |cs| && Follows(p, v, k, y) && cs[y].replyToNoteId.None? {
      CycleRotates(p, v, m, k, y);
      assert MarkerLeadsBack(cs, y, m - 1);
    } else {
      var r :| 0 <= r < |rows| && rows[r] == cs[v];
      var q := WalkIsStored(rows, cs, v, m, v, r);
      assert rows[q].noteId == rows[r].noteId;
      assert OnCycle(Edges(rows), r, m);
    }
  }

  /**
   * Whatever part of what a run stored is visible, its replies are acyclic, and so all of
   * it is shown, if and only if no comment without a stored target is reached again from
   * the comment its marker names.
   */
  lemma StoredRepliesAcyclicIff(es: seq<Step>, visible: seq<Comment>)
    requires Run(es) && forall i :: 0 <= i < |visible| ==> visible[i] in Exec(es)
    ensures var cs := SortByCreated(visible);
      RepliesAcyclic(visible) <==> forall v: nat, m: nat :: v < |cs| ==> !MarkerLeadsBack(cs, v, m)
  {
    var rows, cs := Exec(es), SortByCreated(visible);
    var p := Replies(cs);
    RunsKeepEdgesAcyclic(es);
    SortIsStable(visible);
    forall i | 0 <= i < |cs| ensures cs[i] in rows { assert cs[i] in multiset(cs); }
    forall v: nat, m: nat | v < |cs| && MarkerLeadsBack(cs, v, m) ensures !Acyclic(p) {
      assert OnCycle(p, v, m + 1);
    }
    forall v: nat, m: nat | v < |cs| && OnCycle(p, v, m) ensures exists y: nat, n: nat :: y < |cs| && MarkerLeadsBack(cs, y, n) {
      CycleHasMarker(rows, cs, v, m);
    }
  }

  /** In particular threading shows all of it when no comment without a stored target carries a marker. */
  lemma StoredCommentsThread(es: seq<Step>, visible: seq<Comment>)
    requires Run(es)
    requires forall i :: 0 <= i < |visible| ==> visible[i] in Exec(es)
    requires forall i :: 0 <= i < |visible| && visible[i].replyToNoteId.None? ==> ParseReplyTarget(visible[i].body).None?
    ensures RepliesAcyclic(visible)
  {
    var cs := SortByCreated(visible);
    SortIsStable(visible);
    StoredRepliesAcyclicIff(es, visible);
    forall i | 0 <= i < |cs| ensures cs[i] in visible { assert cs[i] in multiset(cs); }
  }

  lemma OneNoteImported(c: Comment)
    requires c.replyToNoteId.None? && c.discussionId.Some?
    ensures ImportedComments([Discussion(c.discussionId.value, [Note(c.noteId, c.body, c.createdAt)])]) == [c]
    ensures UpsertAll([], [c]) == [c]
  {
    var d := Discussion(c.discussionId.value, [Note(c.noteId, c.body, c.createdAt)]);
    assert ImportedNotes(d) == [c];
    assert [d][..0] == [] && [c][..0] == [] && [] + [c] == [c];
  }

  lemma SelfReplyIsCyclic(c: Comment)
    requires ReplyTarget(c) == Some(c.noteId) && c.noteId != 0
    ensures !RepliesAcyclic([c])
  {
    var p := Replies(SortByCreated([c]));
    assert [c][..0] == [];
    assert SortByCreated([c]) == [c];
    assert LastWithNote([c], c.noteId, 1) == Some(0);
    assert p[0] == Some(0);
    assert Follows(p, 0, 1, 0);
    assert OnCycle(p, 0, 1);
  }

  lemma FirstImport(d: Discussion, c: Comment)
    requires ImportedComments([d]) == [c] && UpsertAll([], [c]) == [c] && GoodDiscussion(d)
    ensures Run([Import([d], 1)]) && Exec([Import([d], 1)]) == [c]
  {
    var es := [Import([d], 1)];
    assert es[..|es| - 1] == [] && es[|es| - 1] == Import([d], 1);
    assert Run(es[..|es| - 1]) && Exec(es[..|es| - 1]) == [];
    assert GoodDiscussion([d][0]) && [c][..1] == [c];
  }

  /** Without that proviso it fails: an imported note whose text names itself is shown nowhere. */
  lemma MarkerCanHideAComment(note: nat, discussion: string)
    requires note > 0
    ensures var body := Marker(note);
      var es := [Import([Discussion(discussion, [Note(note, body, 0)])], 1)];
      Run(es) && Exec(es) == [Comment(note, None, Some(discussion), body, 0)] && !RepliesAcyclic(Exec(es))
  {
    var c := Comment(note, None, Some(discussion), Marker(note), 0);
    OwnMarkerReadsBack(note);
    OneNoteImported(c);
    SelfReplyIsCyclic(c);
    FirstImport(Discussion(discussion, [Note(note, Marker(note), 0)]), c);
  }

  lemma OwnMarkerReadsBack(note: nat)
    ensures ParseReplyTarget(Marker(note)) == Some(note as int)
  {
    MarkerReadsBack("", note, "");
    assert "" + Marker(note) + "" == Marker(note);
  }
}
