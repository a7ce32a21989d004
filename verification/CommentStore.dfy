/** The comment table of one issue, written by the comment handler and the import. */
module CommentStore {
  import opened Wrappers
  import opened CommentThreads
  import opened CommentRuns

  datatype Failure =
    | NotAuthorized
    | EmptyBody
    | NoToken
    | BadToken
    | UploadsUnread
    | UploadFailed
    | ReplyFailed(error: CommentRuns.Error)
    | GitLabFailed
    | NotStored
    | Unfinished

  /** The project's GitLab connection, if it is enabled and the issue is known to GitLab. */
  datatype Connection = NotConnected | Connected(hasToken: bool, decrypts: bool)

  /**
   * What the database, the file system and GitLab answer while a comment is created:
   * the upload rows, moving the files, GitLab's note, the comment row, and what follows it.
   */
  datatype Answers = Answers(uploadsRead: bool, uploadsMoved: bool, response: Option<Note>, stored: bool, finished: bool)

  /** Why no comment is written: the first of the checks that fails, in the order they are made. */
  function Refusal(rows: Rows, mayComment: bool, connection: Connection, replyTo: Option<int>, body: string, a: Answers): Option<Failure> {
    var reply := if replyTo.Some? && ReplyDiscussion(rows, replyTo.value).Err?
      then Some(ReplyFailed(ReplyDiscussion(rows, replyTo.value).error)) else None;
    if !mayComment then Some(NotAuthorized)
    else if body == "" then Some(EmptyBody)
    else if connection.Connected? && !connection.hasToken then Some(NoToken)
    else if connection.Connected? && !connection.decrypts then Some(BadToken)
    else if !a.uploadsRead then Some(UploadsUnread)
    else if connection.Connected? && !a.uploadsMoved then Some(UploadFailed)
    else if reply.Some? then reply
    else if connection.Connected? && a.response.None? then Some(GitLabFailed)
    else if connection.NotConnected? && !a.uploadsMoved then Some(UploadFailed)
    else if !a.stored then Some(NotStored)
    else None
  }

  /** The comment answered, if any, is there and belongs to this discussion. */
  ghost predicate ReplyFits(rows: Rows, replyTo: Option<int>, discussion: string) {
    replyTo.Some? ==> exists k: nat :: LastOf(rows, replyTo.value, k) && rows[k].discussionId == Some(discussion)
  }

  ghost predicate LastOf(rows: Rows, note: int, k: nat) {
    k < |rows| && rows[k].noteId == note && forall i :: k < i < |rows| ==> rows[i].noteId != note
  }

  lemma {:induction false} LastRowFound(rows: Rows, note: int, n: nat)
    requires n <= |rows|
    ensures var k := LastWithNote(rows, note, n);
      (k.Some? <==> exists i :: 0 <= i < n && rows[i].noteId == note) && (k.Some? ==> forall i :: k.value < i < n ==> rows[i].noteId != note)
  {
    if n > 0 && rows[n - 1].noteId != note { LastRowFound(rows, note, n - 1); }
  }

  lemma RepliesFit(rows: Rows, replyTo: int)
    ensures var found := ReplyDiscussion(rows, replyTo);
      && (found == Err(TargetNotFound) <==> forall i :: 0 <= i < |rows| ==> rows[i].noteId != replyTo)
      && forall discussion :: found == Ok(discussion) <==> ReplyFits(rows, Some(replyTo), discussion)
  {
    var k := FindRow(rows, replyTo);
    LastRowFound(rows, replyTo, |rows|);
    if k.Some? { assert LastOf(rows, replyTo, k.value); }
  }

  /** A comment is written if and only if every check holds, and each refusal names the first that does not. */
  lemma WrittenIfAllHolds(rows: Rows, mayComment: bool, connection: Connection, replyTo: Option<int>, body: string, a: Answers)
    ensures var refusal := Refusal(rows, mayComment, connection, replyTo, body, a);
      var connected, ready := connection.Connected?, mayComment && body != "" && (connection.Connected? ==> connection.hasToken && connection.decrypts);
      var fits := exists discussion :: ReplyFits(rows, replyTo, discussion);
      && (refusal.None? <==> ready && a.uploadsRead && a.uploadsMoved && fits && a.stored && (connected ==> a.response.Some?))
      && (refusal == Some(NotAuthorized) <==> !mayComment)
      && (refusal == Some(EmptyBody) <==> mayComment && body == "")
      && (refusal == Some(NoToken) <==> mayComment && body != "" && connected && !connection.hasToken)
      && (refusal == Some(BadToken) <==> mayComment && body != "" && connected && connection.hasToken && !connection.decrypts)
      && (refusal == Some(UploadsUnread) <==> ready && !a.uploadsRead)
      && (refusal == Some(UploadFailed) <==> ready && a.uploadsRead && !a.uploadsMoved && (connected || fits))
      && ((exists e :: refusal == Some(ReplyFailed(e))) <==> ready && a.uploadsRead && !fits && (connected ==> a.uploadsMoved))
      && (refusal == Some(GitLabFailed) <==> ready && a.uploadsRead && a.uploadsMoved && fits && connected && a.response.None?)
      && (refusal == Some(NotStored) <==> ready && a.uploadsRead && a.uploadsMoved && fits && (connected ==> a.response.Some?) && !a.stored)
  {
    var refusal := Refusal(rows, mayComment, connection, replyTo, body, a);
    if replyTo.Some? {
      RepliesFit(rows, replyTo.value);
      var found := ReplyDiscussion(rows, replyTo.value);
      if found.Ok? { assert ReplyFits(rows, replyTo, found.value); }
    } else {
      assert ReplyFits(rows, replyTo, "");
    }
  }

  /** The comments of the fetched pages, discussion by discussion. */
  method ImportIssueComments(pages: seq<seq<Discussion>>) returns (comments: seq<Comment>)
    ensures comments == ImportedComments(Joined(pages))
  {
    comments := [];
    for page := 0 to |pages|
      invariant comments == ImportedComments(Joined(pages[..page]))
    {
      var items := pages[page];
      assert Joined(pages[..page]) + items[..0] == Joined(pages[..page]);
      for i := 0 to |items|
        invariant comments == ImportedComments(Joined(pages[..page]) + items[..i])
      {
        comments := comments + ImportedNotes(items[i]);
        var sofar := Joined(pages[..page]) + items[..i + 1];
        assert sofar[..|sofar| - 1] == Joined(pages[..page]) + items[..i];
      }
      assert items[..|items|] == items;
      assert pages[..page + 1][..page] == pages[..page];
    }
    assert pages[..|pages|] == pages;
  }

  function Joined(pages: seq<seq<Discussion>>): seq<Discussion> {
    if pages == [] then [] else Joined(pages[..|pages| - 1]) + pages[|pages| - 1]
  }

  /** The discussions of all pages, page after page and in the order of each page. */
  lemma JoinedInOrder(pages: seq<seq<Discussion>>, page: seq<Discussion>, d: Discussion)
    ensures Joined([]) == [] && Joined(pages + [[]]) == Joined(pages)
    ensures Joined(pages + [page + [d]]) == Joined(pages + [page]) + [d]
  {
    assert (pages + [[]])[..|pages|] == (pages + [page])[..|pages|] == (pages + [page + [d]])[..|pages|] == pages;
  }

  /** How many of the imported comments were not in the table before the import. */
  function NewIn(rows: Rows, cs: seq<Comment>): nat {
    if cs == [] then 0
    else NewIn(rows, cs[..|cs| - 1]) + (if FindRow(rows, cs[|cs| - 1].noteId).None? then 1 else 0)
  }

  /** A local comment stands behind the others, in the discussion of the comment it answers. */
  ghost predicate LocalRowAdded(before: Rows, after: Rows, replyTo: Option<int>, body: string, discussion: string, now: int) {
    && ReplyFits(before, replyTo, discussion)
    && after == before + [Comment(NextLocalId(before), replyTo, Some(discussion), body, now)]
  }

  /** GitLab's note is stored as it came back, in the discussion of the comment it answers. */
  ghost predicate GitLabRowWritten(before: Rows, after: Rows, replyTo: Option<int>, response: Option<Note>, discussion: string) {
    && ReplyFits(before, replyTo, discussion) && response.Some?
    && var note := response.value;
       after == Upsert(before, Comment(note.id, replyTo, Some(discussion), note.body, note.createdAt))
  }

  /** New comments are counted one by one: a comment is new if no row of the table before the import has its note id. */
  lemma {:induction false} NewAreCounted(rows: Rows, a: seq<Comment>, b: seq<Comment>, c: Comment)
    ensures NewIn(rows, []) == 0 && NewIn(rows, a + b) == NewIn(rows, a) + NewIn(rows, b)
    ensures NewIn(rows, [c]) == if exists i :: 0 <= i < |rows| && rows[i].noteId == c.noteId then 0 else 1
    decreases |b|
  {
    assert [c][..0] == [];
    if b == [] {
      assert a + b == a;
    } else {
      assert (a + b)[..|a + b| - 1] == a + b[..|b| - 1];
      NewAreCounted(rows, a, b[..|b| - 1], c);
    }
  }

  class IssueComments {
    var rows: Rows

    constructor ()
      ensures rows == []
    {
      rows := [];
    }

    method PersistGitLabComment(c: Comment)
      modifies this
      ensures rows == Upsert(old(rows), c)
      ensures (forall i :: 0 <= i < |old(rows)| ==> old(rows)[i].noteId != c.noteId) ==> rows == old(rows) + [c]
      ensures (exists i :: 0 <= i < |old(rows)| && old(rows)[i].noteId == c.noteId) ==>
        exists k: nat :: ReplacedAt(old(rows), rows, k, c)
    {
      var i := 0;
      while i < |rows| && rows[|rows| - 1 - i].noteId != c.noteId
        invariant 0 <= i <= |rows| && rows == old(rows)
        invariant LastWithNote(rows, c.noteId, |rows|) == LastWithNote(rows, c.noteId, |rows| - i)
      {
        i := i + 1;
      }
      if i < |rows| {
        var k := |rows| - 1 - i;
        rows := rows[k := c.(createdAt := rows[k].createdAt)];
      } else {
        rows := rows + [c];
      }
      UpsertIsExact(old(rows), c);
    }

    /**
     * A comment goes to GitLab or stays local; a reply needs a target with a discussion.
     * If no comment is written the table is as before, even where GitLab has the note by
     * then; once it is written it stays, even if a later statement makes the call fail.
     */
    method CreateIssueComment(mayComment: bool, connection: Connection, replyTo: Option<int>, body: string,
                              newDiscussion: string, now: int, a: Answers)
      returns (r: Result<int, Failure>)
      modifies this
      ensures var refusal := Refusal(old(rows), mayComment, connection, replyTo, body, a);
        if refusal.Some? then r == Err(refusal.value) && rows == old(rows)
        else if connection.Connected? then
          && a.response.Some? && rows == Apply(old(rows), CreateOnGitLab(replyTo, a.response.value, newDiscussion))
          && r == if a.finished then Ok(a.response.value.id) else Err(Unfinished)
        else
          && rows == Apply(old(rows), CreateLocal(replyTo, body, newDiscussion, now))
          && r == if a.finished then Ok(NextLocalId(old(rows))) else Err(Unfinished)
      ensures rows != old(rows) && connection.Connected? ==>
        exists discussion :: GitLabRowWritten(old(rows), rows, replyTo, a.response, discussion) && (replyTo.None? ==> discussion == newDiscussion)
      ensures rows != old(rows) && connection.NotConnected? ==>
        exists discussion :: LocalRowAdded(old(rows), rows, replyTo, body, discussion, now) && (replyTo.None? ==> discussion == newDiscussion)
    {
      if !mayComment { return Err(NotAuthorized); }
      if body == "" { return Err(EmptyBody); }
      if connection.Connected? {
        if !connection.hasToken { return Err(NoToken); }
        if !connection.decrypts { return Err(BadToken); }
      }
      if !a.uploadsRead { return Err(UploadsUnread); }
      if connection.Connected? && !a.uploadsMoved { return Err(UploadFailed); }
      var discussion := newDiscussion;
      if replyTo.Some? {
        var found := ReplyDiscussion(rows, replyTo.value);
        if found.Err? { return Err(ReplyFailed(found.error)); }
        discussion := found.value;
      }
      assert ReplyFits(rows, replyTo, discussion) by {
        if replyTo.Some? { RepliesFit(rows, replyTo.value); }
      }
      var id;
      if connection.Connected? {
        if a.response.None? { return Err(GitLabFailed); }
        if !a.stored { return Err(NotStored); }
        var note := a.response.value;
        id := note.id;
        PersistGitLabComment(Comment(id, replyTo, Some(discussion), note.body, note.createdAt));
        assert GitLabRowWritten(old(rows), rows, replyTo, a.response, discussion);
      } else {
        if !a.uploadsMoved { return Err(UploadFailed); }
        if !a.stored { return Err(NotStored); }
        id := NextLocalId(rows);
        rows := rows + [Comment(id, replyTo, Some(discussion), body, now)];
        assert LocalRowAdded(old(rows), rows, replyTo, body, discussion, now);
      }
      r := if a.finished then Ok(id) else Err(Unfinished);
    }

    method SyncIssueComments(comments: seq<Comment>) returns (imported: nat, created: nat, updated: nat)
      modifies this
      ensures rows == UpsertAll(old(rows), comments)
      ensures imported == |comments| == created + updated && created == NewIn(old(rows), comments)
    {
      var existing := set i | 0 <= i < |rows| :: rows[i].noteId;
      created, updated := 0, 0;
      for i := 0 to |comments|
        invariant rows == UpsertAll(old(rows), comments[..i])
        invariant created == NewIn(old(rows), comments[..i]) && created + updated == i
      {
        if comments[i].noteId in existing { updated := updated + 1; } else { created := created + 1; }
        PersistGitLabComment(comments[i]);
        assert comments[..i + 1][..i] == comments[..i];
      }
      imported := |comments|;
      assert comments[..|comments|] == comments;
    }
  }
}
