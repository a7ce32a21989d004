/**
 * Syncing the attachments of an issue or of a comment with the links in its text:
 * the rows of the scope are deleted and inserted again, keeping the cache columns of
 * urls that are still linked.
 */
module AttachmentSync {
  import opened Wrappers
  import opened Text
  import opened AttachmentLinks

  type Id = string

  datatype Backend = Local | GitLab

  datatype Attachment = Attachment(
    id: Id,
    issue: Id,
    comment: Option<Id>,
    filename: string,
    contentType: string,
    byteSize: int,
    externalUrl: string,
    proxyPath: string,
    backend: Backend,
    storagePath: Option<string>,
    cacheState: string,
    cachedAt: Option<int>,
    lastCacheError: Option<string>,
    inline: bool,
    createdBy: string,
    createdAt: int)

  type Rows = seq<Attachment>

  /** The issue text, or one comment of the issue. */
  datatype Scope = Scope(issue: Id, comment: Option<Id>)

  /** What the DELETE removes: a comment's rows are named by the comment alone. */
  predicate InScope(row: Attachment, scope: Scope) {
    && row.backend == GitLab && row.comment == scope.comment
    && (scope.comment.None? ==> row.issue == scope.issue)
  }

  /** Attachments of a comment carry the issue of that comment. */
  ghost predicate CommentsBelong(rows: Rows, scope: Scope) {
    forall i :: 0 <= i < |rows| && InScope(rows[i], scope) ==> rows[i].issue == scope.issue
  }

  function Outside(rows: Rows, scope: Scope): Rows {
    if rows == [] then []
    else Outside(rows[..|rows| - 1], scope) + (if InScope(rows[|rows| - 1], scope) then [] else [rows[|rows| - 1]])
  }

  function Inside(rows: Rows, scope: Scope): Rows {
    if rows == [] then []
    else Inside(rows[..|rows| - 1], scope) + (if InScope(rows[|rows| - 1], scope) then [rows[|rows| - 1]] else [])
  }

  /** The row the map from urls holds: the last one with that url. */
  function Existing(rows: Rows, scope: Scope, url: string): (found: Option<Attachment>)
    ensures found.Some? ==> found.value in rows && InScope(found.value, scope) && found.value.externalUrl == url
    ensures found.None? ==> forall i :: 0 <= i < |rows| && InScope(rows[i], scope) ==> rows[i].externalUrl != url
  {
    if rows == [] then None
    else
      var last := rows[|rows| - 1];
      if InScope(last, scope) && last.externalUrl == url then Some(last) else Existing(rows[..|rows| - 1], scope, url)
  }

  function ProxyPath(id: Id): string {
    "/api/v1/attachments/" + id + "/download"
  }

  function SyncedRow(p: ParsedAttachment, found: Option<Attachment>, scope: Scope, newId: Id, author: string, now: int): Attachment {
    if found.Some? then
      var old' := found.value;
      Attachment(old'.id, scope.issue, scope.comment, p.filename, p.contentType, old'.byteSize, p.externalUrl,
                 old'.proxyPath, GitLab, old'.storagePath, old'.cacheState, old'.cachedAt, old'.lastCacheError,
                 p.inline, author, now)
    else
      Attachment(newId, scope.issue, scope.comment, p.filename, p.contentType, 0, p.externalUrl,
                 ProxyPath(newId), GitLab, None, "not_cached", None, None, p.inline, author, now)
  }

  /** The rows inserted for the linked urls; the k-th new id is at hand for the k-th url. */
  function SyncedRows(rows: Rows, scope: Scope, urls: seq<string>, newIds: seq<Id>, author: string, now: int): (r: Rows)
    requires |urls| <= |newIds|
    ensures |r| == |urls|
    ensures forall k :: 0 <= k < |urls| ==>
      r[k] == SyncedRow(ParsedOf(urls[k]), Existing(rows, scope, urls[k]), scope, newIds[k], author, now)
  {
    seq(|urls|, k requires 0 <= k < |urls| =>
      SyncedRow(ParsedOf(urls[k]), Existing(rows, scope, urls[k]), scope, newIds[k], author, now))
  }

  function Sync(rows: Rows, scope: Scope, urls: seq<string>, newIds: seq<Id>, author: string, now: int): Rows
    requires |urls| <= |newIds|
  {
    Outside(rows, scope) + SyncedRows(rows, scope, urls, newIds, author, now)
  }

  // ---------------------------------------------------------------- the sync as it writes

  class AttachmentTable {
    var rows: Rows

    constructor ()
      ensures rows == []
    {
      rows := [];
    }

    method LoadExisting(scope: Scope) returns (existing: map<string, Attachment>)
      requires CommentsBelong(rows, scope)
      ensures forall url :: url in existing <==> Existing(rows, scope, url).Some?
      ensures forall url :: url in existing ==> existing[url] == Existing(rows, scope, url).value
    {
      existing := map[];
      for i := 0 to |rows|
        invariant forall url :: url in existing <==> Existing(rows[..i], scope, url).Some?
        invariant forall url :: url in existing ==> existing[url] == Existing(rows[..i], scope, url).value
      {
        assert rows[..i + 1][..i] == rows[..i];
        var row := rows[i];
        if row.backend == GitLab && row.issue == scope.issue && row.comment == scope.comment {
          existing := existing[row.externalUrl := row];
        }
      }
      assert rows[..|rows|] == rows;
    }

    method DeleteScope(scope: Scope)
      modifies this
      ensures rows == Outside(old(rows), scope)
    {
      var kept: Rows := [];
      for i := 0 to |rows|
        invariant rows == old(rows) && kept == Outside(rows[..i], scope)
      {
        assert rows[..i + 1][..i] == rows[..i];
        if !InScope(rows[i], scope) { kept := kept + [rows[i]]; }
      }
      assert rows[..|rows|] == rows;
      rows := kept;
    }

    method PersistGitLabAttachments(scope: Scope, base: string, body: string, newIds: seq<Id>, author: string, now: int)
      requires CommentsBelong(rows, scope)
      requires |Linked(body, base)| <= |newIds|
      modifies this
      ensures rows == Sync(old(rows), scope, Linked(body, base), newIds, author, now)
    {
      ghost var before := rows;
      var existing := LoadExisting(scope);
      var parsed := ParseCommentAttachments(body, base);
      DeleteScope(scope);
      InsertParsed(scope, parsed, existing, newIds, author, now, before, Linked(body, base));
    }

    /** The columns of one insert: those of the row with the same url where there was one. */
    static method RowFor(p: ParsedAttachment, found: Option<Attachment>, scope: Scope, newId: Id, author: string, now: int)
      returns (row: Attachment)
      ensures row == SyncedRow(p, found, scope, newId, author, now)
      ensures InScope(row, scope) && row.issue == scope.issue && row.externalUrl == p.externalUrl
      ensures found.Some? ==> SameIdentityAndCache(row, found.value)
      ensures found.None? ==> row.id == newId && NeverCached(row)
    {
      var id := if found.Some? then found.value.id else newId;
      var proxyPath := if found.Some? then found.value.proxyPath else "/api/v1/attachments/" + id + "/download";
      row := Attachment(id, scope.issue, scope.comment, p.filename, p.contentType,
        if found.Some? then found.value.byteSize else 0, p.externalUrl, proxyPath, GitLab,
        if found.Some? then found.value.storagePath else None,
        if found.Some? then found.value.cacheState else "not_cached",
        if found.Some? then found.value.cachedAt else None,
        if found.Some? then found.value.lastCacheError else None,
        p.inline, author, now);
    }

    /** The inserts, one per parsed attachment; `before` and `urls` say what was loaded and parsed. */
    method InsertParsed(scope: Scope, parsed: seq<ParsedAttachment>, existing: map<string, Attachment>, newIds: seq<Id>,
                        author: string, now: int, ghost before: Rows, ghost urls: seq<string>)
      requires parsed == ParsedAll(urls) && |parsed| <= |newIds|
      requires forall url :: url in existing <==> Existing(before, scope, url).Some?
      requires forall url :: url in existing ==> existing[url] == Existing(before, scope, url).value
      modifies this
      ensures rows == old(rows) + SyncedRows(before, scope, urls, newIds, author, now)
    {
      ghost var synced := SyncedRows(before, scope, urls, newIds, author, now);
      assert rows + synced[..0] == rows;
      for k := 0 to |parsed|
        invariant rows == old(rows) + synced[..k]
      {
        var found := if parsed[k].externalUrl in existing then Some(existing[parsed[k].externalUrl]) else None;
        var row := RowFor(parsed[k], found, scope, newIds[k], author, now);
        OneMoreTaken(old(rows), synced, k);
        rows := rows + [row];
      }
      assert synced[..|parsed|] == synced;
    }
  }

  // ---------------------------------------------------------------- what a sync does

  function Urls(rows: Rows): (r: seq<string>)
    ensures |r| == |rows| && forall i :: 0 <= i < |rows| ==> r[i] == rows[i].externalUrl
  {
    seq(|rows|, i requires 0 <= i < |rows| => rows[i].externalUrl)
  }

  lemma {:induction false} OutsideIsOutside(rows: Rows, scope: Scope)
    ensures forall i :: 0 <= i < |Outside(rows, scope)| ==> !InScope(Outside(rows, scope)[i], scope)
  {
    if rows != [] { OutsideIsOutside(rows[..|rows| - 1], scope); }
  }

  lemma {:induction false} NoneInScope(rows: Rows, scope: Scope)
    requires forall i :: 0 <= i < |rows| ==> !InScope(rows[i], scope)
    ensures Outside(rows, scope) == rows && Inside(rows, scope) == []
  {
    if rows != [] { NoneInScope(rows[..|rows| - 1], scope); }
  }

  lemma {:induction false} SplitScope(a: Rows, b: Rows, scope: Scope)
    ensures Outside(a + b, scope) == Outside(a, scope) + Outside(b, scope)
    ensures Inside(a + b, scope) == Inside(a, scope) + Inside(b, scope)
    decreases |b|
  {
    if b == [] {
      assert a + b == a;
    } else {
      assert (a + b)[..|a + b| - 1] == a + b[..|b| - 1];
      SplitScope(a, b[..|b| - 1], scope);
    }
  }

  lemma {:induction false} AllInScope(rows: Rows, scope: Scope)
    requires forall i :: 0 <= i < |rows| ==> InScope(rows[i], scope)
    ensures Inside(rows, scope) == rows && Outside(rows, scope) == []
  {
    if rows != [] { AllInScope(rows[..|rows| - 1], scope); }
  }

  /** A sync leaves the rows outside its scope, then the rows it wrote, as the scope. */
  lemma SyncSplits(rows: Rows, scope: Scope, urls: seq<string>, newIds: seq<Id>, author: string, now: int)
    requires |urls| <= |newIds|
    ensures var after := Sync(rows, scope, urls, newIds, author, now);
      && Inside(after, scope) == SyncedRows(rows, scope, urls, newIds, author, now)
      && Outside(after, scope) == Outside(rows, scope)
  {
    var out, added := Outside(rows, scope), SyncedRows(rows, scope, urls, newIds, author, now);
    OutsideIsOutside(rows, scope);
    NoneInScope(out, scope);
    AllInScope(added, scope);
    SplitScope(out, added, scope);
    assert out + [] == out && [] + added == added;
  }

  /**
   * Afterwards the scope holds exactly the linked urls, in order and once each, and
   * every row outside the scope is as it was.
   */
  lemma SyncSetsTheScope(rows: Rows, scope: Scope, body: string, base: string, newIds: seq<Id>, author: string, now: int)
    requires |Linked(body, base)| <= |newIds|
    ensures var after := Sync(rows, scope, Linked(body, base), newIds, author, now);
      && Urls(Inside(after, scope)) == Linked(body, base)
      && Unrepeated(Urls(Inside(after, scope)))
      && Outside(after, scope) == Outside(rows, scope)
  {
    LinkedUrls(body, base);
    SyncSplits(rows, scope, Linked(body, base), newIds, author, now);
    assert Urls(SyncedRows(rows, scope, Linked(body, base), newIds, author, now)) == Linked(body, base);
  }

  /** The columns a sync must not lose. */
  predicate SameIdentityAndCache(a: Attachment, b: Attachment) {
    && a.id == b.id && a.proxyPath == b.proxyPath && a.byteSize == b.byteSize && a.storagePath == b.storagePath
    && a.cacheState == b.cacheState && a.cachedAt == b.cachedAt && a.lastCacheError == b.lastCacheError
  }

  /** An attachment as it starts: under its own path, of unknown size, with nothing cached. */
  predicate NeverCached(row: Attachment) {
    && row.proxyPath == ProxyPath(row.id) && row.byteSize == 0 && row.cacheState == "not_cached"
    && row.storagePath.None? && row.cachedAt.None? && row.lastCacheError.None?
  }

  ghost predicate OneRowPerUrl(rows: Rows, scope: Scope) {
    forall i, k :: 0 <= i < k < |rows| && InScope(rows[i], scope) && InScope(rows[k], scope)
      ==> rows[i].externalUrl != rows[k].externalUrl
  }

  /** Of several rows of the scope with one url the last is meant. */
  lemma {:induction false} ExistingIsLast(rows: Rows, scope: Scope, i: nat)
    requires i < |rows| && InScope(rows[i], scope)
    requires forall k :: i < k < |rows| && InScope(rows[k], scope) ==> rows[k].externalUrl != rows[i].externalUrl
    ensures Existing(rows, scope, rows[i].externalUrl) == Some(rows[i])
  {
    if i < |rows| - 1 { ExistingIsLast(rows[..|rows| - 1], scope, i); }
  }

  lemma ExistingIsTheRow(rows: Rows, scope: Scope, i: nat)
    requires OneRowPerUrl(rows, scope) && i < |rows| && InScope(rows[i], scope)
    ensures Existing(rows, scope, rows[i].externalUrl) == Some(rows[i])
  {
    var found := Existing(rows, scope, rows[i].externalUrl).value;
    var k :| 0 <= k < |rows| && rows[k] == found;
  }

  /** A url that stays linked keeps its id, its proxy path and everything known about its cache. */
  lemma SurvivorsKeepTheirCache(rows: Rows, scope: Scope, urls: seq<string>, newIds: seq<Id>, author: string, now: int, i: nat)
    requires |urls| <= |newIds| && OneRowPerUrl(rows, scope)
    requires i < |rows| && InScope(rows[i], scope) && rows[i].externalUrl in urls
    ensures exists row :: (
      && row in Sync(rows, scope, urls, newIds, author, now) && InScope(row, scope)
      && row.externalUrl == rows[i].externalUrl && SameIdentityAndCache(row, rows[i]))
  {
    var k :| 0 <= k < |urls| && urls[k] == rows[i].externalUrl;
    ExistingIsTheRow(rows, scope, i);
    var row := SyncedRows(rows, scope, urls, newIds, author, now)[k];
    assert row in SyncedRows(rows, scope, urls, newIds, author, now);
  }

  ghost predicate InTheScope(rows: Rows, scope: Scope, url: string) {
    exists i :: 0 <= i < |rows| && InScope(rows[i], scope) && rows[i].externalUrl == url
  }

  /**
   * Row by row after a sync: a url that was in the scope has the identity and the cache of a
   * row with that url, any other url a new id under which nothing is cached.
   */
  lemma SyncedRowsKeepOrStart(rows: Rows, scope: Scope, urls: seq<string>, newIds: seq<Id>, author: string, now: int, k: nat)
    requires |urls| <= |newIds| && k < |urls|
    ensures var row := SyncedRows(rows, scope, urls, newIds, author, now)[k];
      && row.externalUrl == urls[k] && row.filename == ParsedOf(urls[k]).filename
      && row.contentType == ParsedOf(urls[k]).contentType && row.inline == ParsedOf(urls[k]).inline
      && row.issue == scope.issue && row.comment == scope.comment && row.backend == GitLab
      && row.createdBy == author && row.createdAt == now
      && (InTheScope(rows, scope, urls[k]) ==>
            exists i :: 0 <= i < |rows| && InScope(rows[i], scope) && rows[i].externalUrl == urls[k] && SameIdentityAndCache(row, rows[i]))
      && (!InTheScope(rows, scope, urls[k]) ==> row.id == newIds[k] && NeverCached(row))
  {
    var found := Existing(rows, scope, urls[k]);
    if found.Some? {
      var i :| 0 <= i < |rows| && rows[i] == found.value;
      assert InScope(rows[i], scope) && rows[i].externalUrl == urls[k];
    }
  }

  lemma {:induction false} KeptOutside(rows: Rows, scope: Scope)
    ensures forall row :: row in Outside(rows, scope) <==> row in rows && !InScope(row, scope)
  {
    if rows != [] {
      KeptOutside(rows[..|rows| - 1], scope);
      assert rows == rows[..|rows| - 1] + [rows[|rows| - 1]];
    }
  }

  /**
   * A sync leaves alone all local rows, the rows of other issues' texts, and those of all
   * comments but its own; of the rows it is about only those with linked urls are left.
   */
  lemma WhatASyncTouches(rows: Rows, scope: Scope, urls: seq<string>, newIds: seq<Id>, author: string, now: int, row: Attachment)
    requires |urls| <= |newIds|
    ensures row.backend == Local || row.comment != scope.comment || (scope.comment.None? && row.issue != scope.issue) ==>
      (row in Sync(rows, scope, urls, newIds, author, now) <==> row in rows)
    ensures row.backend == GitLab && row.comment == scope.comment && (scope.comment.None? ==> row.issue == scope.issue) ==>
      (row in Sync(rows, scope, urls, newIds, author, now) ==> row.externalUrl in urls)
  {
    KeptOutside(rows, scope);
    var added := SyncedRows(rows, scope, urls, newIds, author, now);
    if row in added {
      var k :| 0 <= k < |added| && added[k] == row;
      assert urls[k] in urls;
    }
  }

  /** The table without its creation times. */
  function Undated(rows: Rows): (r: Rows)
    ensures |r| == |rows| && forall i :: 0 <= i < |rows| ==> r[i] == rows[i].(createdAt := 0)
  {
    seq(|rows|, i requires 0 <= i < |rows| => rows[i].(createdAt := 0))
  }

  lemma OncePerUrl(out: Rows, added: Rows, scope: Scope)
    requires forall i :: 0 <= i < |out| ==> !InScope(out[i], scope)
    requires Unrepeated(Urls(added))
    ensures OneRowPerUrl(out + added, scope)
  {
    var all := out + added;
    forall i, k | 0 <= i < k < |all| && InScope(all[i], scope) && InScope(all[k], scope)
      ensures all[i].externalUrl != all[k].externalUrl
    {
      assert i >= |out|;
      assert Urls(added)[i - |out|] != Urls(added)[k - |out|];
    }
  }

  lemma SyncedOnce(rows: Rows, scope: Scope, urls: seq<string>, newIds: seq<Id>, author: string, now: int)
    requires |urls| <= |newIds| && Unrepeated(urls)
    ensures OneRowPerUrl(Sync(rows, scope, urls, newIds, author, now), scope)
  {
    var added := SyncedRows(rows, scope, urls, newIds, author, now);
    OutsideIsOutside(rows, scope);
    assert Urls(added) == urls;
    OncePerUrl(Outside(rows, scope), added, scope);
  }

  /** A row synced again from itself changes only its creation time. */
  lemma RowSyncedAgain(row: Attachment, found: Option<Attachment>, scope: Scope, url: string, id: Id, id': Id, author: string, now: int, later: int)
    requires row == SyncedRow(ParsedOf(url), found, scope, id, author, now)
    ensures SyncedRow(ParsedOf(url), Some(row), scope, id', author, later) == row.(createdAt := later)
  {
  }

  lemma SyncedAgain(rows: Rows, scope: Scope, urls: seq<string>, ids: seq<Id>, ids': seq<Id>, author: string, now: int, later: int, k: nat)
    requires |urls| <= |ids| && |urls| <= |ids'| && Unrepeated(urls) && k < |urls|
    ensures var once := Sync(rows, scope, urls, ids, author, now);
      SyncedRows(once, scope, urls, ids', author, later)[k] == SyncedRows(rows, scope, urls, ids, author, now)[k].(createdAt := later)
  {
    var out, added := Outside(rows, scope), SyncedRows(rows, scope, urls, ids, author, now);
    SyncedOnce(rows, scope, urls, ids, author, now);
    assert (out + added)[|out| + k] == added[k];
    ExistingIsTheRow(out + added, scope, |out| + k);
    RowSyncedAgain(added[k], Existing(rows, scope, urls[k]), scope, urls[k], ids[k], ids'[k], author, now, later);
  }

  /** Syncing the same text again changes nothing but creation times, whatever ids are at hand. */
  lemma SyncIsIdempotent(rows: Rows, scope: Scope, body: string, base: string,
                         ids: seq<Id>, ids': seq<Id>, author: string, now: int, later: int)
    requires |Linked(body, base)| <= |ids| && |Linked(body, base)| <= |ids'|
    ensures var urls := Linked(body, base);
      var once := Sync(rows, scope, urls, ids, author, now);
      Undated(Sync(once, scope, urls, ids', author, later)) == Undated(once)
  {
    LinkedUrls(body, base);
    SyncAgain(rows, scope, Linked(body, base), ids, ids', author, now, later);
  }

  lemma SyncAgain(rows: Rows, scope: Scope, urls: seq<string>, ids: seq<Id>, ids': seq<Id>, author: string, now: int, later: int)
    requires |urls| <= |ids| && |urls| <= |ids'| && Unrepeated(urls)
    ensures var once := Sync(rows, scope, urls, ids, author, now);
      Undated(Sync(once, scope, urls, ids', author, later)) == Undated(once)
  {
    var once := Sync(rows, scope, urls, ids, author, now);
    var out, added, again := Outside(rows, scope), SyncedRows(rows, scope, urls, ids, author, now), SyncedRows(once, scope, urls, ids', author, later);
    SyncSplits(rows, scope, urls, ids, author, now);
    assert Outside(once, scope) == out;
    forall k | 0 <= k < |urls| ensures again[k] == added[k].(createdAt := later) {
      SyncedAgain(rows, scope, urls, ids, ids', author, now, later, k);
    }
    assert Undated(out + again) == Undated(out + added);
  }
}
