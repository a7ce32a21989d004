/** A single GitLab download as the server runs it, each write a step of the shared machine. */
module AttachmentStore {
  import opened Wrappers
  import opened AttachmentSync
  import opened AttachmentCache

  /** What the file system, the database and the clock answer during one download. */
  datatype Answers = Answers(
    readable: bool,
    recorded: bool,
    configured: bool,
    written: bool,
    left: Option<Bytes>,
    renamed: bool,
    removed: bool,
    saved: bool,
    uuid: Id,
    contentType: string,
    now: int,
    message: string)

  lemma RunExtends(c: Setup, es: seq<Event>, e: Event)
    requires Run(c, es) && Enabled(c, Exec(c, es), e)
    ensures Run(c, es + [e]) && Exec(c, es + [e]) == Apply(c, Exec(c, es), e)
  {
    assert (es + [e])[..|es + [e]| - 1] == es;
  }

  /** The row of the attachment loses its cache columns and gets the state and the error; no other row changes. */
  ghost predicate Marked(before: Rows, after: Rows, id: Id, state: string, error: Option<string>) {
    |after| == |before| && forall i :: 0 <= i < |before| ==>
      after[i] == if before[i].id == id && before[i].backend == GitLab
        then before[i].(storagePath := None, cachedAt := None, cacheState := state, lastCacheError := error) else before[i]
  }

  /** The row of the attachment names the file and its size; no other row changes. */
  ghost predicate Saved(before: Rows, after: Rows, id: Id, path: string, size: nat, contentType: string, now: int) {
    |after| == |before| && forall i :: 0 <= i < |before| ==>
      after[i] == if before[i].id == id && before[i].backend == GitLab
        then before[i].(storagePath := Some(path), byteSize := size, contentType := contentType,
                        cacheState := "cached", cachedAt := Some(now), lastCacheError := None) else before[i]
  }

  /** The row names a file that is there and can be read. */
  predicate Hit(row: Attachment, files: map<string, Bytes>, a: Answers) {
    row.storagePath.Some? && a.readable && row.storagePath.value in files
  }

  /** After an attempt to cache the bytes: the file and the row have them, or the row says that it failed. */
  ghost predicate Stored(rows: Rows, rows': Rows, files: map<string, Bytes>, files': map<string, Bytes>,
                         id: Id, bytes: Bytes, path: string, temp: string, a: Answers) {
    if a.written && a.renamed then
      && files' == (files - {temp})[path := bytes]
      && if a.saved then Saved(rows, rows', id, path, |bytes|, a.contentType, a.now) else rows' == rows
    else
      && (forall p :: p != temp ==> (p in files <==> p in files') && (p in files ==> files'[p] == files[p]))
      && if a.recorded then Marked(rows, rows', id, "cache_write_failed", Some(a.message)) else rows' == rows
  }

  class CacheStore {
    const folder: string
    var rows: Rows
    var files: map<string, Bytes>
    ghost const setup: Setup
    ghost var history: seq<Event>

    ghost predicate Valid()
      reads this
    {
      && setup.folder == folder && Run(setup, history)
      && rows == Exec(setup, history).rows && files == Exec(setup, history).files
    }

    /** The downloads so far, each with the phase it is in. */
    ghost function Downloads(): seq<Download>
      reads this
      requires Valid()
    {
      Exec(setup, history).downloads
    }

    constructor (folder: string, ghost setup: Setup)
      requires setup.folder == folder
      ensures Valid() && rows == [] && files == map[] && this.setup == setup
    {
      this.folder := folder;
      this.rows := [];
      this.files := map[];
      this.setup := setup;
      this.history := [];
    }

    /** Record the missing or failed cache; an update that fails is only logged. */
    method RecordCacheState(ghost d: nat, id: Id, state: string, error: Option<string>, recorded: bool)
      requires Valid() && d < |Downloads()| && Downloads()[d].row.id == id
      requires Downloads()[d].phase.Recording? && Downloads()[d].phase.state == state && Downloads()[d].phase.error == error
      modifies this
      ensures Valid() && history == old(history) + [Record(d, recorded)]
      ensures if recorded then Marked(old(rows), rows, id, state, error) else rows == old(rows)
      ensures files == old(files)
      ensures Downloads() == old(Downloads())[d := Download(old(Downloads()[d].row), old(Downloads()[d].phase.next))]
    {
      RunExtends(setup, history, Record(d, recorded));
      if recorded { rows := UpdateGitLab(rows, id, Uncached(state, error)); }
      history := history + [Record(d, recorded)];
    }

    method ReadCached(ghost d: nat, row: Attachment, a: Answers) returns (bytes: Option<Bytes>)
      requires Valid() && d < |Downloads()| && Downloads()[d] == Download(row, Reading)
      modifies this
      ensures Valid() && files == old(files)
      ensures d < |Downloads()| && Downloads()[d] == Download(row, if bytes.Some? then Finished(bytes.value) else Fetching)
      ensures Exec(setup, history).temps == old(Exec(setup, history).temps)
      ensures bytes == if Hit(row, files, a) then Some(files[row.storagePath.value]) else None
      ensures if row.storagePath.None? || Hit(row, files, a) || !a.recorded then rows == old(rows)
        else if !a.readable then Marked(old(rows), rows, row.id, "cache_read_failed", Some(a.message))
        else Marked(old(rows), rows, row.id, "not_cached", None)
    {
      ghost var e := ReadCache(d, a.readable, a.message);
      RunExtends(setup, history, e);
      history := history + [e];
      if row.storagePath.None? { return None; }
      if !a.readable {
        RecordCacheState(d, row.id, "cache_read_failed", Some(a.message), a.recorded);
        return None;
      }
      if row.storagePath.value !in files {
        RecordCacheState(d, row.id, "not_cached", None, a.recorded);
        return None;
      }
      bytes := Some(files[row.storagePath.value]);
    }

    method PersistCache(ghost d: nat, row: Attachment, bytes: Bytes, a: Answers)
      requires Valid() && d < |Downloads()| && Downloads()[d] == Download(row, Storing(bytes))
      requires TempPath(Own(setup, row), a.uuid) !in Exec(setup, history).temps
      modifies this
      ensures Valid() && d < |Downloads()| && Downloads()[d] == Download(row, Finished(bytes))
      ensures var path, temp := folder + row.id + "_" + Sanitize(row.filename), folder + row.id + "_" + Sanitize(row.filename) + "." + a.uuid + ".tmp";
        Stored(old(rows), rows, old(files), files, row.id, bytes, path, temp, a)
    {
      var path := folder + row.id + "_" + Sanitize(row.filename);
      var temp := TempPath(path, a.uuid);
      WriteTemp(d, row, bytes, temp, a);
      if !a.written {
        RecordCacheState(d, row.id, "cache_write_failed", Some(a.message), a.recorded);
        return;
      }
      CommitCache(d, row, bytes, path, temp, a);
    }

    /** A write that fails may leave anything in the temporary file, or nothing. */
    method WriteTemp(ghost d: nat, row: Attachment, bytes: Bytes, temp: string, a: Answers)
      requires Valid() && d < |Downloads()| && Downloads()[d] == Download(row, Storing(bytes))
      requires temp == TempPath(Own(setup, row), a.uuid) && temp !in Exec(setup, history).temps
      modifies this`files, this`history
      ensures Valid() && d < |Downloads()|
      ensures Downloads()[d] == Download(row,
        if a.written then Renaming(bytes, temp) else Recording("cache_write_failed", Some(a.message), Finished(bytes)))
      ensures files == if a.written then old(files)[temp := bytes] else if a.left.Some? then old(files)[temp := a.left.value] else old(files)
    {
      ghost var write := Event.WriteTemp(d, a.uuid, a.written, a.left, a.message);
      RunExtends(setup, history, write);
      history := history + [write];
      if a.written { files := files[temp := bytes]; } else if a.left.Some? { files := files[temp := a.left.value]; }
    }

    /** The rename over the cache file, then the metadata. */
    method CommitCache(ghost d: nat, row: Attachment, bytes: Bytes, path: string, temp: string, a: Answers)
      requires Valid() && d < |Downloads()| && Downloads()[d] == Download(row, Renaming(bytes, temp))
      requires path == Own(setup, row) && temp in files && files[temp] == bytes
      modifies this
      ensures Valid() && d < |Downloads()| && Downloads()[d] == Download(row, Finished(bytes))
      ensures a.renamed ==> files == (old(files) - {temp})[path := bytes]
      ensures a.renamed ==> if a.saved then Saved(old(rows), rows, row.id, path, |bytes|, a.contentType, a.now) else rows == old(rows)
      ensures !a.renamed ==> files == if a.removed then old(files) - {temp} else old(files)
      ensures !a.renamed ==> if a.recorded then Marked(old(rows), rows, row.id, "cache_write_failed", Some(a.message)) else rows == old(rows)
    {
      ghost var rename := Rename(d, a.renamed, a.removed, a.message);
      RunExtends(setup, history, rename);
      history := history + [rename];
      if !a.renamed {
        if a.removed { files := files - {temp}; }
        RecordCacheState(d, row.id, "cache_write_failed", Some(a.message), a.recorded);
        return;
      }
      files := (files - {temp})[path := bytes];
      SaveMetadata(d, row, bytes, path, a);
    }

    method SaveMetadata(ghost d: nat, row: Attachment, bytes: Bytes, path: string, a: Answers)
      requires Valid() && d < |Downloads()| && Downloads()[d] == Download(row, Saving(bytes)) && path == Own(setup, row)
      modifies this`rows, this`history
      ensures Valid() && d < |Downloads()| && Downloads()[d] == Download(row, Finished(bytes))
      ensures if a.saved then Saved(old(rows), rows, row.id, path, |bytes|, a.contentType, a.now) else rows == old(rows)
    {
      ghost var save := Event.SaveMetadata(d, a.saved, a.contentType, a.now);
      RunExtends(setup, history, save);
      if a.saved { rows := UpdateGitLab(rows, row.id, Cached(path, |bytes|, a.contentType, a.now)); }
      history := history + [save];
    }

    /**
     * A file that is there and readable is served whatever the remote does, and nothing changes.
     * Otherwise the remote's answer is served, if the token is configured and there is one, and cached.
     */
    method DownloadGitLab(index: nat, reply: Option<Bytes>, a: Answers) returns (bytes: Option<Bytes>)
      requires Valid() && index < |rows| && rows[index].backend == GitLab
      requires reply.Some? ==> reply.value == setup.remote(rows[index].issue, rows[index].externalUrl)
      requires TempPath(Own(setup, rows[index]), a.uuid) !in Exec(setup, history).temps
      modifies this
      ensures Valid()
      ensures bytes.Some? ==> bytes.value == setup.remote(old(rows)[index].issue, old(rows)[index].externalUrl)
      ensures bytes == if Hit(old(rows)[index], old(files), a) then Some(old(files)[old(rows)[index].storagePath.value])
        else if a.configured then reply else None
      ensures Hit(old(rows)[index], old(files), a) ==> rows == old(rows) && files == old(files)
      ensures bytes.None? ==> files == old(files)
      ensures !Hit(old(rows)[index], old(files), a) && bytes.Some? && a.written && a.renamed && a.saved ==>
        var path := folder + old(rows)[index].id + "_" + Sanitize(old(rows)[index].filename);
        && |rows| == |old(rows)| && rows[index].storagePath == Some(path) && rows[index].cacheState == "cached"
        && path in files && files[path] == bytes.value
    {
      var row := rows[index];
      ghost var d := |Downloads()|;
      RunExtends(setup, history, Start(index));
      history := history + [Start(index)];
      bytes := ReadCached(d, row, a);
      if bytes.Some? {
        CacheIsTransparent(setup, history, d);
        return;
      }
      bytes := FetchGitLab(d, row, reply, a);
    }

    /** Past the cache: the token, the remote, and the attempt to cache its answer. */
    method FetchGitLab(ghost d: nat, row: Attachment, reply: Option<Bytes>, a: Answers) returns (bytes: Option<Bytes>)
      requires Valid() && d < |Downloads()| && Downloads()[d] == Download(row, Fetching)
      requires reply.Some? ==> reply.value == setup.remote(row.issue, row.externalUrl)
      requires TempPath(Own(setup, row), a.uuid) !in Exec(setup, history).temps
      modifies this
      ensures Valid() && bytes == if a.configured then reply else None
      ensures !a.configured ==> rows == old(rows) && files == old(files)
      ensures a.configured && reply.None? ==> files == old(files)
      ensures a.configured && reply.None? ==>
        if a.recorded then Marked(old(rows), rows, row.id, "remote_fetch_failed", Some(a.message)) else rows == old(rows)
      ensures bytes.Some? ==>
        var path, temp := folder + row.id + "_" + Sanitize(row.filename), folder + row.id + "_" + Sanitize(row.filename) + "." + a.uuid + ".tmp";
        Stored(old(rows), rows, old(files), files, row.id, bytes.value, path, temp, a)
    {
      if !a.configured {
        RunExtends(setup, history, GiveUp(d));
        history := history + [GiveUp(d)];
        return None;
      }
      ghost var fetch := Fetch(d, reply.Some?, a.message);
      RunExtends(setup, history, fetch);
      history := history + [fetch];
      if reply.None? {
        RecordCacheState(d, row.id, "remote_fetch_failed", Some(a.message), a.recorded);
        return None;
      }
      PersistCache(d, row, reply.value, a);
      bytes := reply;
    }
  }
}
