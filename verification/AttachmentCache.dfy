/**
 * The lazily filled file cache of GitLab attachments, shared by any number of downloads
 * and syncs.  One event is one SQL statement, one file operation or one remote fetch.
 */
module AttachmentCache {
  import opened Wrappers
  import opened Text
  import opened AttachmentLinks
  import opened AttachmentSync

  type Bytes = seq<bv8>

  /** The cache folder with its closing slash, the remote uploads, and the issue a comment belongs to. */
  datatype Setup = Setup(folder: string, remote: (Id, string) -> Bytes, issueOf: Id -> Id)

  // ---------------------------------------------------------------- file names

  predicate Safe(c: char) {
    'a' <= c <= 'z' || 'A' <= c <= 'Z' || '0' <= c <= '9' || c == '.' || c == '-' || c == '_'
  }

  function Dull(): char -> bool {
    c => c == '.' || c == '_' || c == '-'
  }

  function Masked(filename: string): (name: string)
    ensures |name| == |filename|
  {
    seq(|filename|, i requires 0 <= i < |filename| => if Safe(filename[i]) then filename[i] else '_')
  }

  function Sanitize(filename: string): string {
    if Trim(Masked(filename), Dull()) == "" then "attachment" else Masked(filename)
  }

  function CachePath(c: Setup, id: Id, filename: string): string {
    c.folder + id + "_" + Sanitize(filename)
  }

  function TempPath(path: string, uuid: Id): string {
    path + "." + uuid + ".tmp"
  }

  /** A path of the shape `<folder><uuid>_...`: nothing else in the system writes these. */
  predicate InCache(c: Setup, path: string) {
    && |path| > |c.folder| + 36 && path[..|c.folder|] == c.folder
    && IsUuid(CacheId(c, path)) && path[|c.folder| + 36] == '_'
  }

  function CacheId(c: Setup, path: string): Id
    requires |path| > |c.folder| + 36
  {
    path[|c.folder|..|c.folder| + 36]
  }

  lemma Middle(a: string, b: string, c: string)
    ensures (a + (b + c))[..|a|] == a && (a + (b + c))[|a|..|a| + |b|] == b
    ensures c != "" ==> (a + (b + c))[|a| + |b|] == c[0]
  {
  }

  /** Whatever follows the cache path, the id can be read back from it. */
  lemma CacheIdReadsBack(c: Setup, id: Id, filename: string, tail: string)
    requires IsUuid(id)
    ensures InCache(c, CachePath(c, id, filename) + tail) && CacheId(c, CachePath(c, id, filename) + tail) == id
  {
    var name := Sanitize(filename);
    var rest := "_" + (name + tail);
    Regroup(c.folder + id, "_", name);
    Regroup(c.folder + id, "_" + name, tail);
    Regroup("_", name, tail);
    Regroup(c.folder, id, rest);
    assert rest[0] == '_';
    Middle(c.folder, id, rest);
  }

  /** Attachments with different ids never share a cache file, nor a temporary file. */
  lemma CacheFilesApart(c: Setup, id: Id, filename: string, tail: string, id': Id, filename': string, tail': string)
    requires IsUuid(id) && IsUuid(id') && id != id'
    ensures CachePath(c, id, filename) + tail != CachePath(c, id', filename') + tail'
  {
    CacheIdReadsBack(c, id, filename, tail);
    CacheIdReadsBack(c, id', filename', tail');
  }

  /** A file name cannot lead out of the cache folder. */
  lemma CacheFilesStayInFolder(c: Setup, id: Id, filename: string)
    requires IsUuid(id)
    ensures c.folder <= CachePath(c, id, filename) && '/' !in CachePath(c, id, filename)[|c.folder|..]
  {
    var path, name := CachePath(c, id, filename), Sanitize(filename);
    assert path == c.folder + (id + "_" + name);
    assert path[|c.folder|..] == id + "_" + name;
    assert forall i :: 0 <= i < |name| ==> name[i] != '/';
  }

  /**
   * File names keep their letters, digits, dots, hyphens and underscores, have an underscore
   * for anything else, and become `attachment` if no letter or digit would be left.
   */
  lemma SanitizeIsExact(filename: string)
    ensures (exists i :: 0 <= i < |filename| && ('a' <= filename[i] <= 'z' || 'A' <= filename[i] <= 'Z' || '0' <= filename[i] <= '9')) ==>
      && |Sanitize(filename)| == |filename|
      && forall i :: 0 <= i < |filename| ==>
           Sanitize(filename)[i] == if 'a' <= filename[i] <= 'z' || 'A' <= filename[i] <= 'Z' || '0' <= filename[i] <= '9'
             || filename[i] == '.' || filename[i] == '-' || filename[i] == '_' then filename[i] else '_'
    ensures !(exists i :: 0 <= i < |filename| && ('a' <= filename[i] <= 'z' || 'A' <= filename[i] <= 'Z' || '0' <= filename[i] <= '9')) ==>
      Sanitize(filename) == "attachment"
  {
    StripsToNothing(Masked(filename), Dull());
    if i :| 0 <= i < |filename| && ('a' <= filename[i] <= 'z' || 'A' <= filename[i] <= 'Z' || '0' <= filename[i] <= '9') {
      assert Masked(filename)[i] == filename[i] && !Dull()(filename[i]);
    } else {
      forall i | 0 <= i < |Masked(filename)| ensures Dull()(Masked(filename)[i]) {
        assert !('a' <= filename[i] <= 'z' || 'A' <= filename[i] <= 'Z' || '0' <= filename[i] <= '9');
      }
    }
  }

  // ---------------------------------------------------------------- the machine

  /** Where a download stands; `next` follows once the cache columns are recorded. */
  datatype Phase =
    | Reading
    | Fetching
    | Storing(bytes: Bytes)
    | Renaming(bytes: Bytes, temp: string)
    | Saving(bytes: Bytes)
    | Recording(state: string, error: Option<string>, next: Phase)
    | Finished(bytes: Bytes)
    | Failed

  /** A download works on the row it selected at its start. */
  datatype Download = Download(row: Attachment, phase: Phase)

  /** A sync between its first SELECT and its last INSERT. */
  datatype Syncing = Syncing(scope: Scope, pending: Rows)

  datatype Origin = Origin(issue: Id, url: string)

  /** `origin` remembers for which url an id was made, `temps` the temporary paths used so far. */
  datatype State = State(
    rows: Rows,
    files: map<string, Bytes>,
    downloads: seq<Download>,
    syncs: seq<Syncing>,
    origin: map<Id, Origin>,
    temps: set<string>)

  /** A sync draws one id per url; those of urls that already have a row stay unused. */
  datatype Event =
    | LoadSync(scope: Scope, urls: seq<string>, newIds: seq<Id>, author: string, now: int)
    | DeleteRows(sync: nat)
    | InsertRow(sync: nat)
    | InsertLocal(row: Attachment)
    | EditLocal(index: nat, row: Attachment)
    | DropRow(index: nat)
    | Start(index: nat)
    | ReadCache(download: nat, readable: bool, message: string)
    | Record(download: nat, done: bool)
    | Fetch(download: nat, received: bool, message: string)
    | GiveUp(download: nat)
    | WriteTemp(download: nat, uuid: Id, written: bool, left: Option<Bytes>, message: string)
    | Rename(download: nat, renamed: bool, removed: bool, message: string)
    | SaveMetadata(download: nat, done: bool, contentType: string, now: int)
    | LoseFile(path: string)
    | WriteElsewhere(path: string, bytes: Bytes)

  /** Ids as the generator hands them out: well formed, different, never seen before. */
  predicate FreshIds(s: State, ids: seq<Id>) {
    && (forall k :: 0 <= k < |ids| ==> IsUuid(ids[k]) && ids[k] !in s.origin && forall i :: 0 <= i < |s.rows| ==> s.rows[i].id != ids[k])
    && forall i, k :: 0 <= i < k < |ids| ==> ids[i] != ids[k]
  }

  predicate HasId(rows: Rows, id: Id) {
    exists i :: 0 <= i < |rows| && rows[i].id == id
  }

  function Own(c: Setup, row: Attachment): string {
    CachePath(c, row.id, row.filename)
  }

  predicate At(s: State, d: nat) {
    d < |s.downloads|
  }

  predicate Enabled(c: Setup, s: State, e: Event) {
    match e
    case LoadSync(scope, urls, newIds, _, _) =>
      && |urls| == |newIds| && FreshIds(s, newIds)
      && (scope.comment.Some? ==> c.issueOf(scope.comment.value) == scope.issue)
    case DeleteRows(k) => k < |s.syncs|
    case InsertRow(k) => k < |s.syncs| && s.syncs[k].pending != []
    case InsertLocal(row) => row.backend == Local && FreshIds(s, [row.id]) && row.proxyPath == ProxyPath(row.id)
    case EditLocal(i, row) =>
      i < |s.rows| && s.rows[i].backend == row.backend == Local && s.rows[i].id == row.id && s.rows[i].proxyPath == row.proxyPath
    case DropRow(i) => i < |s.rows|
    case Start(i) => i < |s.rows| && s.rows[i].backend == GitLab
    case ReadCache(d, _, _) => At(s, d) && s.downloads[d].phase == Reading
    case Record(d, _) => At(s, d) && s.downloads[d].phase.Recording?
    case Fetch(d, _, _) => At(s, d) && s.downloads[d].phase == Fetching
    case GiveUp(d) => At(s, d) && s.downloads[d].phase == Fetching
    case WriteTemp(d, uuid, _, _, _) => At(s, d) && s.downloads[d].phase.Storing? && TempPath(Own(c, s.downloads[d].row), uuid) !in s.temps
    case Rename(d, renamed, _, _) =>
      At(s, d) && s.downloads[d].phase.Renaming? && (renamed ==> s.downloads[d].phase.temp in s.files)
    case SaveMetadata(d, _, _, _) => At(s, d) && s.downloads[d].phase.Saving?
    case LoseFile(path) => true
    case WriteElsewhere(path, _) => !InCache(c, path)
  }

  /** `UPDATE ... WHERE id = $1 AND storage_backend = 'gitlab'`. */
  function UpdateGitLab(rows: Rows, id: Id, update: Attachment -> Attachment): (r: Rows)
    ensures |r| == |rows|
    ensures forall i :: 0 <= i < |rows| ==>
      r[i] == if rows[i].id == id && rows[i].backend == GitLab then update(rows[i]) else rows[i]
  {
    seq(|rows|, i requires 0 <= i < |rows| =>
      if rows[i].id == id && rows[i].backend == GitLab then update(rows[i]) else rows[i])
  }

  function Uncached(state: string, error: Option<string>): Attachment -> Attachment {
    (row: Attachment) => row.(storagePath := None, cachedAt := None, cacheState := state, lastCacheError := error)
  }

  function Cached(path: string, size: nat, contentType: string, now: int): Attachment -> Attachment {
    (row: Attachment) => row.(storagePath := Some(path), byteSize := size, contentType := contentType,
                cacheState := "cached", cachedAt := Some(now), lastCacheError := None)
  }

  function Origins(scope: Scope, urls: seq<string>, newIds: seq<Id>): map<Id, Origin>
    requires |urls| == |newIds|
  {
    if urls == [] then map[]
    else Origins(scope, urls[..|urls| - 1], newIds[..|urls| - 1])[newIds[|urls| - 1] := Origin(scope.issue, urls[|urls| - 1])]
  }

  function Move(s: State, d: nat, phase: Phase): State
    requires d < |s.downloads|
  {
    s.(downloads := s.downloads[d := s.downloads[d].(phase := phase)])
  }

  /** The select for a sync: the issue's rows of the scope, by url. */
  function Selected(rows: Rows, scope: Scope): Rows {
    if rows == [] then []
    else
      var front, last := Selected(rows[..|rows| - 1], scope), rows[|rows| - 1];
      if InScope(last, scope) && last.issue == scope.issue then front + [last] else front
  }

  function Apply(c: Setup, s: State, e: Event): State
    requires Enabled(c, s, e)
  {
    match e
    case LoadSync(scope, urls, newIds, author, now) =>
      s.(syncs := s.syncs + [Syncing(scope, SyncedRows(Selected(s.rows, scope), scope, urls, newIds, author, now))],
         origin := s.origin + Origins(scope, urls, newIds))
    case DeleteRows(k) => s.(rows := Outside(s.rows, s.syncs[k].scope))
    case InsertRow(k) =>
      var pending := s.syncs[k].pending;
      if HasId(s.rows, pending[0].id) then s.(syncs := s.syncs[k := s.syncs[k].(pending := [])])
      else s.(rows := s.rows + [pending[0]], syncs := s.syncs[k := s.syncs[k].(pending := pending[1..])])
    case InsertLocal(row) => s.(rows := s.rows + [row])
    case EditLocal(i, row) => s.(rows := s.rows[i := row])
    case DropRow(i) => s.(rows := s.rows[..i] + s.rows[i + 1..])
    case Start(i) => s.(downloads := s.downloads + [Download(s.rows[i], Reading)])
    case ReadCache(d, readable, message) =>
      var path := s.downloads[d].row.storagePath;
      if path.None? then Move(s, d, Fetching)
      else if !readable then Move(s, d, Recording("cache_read_failed", Some(message), Fetching))
      else if path.value !in s.files then Move(s, d, Recording("not_cached", None, Fetching))
      else Move(s, d, Finished(s.files[path.value]))
    case Record(d, done) =>
      var phase := s.downloads[d].phase;
      var t := Move(s, d, phase.next);
      if done then t.(rows := UpdateGitLab(s.rows, s.downloads[d].row.id, Uncached(phase.state, phase.error))) else t
    case Fetch(d, received, message) =>
      var row := s.downloads[d].row;
      if received then Move(s, d, Storing(c.remote(row.issue, row.externalUrl)))
      else Move(s, d, Recording("remote_fetch_failed", Some(message), Failed))
    case GiveUp(d) => Move(s, d, Failed)
    case WriteTemp(d, uuid, written, left, message) =>
      var temp, bytes := TempPath(Own(c, s.downloads[d].row), uuid), s.downloads[d].phase.bytes;
      var t := s.(temps := s.temps + {temp});
      if written then Move(t.(files := s.files[temp := bytes]), d, Renaming(bytes, temp))
      else Move(if left.Some? then t.(files := s.files[temp := left.value]) else t, d,
                Recording("cache_write_failed", Some(message), Finished(bytes)))
    case Rename(d, renamed, removed, message) =>
      var temp, bytes := s.downloads[d].phase.temp, s.downloads[d].phase.bytes;
      if renamed then
        Move(s.(files := (s.files - {temp})[Own(c, s.downloads[d].row) := s.files[temp]]), d, Saving(bytes))
      else
        Move(if removed then s.(files := s.files - {temp}) else s, d, Recording("cache_write_failed", Some(message), Finished(bytes)))
    case SaveMetadata(d, done, contentType, now) =>
      var row, bytes := s.downloads[d].row, s.downloads[d].phase.bytes;
      var t := Move(s, d, Finished(bytes));
      if done then t.(rows := UpdateGitLab(s.rows, row.id, Cached(Own(c, row), |bytes|, contentType, now))) else t
    case LoseFile(path) => s.(files := s.files - {path})
    case WriteElsewhere(path, bytes) => s.(files := s.files[path := bytes])
  }

  const EMPTY := State([], map[], [], [], map[], {})

  ghost predicate Run(c: Setup, es: seq<Event>)
    decreases |es|, 0
  {
    es == [] || (Run(c, es[..|es| - 1]) && Enabled(c, Exec(c, es[..|es| - 1]), es[|es| - 1]))
  }

  ghost function Exec(c: Setup, es: seq<Event>): State
    requires Run(c, es)
    decreases |es|, 1
  {
    if es == [] then EMPTY else Apply(c, Exec(c, es[..|es| - 1]), es[|es| - 1])
  }

  // ---------------------------------------------------------------- what every run keeps

  ghost predicate IdsFit(origin: map<Id, Origin>) {
    forall id :: id in origin ==> IsUuid(id)
  }

  ghost predicate RowFits(c: Setup, origin: map<Id, Origin>, row: Attachment) {
    && row.id in origin && origin[row.id] == Origin(row.issue, row.externalUrl)
    && row.filename == FilenameOf(row.externalUrl)
    && (row.storagePath.Some? ==> row.storagePath.value == Own(c, row))
    && row.proxyPath == ProxyPath(row.id)
    && (row.comment.Some? ==> c.issueOf(row.comment.value) == row.issue)
  }

  ghost predicate RowsFit(c: Setup, origin: map<Id, Origin>, rows: Rows) {
    forall i :: 0 <= i < |rows| && rows[i].backend == GitLab ==> RowFits(c, origin, rows[i])
  }

  ghost predicate AllGitLab(rows: Rows) {
    forall i :: 0 <= i < |rows| ==> rows[i].backend == GitLab
  }

  ghost predicate SyncsFit(c: Setup, s: State) {
    forall k :: 0 <= k < |s.syncs| ==> AllGitLab(s.syncs[k].pending) && RowsFit(c, s.origin, s.syncs[k].pending)
  }

  /** Where the bytes of an id belong. */
  function Place(c: Setup, origin: map<Id, Origin>, id: Id): string
    requires id in origin
  {
    CachePath(c, id, FilenameOf(origin[id].url))
  }

  function Remote(c: Setup, origin: map<Id, Origin>, id: Id): Bytes
    requires id in origin
  {
    c.remote(origin[id].issue, origin[id].url)
  }

  /** A cache file is named after an issued id, and in that id's place stand its remote bytes. */
  ghost predicate FileFits(c: Setup, origin: map<Id, Origin>, path: string, bytes: Bytes) {
    InCache(c, path) ==>
      && CacheId(c, path) in origin
      && (path == Place(c, origin, CacheId(c, path)) ==> bytes == Remote(c, origin, CacheId(c, path)))
  }

  ghost predicate FilesFit(c: Setup, origin: map<Id, Origin>, files: map<string, Bytes>) {
    forall path :: path in files ==> FileFits(c, origin, path, files[path])
  }

  ghost predicate PhaseFits(c: Setup, row: Attachment, phase: Phase) {
    match phase
    case Reading => true
    case Fetching => true
    case Storing(bytes) => bytes == c.remote(row.issue, row.externalUrl)
    case Renaming(bytes, temp) => bytes == c.remote(row.issue, row.externalUrl) && exists uuid :: temp == TempPath(Own(c, row), uuid)
    case Saving(bytes) => bytes == c.remote(row.issue, row.externalUrl)
    case Recording(_, _, next) => !next.Renaming? && PhaseFits(c, row, next)
    case Finished(bytes) => bytes == c.remote(row.issue, row.externalUrl)
    case Failed => true
  }

  ghost predicate DownloadFits(c: Setup, origin: map<Id, Origin>, d: Download) {
    d.row.backend == GitLab && RowFits(c, origin, d.row) && PhaseFits(c, d.row, d.phase)
  }

  ghost predicate DownloadsFit(c: Setup, s: State) {
    forall d :: 0 <= d < |s.downloads| ==> DownloadFits(c, s.origin, s.downloads[d])
  }

  /** A temporary file still to be renamed belongs to one download and holds what that download wrote. */
  ghost predicate TempsFit(s: State) {
    && (forall d :: 0 <= d < |s.downloads| && s.downloads[d].phase.Renaming? ==>
          && s.downloads[d].phase.temp in s.temps
          && (s.downloads[d].phase.temp in s.files ==> s.files[s.downloads[d].phase.temp] == s.downloads[d].phase.bytes))
    && (forall d, e :: 0 <= d < e < |s.downloads| && s.downloads[d].phase.Renaming? && s.downloads[e].phase.Renaming? ==>
          s.downloads[d].phase.temp != s.downloads[e].phase.temp)
  }

  ghost predicate Fits(c: Setup, s: State) {
    IdsFit(s.origin) && RowsFit(c, s.origin, s.rows) && SyncsFit(c, s) && FilesFit(c, s.origin, s.files)
    && DownloadsFit(c, s) && TempsFit(s)
  }

  // ---------------------------------------------------------------- one step at a time

  ghost predicate Extends(origin: map<Id, Origin>, origin': map<Id, Origin>) {
    forall id :: id in origin ==> id in origin' && origin'[id] == origin[id]
  }

  lemma {:induction false} OriginsOf(scope: Scope, urls: seq<string>, newIds: seq<Id>)
    requires |urls| == |newIds|
    requires forall i, k :: 0 <= i < k < |newIds| ==> newIds[i] != newIds[k]
    ensures forall k :: 0 <= k < |urls| ==>
      newIds[k] in Origins(scope, urls, newIds) && Origins(scope, urls, newIds)[newIds[k]] == Origin(scope.issue, urls[k])
    ensures forall id :: id in Origins(scope, urls, newIds) ==> id in newIds
  {
    if urls != [] { OriginsOf(scope, urls[..|urls| - 1], newIds[..|urls| - 1]); }
  }

  lemma {:induction false} SelectedFit(c: Setup, origin: map<Id, Origin>, rows: Rows, scope: Scope)
    requires RowsFit(c, origin, rows)
    ensures RowsFit(c, origin, Selected(rows, scope))
    ensures forall i :: 0 <= i < |Selected(rows, scope)| ==>
      InScope(Selected(rows, scope)[i], scope) && Selected(rows, scope)[i].issue == scope.issue
  {
    if rows != [] { SelectedFit(c, origin, rows[..|rows| - 1], scope); }
  }

  lemma SyncedRowFits(c: Setup, origin: map<Id, Origin>, rows: Rows, scope: Scope, url: string, newId: Id, author: string, now: int)
    requires RowsFit(c, origin, rows)
    requires forall i :: 0 <= i < |rows| ==> rows[i].issue == scope.issue
    requires newId in origin && origin[newId] == Origin(scope.issue, url)
    requires scope.comment.Some? ==> c.issueOf(scope.comment.value) == scope.issue
    ensures RowFits(c, origin, SyncedRow(ParsedOf(url), Existing(rows, scope, url), scope, newId, author, now))
  {
    var found := Existing(rows, scope, url);
    if found.Some? {
      var i :| 0 <= i < |rows| && rows[i] == found.value;
      assert RowFits(c, origin, found.value);
    }
  }

  lemma Extended(c: Setup, s: State, origin: map<Id, Origin>)
    requires Fits(c, s) && Extends(s.origin, origin) && IdsFit(origin)
    ensures Fits(c, s.(origin := origin))
  {
    var t := s.(origin := origin);
    assert forall row :: RowFits(c, s.origin, row) ==> RowFits(c, origin, row);
    assert forall path, bytes :: FileFits(c, s.origin, path, bytes) ==> FileFits(c, origin, path, bytes);
    assert DownloadsFit(c, t);
    assert SyncsFit(c, t);
  }

  lemma PendingFits(c: Setup, origin: map<Id, Origin>, rows: Rows, scope: Scope, urls: seq<string>, newIds: seq<Id>, author: string, now: int)
    requires RowsFit(c, origin, rows) && |urls| == |newIds|
    requires forall k :: 0 <= k < |urls| ==> newIds[k] in origin && origin[newIds[k]] == Origin(scope.issue, urls[k])
    requires scope.comment.Some? ==> c.issueOf(scope.comment.value) == scope.issue
    ensures var pending := SyncedRows(Selected(rows, scope), scope, urls, newIds, author, now);
      RowsFit(c, origin, pending) && AllGitLab(pending)
  {
    var selected := Selected(rows, scope);
    SelectedFit(c, origin, rows, scope);
    forall k | 0 <= k < |urls|
      ensures RowFits(c, origin, SyncedRow(ParsedOf(urls[k]), Existing(selected, scope, urls[k]), scope, newIds[k], author, now))
    {
      SyncedRowFits(c, origin, selected, scope, urls[k], newIds[k], author, now);
    }
  }

  lemma LoadKeeps(c: Setup, s: State, e: Event)
    requires Fits(c, s) && Enabled(c, s, e) && e.LoadSync?
    ensures Fits(c, Apply(c, s, e))
  {
    var origin := s.origin + Origins(e.scope, e.urls, e.newIds);
    OriginsOf(e.scope, e.urls, e.newIds);
    Extended(c, s, origin);
    PendingFits(c, origin, s.rows, e.scope, e.urls, e.newIds, e.author, e.now);
  }

  lemma {:induction false} OutsideFit(c: Setup, origin: map<Id, Origin>, rows: Rows, scope: Scope)
    requires RowsFit(c, origin, rows)
    ensures RowsFit(c, origin, Outside(rows, scope))
  {
    if rows != [] { OutsideFit(c, origin, rows[..|rows| - 1], scope); }
  }

  lemma SyncEventsKeep(c: Setup, s: State, e: Event)
    requires Fits(c, s) && Enabled(c, s, e)
    requires e.DeleteRows? || e.InsertRow?
    ensures Fits(c, Apply(c, s, e))
  {
    if e.DeleteRows? { OutsideFit(c, s.origin, s.rows, s.syncs[e.sync].scope); }
  }

  lemma RowEventsKeep(c: Setup, s: State, e: Event)
    requires Fits(c, s) && Enabled(c, s, e)
    requires e.InsertLocal? || e.EditLocal? || e.DropRow?
    ensures Fits(c, Apply(c, s, e))
  {
    assert RowsFit(c, s.origin, Apply(c, s, e).rows);
  }

  lemma StartKeeps(c: Setup, s: State, e: Event)
    requires Fits(c, s) && Enabled(c, s, e) && e.Start?
    ensures Fits(c, Apply(c, s, e))
  {
    assert DownloadFits(c, s.origin, Download(s.rows[e.index], Reading));
  }

  /** Moving one download on, to a phase other than renaming, keeps everything else. */
  lemma MoveKeeps(c: Setup, s: State, d: nat, phase: Phase)
    requires Fits(c, s) && At(s, d) && !phase.Renaming? && PhaseFits(c, s.downloads[d].row, phase)
    ensures Fits(c, Move(s, d, phase))
  {
    var t := Move(s, d, phase);
    assert DownloadFits(c, t.origin, t.downloads[d]);
    assert DownloadsFit(c, t);
  }

  lemma UpdateKeeps(c: Setup, s: State, id: Id, update: Attachment -> Attachment)
    requires Fits(c, s)
    requires forall row: Attachment :: row.backend == GitLab && row.id == id && RowFits(c, s.origin, row) ==>
      update(row).backend == GitLab && RowFits(c, s.origin, update(row))
    ensures Fits(c, s.(rows := UpdateGitLab(s.rows, id, update)))
  {
  }

  /** The file a row names is its own, and holds its remote bytes. */
  lemma OwnFile(c: Setup, s: State, row: Attachment)
    requires Fits(c, s) && RowFits(c, s.origin, row)
    ensures InCache(c, Own(c, row)) && CacheId(c, Own(c, row)) == row.id && Own(c, row) == Place(c, s.origin, row.id)
    ensures Own(c, row) in s.files ==> s.files[Own(c, row)] == c.remote(row.issue, row.externalUrl)
  {
    CacheIdReadsBack(c, row.id, row.filename, "");
    assert Own(c, row) + "" == Own(c, row);
    if Own(c, row) in s.files { assert FileFits(c, s.origin, Own(c, row), s.files[Own(c, row)]); }
  }

  /** No temporary path of a row is the place of any issued id. */
  lemma TempIsNoPlace(c: Setup, origin: map<Id, Origin>, row: Attachment, uuid: Id)
    requires IdsFit(origin) && RowFits(c, origin, row)
    ensures var temp := TempPath(Own(c, row), uuid); InCache(c, temp) && CacheId(c, temp) == row.id && temp != Place(c, origin, row.id)
  {
    var temp := TempPath(Own(c, row), uuid);
    CacheIdReadsBack(c, row.id, row.filename, "." + uuid + ".tmp");
    assert temp == Own(c, row) + ("." + uuid + ".tmp");
    assert |temp| > |Own(c, row)|;
  }

  lemma RecordEventsKeep(c: Setup, s: State, e: Event)
    requires Fits(c, s) && Enabled(c, s, e)
    requires e.Record? || e.SaveMetadata?
    ensures Fits(c, Apply(c, s, e))
  {
    var row, phase := s.downloads[e.download].row, s.downloads[e.download].phase;
    assert DownloadFits(c, s.origin, s.downloads[e.download]);
    if e.Record? {
      MoveKeeps(c, s, e.download, phase.next);
      if e.done { UpdateKeeps(c, Move(s, e.download, phase.next), row.id, Uncached(phase.state, phase.error)); }
    } else {
      var update := Cached(Own(c, row), |phase.bytes|, e.contentType, e.now);
      MoveKeeps(c, s, e.download, Finished(phase.bytes));
      if e.done { UpdateKeeps(c, Move(s, e.download, Finished(phase.bytes)), row.id, update); }
    }
  }

  lemma ReadEventsKeep(c: Setup, s: State, e: Event)
    requires Fits(c, s) && Enabled(c, s, e)
    requires e.ReadCache? || e.Fetch? || e.GiveUp?
    ensures Fits(c, Apply(c, s, e))
  {
    var d := e.download;
    assert DownloadFits(c, s.origin, s.downloads[d]);
    OwnFile(c, s, s.downloads[d].row);
    MoveKeeps(c, s, d, Apply(c, s, e).downloads[d].phase);
  }

  /** Files outside the shape of cache files, or fewer of them, disturb nothing. */
  lemma OtherFilesKeep(c: Setup, s: State, e: Event)
    requires Fits(c, s) && Enabled(c, s, e)
    requires e.LoseFile? || e.WriteElsewhere?
    ensures Fits(c, Apply(c, s, e))
  {
    var t := Apply(c, s, e);
    forall d | 0 <= d < |s.downloads| && s.downloads[d].phase.Renaming? ensures InCache(c, s.downloads[d].phase.temp) {
      LiveTemp(c, s, d);
    }
    assert TempsFit(t);
  }

  lemma LiveTemp(c: Setup, s: State, d: nat)
    requires Fits(c, s) && At(s, d) && s.downloads[d].phase.Renaming?
    ensures var temp := s.downloads[d].phase.temp;
      InCache(c, temp) && CacheId(c, temp) == s.downloads[d].row.id && temp != Place(c, s.origin, s.downloads[d].row.id)
  {
    assert DownloadFits(c, s.origin, s.downloads[d]);
    var uuid :| s.downloads[d].phase.temp == TempPath(Own(c, s.downloads[d].row), uuid);
    TempIsNoPlace(c, s.origin, s.downloads[d].row, uuid);
  }

  /** A new temporary file, whatever its content, stands in nobody's place. */
  lemma TempWritten(c: Setup, s: State, row: Attachment, uuid: Id, bytes: Bytes)
    requires Fits(c, s) && RowFits(c, s.origin, row) && TempPath(Own(c, row), uuid) !in s.temps
    ensures var temp := TempPath(Own(c, row), uuid); Fits(c, s.(files := s.files[temp := bytes], temps := s.temps + {temp}))
  {
    var temp := TempPath(Own(c, row), uuid);
    TempIsNoPlace(c, s.origin, row, uuid);
    var t := s.(files := s.files[temp := bytes], temps := s.temps + {temp});
    assert FilesFit(c, t.origin, t.files);
  }

  lemma RenamingKeeps(c: Setup, s: State, d: nat, bytes: Bytes, uuid: Id)
    requires Fits(c, s) && At(s, d)
    requires var temp := TempPath(Own(c, s.downloads[d].row), uuid);
      && temp in s.temps && temp in s.files && s.files[temp] == bytes == c.remote(s.downloads[d].row.issue, s.downloads[d].row.externalUrl)
      && forall k :: 0 <= k < |s.downloads| && s.downloads[k].phase.Renaming? ==> s.downloads[k].phase.temp != temp
    ensures Fits(c, Move(s, d, Renaming(bytes, TempPath(Own(c, s.downloads[d].row), uuid))))
  {
    var t := Move(s, d, Renaming(bytes, TempPath(Own(c, s.downloads[d].row), uuid)));
    assert DownloadFits(c, s.origin, s.downloads[d]);
    assert DownloadFits(c, t.origin, t.downloads[d]);
    assert DownloadsFit(c, t);
    assert TempsFit(t);
  }

  lemma WriteKeeps(c: Setup, s: State, e: Event)
    requires Fits(c, s) && Enabled(c, s, e) && e.WriteTemp?
    ensures Fits(c, Apply(c, s, e))
  {
    var d := e.download;
    var row, bytes, temp := s.downloads[d].row, s.downloads[d].phase.bytes, TempPath(Own(c, s.downloads[d].row), e.uuid);
    assert DownloadFits(c, s.origin, s.downloads[d]);
    if e.written {
      TempWritten(c, s, row, e.uuid, bytes);
      RenamingKeeps(c, s.(files := s.files[temp := bytes], temps := s.temps + {temp}), d, bytes, e.uuid);
    } else {
      var next := Recording("cache_write_failed", Some(e.message), Finished(bytes));
      if e.left.Some? { TempWritten(c, s, row, e.uuid, e.left.value); }
      MoveKeeps(c, s.(files := if e.left.Some? then s.files[temp := e.left.value] else s.files, temps := s.temps + {temp}), d, next);
    }
  }

  lemma RenameKeeps(c: Setup, s: State, e: Event)
    requires Fits(c, s) && Enabled(c, s, e) && e.Rename?
    ensures Fits(c, Apply(c, s, e))
  {
    var d := e.download;
    var row := s.downloads[d].row;
    assert DownloadFits(c, s.origin, s.downloads[d]);
    OwnFile(c, s, row);
    forall k | 0 <= k < |s.downloads| && s.downloads[k].phase.Renaming? ensures s.downloads[k].phase.temp != Own(c, row) {
      LiveTemp(c, s, k);
    }
    var t := Apply(c, s, e);
    assert DownloadFits(c, t.origin, t.downloads[d]);
    assert FilesFit(c, t.origin, t.files);
    assert DownloadsFit(c, t);
    assert TempsFit(t);
  }

  lemma StepKeeps(c: Setup, s: State, e: Event)
    requires Fits(c, s) && Enabled(c, s, e)
    ensures Fits(c, Apply(c, s, e))
  {
    match e
    case LoadSync(_, _, _, _, _) => LoadKeeps(c, s, e);
    case DeleteRows(_) => SyncEventsKeep(c, s, e);
    case InsertRow(_) => SyncEventsKeep(c, s, e);
    case InsertLocal(_) => RowEventsKeep(c, s, e);
    case EditLocal(_, _) => RowEventsKeep(c, s, e);
    case DropRow(_) => RowEventsKeep(c, s, e);
    case Start(_) => StartKeeps(c, s, e);
    case ReadCache(_, _, _) => ReadEventsKeep(c, s, e);
    case Fetch(_, _, _) => ReadEventsKeep(c, s, e);
    case GiveUp(_) => ReadEventsKeep(c, s, e);
    case Record(_, _) => RecordEventsKeep(c, s, e);
    case SaveMetadata(_, _, _, _) => RecordEventsKeep(c, s, e);
    case WriteTemp(_, _, _, _, _) => WriteKeeps(c, s, e);
    case Rename(_, _, _, _) => RenameKeeps(c, s, e);
    case LoseFile(_) => OtherFilesKeep(c, s, e);
    case WriteElsewhere(_, _) => OtherFilesKeep(c, s, e);
  }

  lemma {:induction false} EveryRunFits(c: Setup, es: seq<Event>)
    requires Run(c, es)
    ensures Fits(c, Exec(c, es))
    decreases |es|
  {
    if es != [] {
      EveryRunFits(c, es[..|es| - 1]);
      StepKeeps(c, Exec(c, es[..|es| - 1]), es[|es| - 1]);
    }
  }

  // ---------------------------------------------------------------- the two promises

  /**
   * In every interleaving of syncs, downloads, lost files, failed reads, writes, renames
   * and updates, a download that succeeds delivers the remote bytes of its row's url.
   */
  lemma CacheIsTransparent(c: Setup, es: seq<Event>, d: nat)
    requires Run(c, es) && At(Exec(c, es), d) && Exec(c, es).downloads[d].phase.Finished?
    ensures var download := Exec(c, es).downloads[d];
      download.phase.bytes == c.remote(download.row.issue, download.row.externalUrl)
  {
    EveryRunFits(c, es);
    assert DownloadFits(c, Exec(c, es).origin, Exec(c, es).downloads[d]);
  }

  lemma RunStep(c: Setup, es: seq<Event>, e: Event)
    requires Run(c, es) && Enabled(c, Exec(c, es), e)
    ensures Run(c, es + [e]) && Exec(c, es + [e]) == Apply(c, Exec(c, es), e)
  {
    assert (es + [e])[..|es + [e]| - 1] == es;
  }

  /**
   * A cached attachment needs no remote: in every reachable state a download of a row that
   * names a file which is there ends with the remote bytes as soon as it has read the file,
   * and changes neither rows nor files.
   */
  lemma CachedIsServed(c: Setup, es: seq<Event>, index: nat, message: string)
    requires Run(c, es) && index < |Exec(c, es).rows|
    requires var row := Exec(c, es).rows[index];
      row.backend == GitLab && row.storagePath.Some? && row.storagePath.value in Exec(c, es).files
    ensures var s := Exec(c, es);
      var started := es + [Start(index)];
      var read := ReadCache(|s.downloads|, true, message);
      && Run(c, started) && Run(c, started + [read])
      && var t := Exec(c, started + [read]);
         && |t.downloads| == |s.downloads| + 1
         && t.downloads[|s.downloads|].phase == Finished(c.remote(s.rows[index].issue, s.rows[index].externalUrl))
         && t.rows == s.rows && t.files == s.files
  {
    var s := Exec(c, es);
    RunStep(c, es, Start(index));
    RunStep(c, es + [Start(index)], ReadCache(|s.downloads|, true, message));
    EveryRunFits(c, es);
    OwnFile(c, s, s.rows[index]);
  }

  /** Once a download has saved its metadata, its row names its file for as long as nothing changes that row. */
  lemma SavedIsCached(c: Setup, es: seq<Event>, d: nat, contentType: string, now: int, i: nat)
    requires Run(c, es) && Enabled(c, Exec(c, es), SaveMetadata(d, true, contentType, now))
    requires i < |Exec(c, es).rows| && Exec(c, es).rows[i].backend == GitLab && Exec(c, es).rows[i].id == Exec(c, es).downloads[d].row.id
    ensures var s, after := Exec(c, es), es + [SaveMetadata(d, true, contentType, now)];
      && Run(c, after)
      && var row := Exec(c, after).rows[i];
         && row.storagePath == Some(c.folder + row.id + "_" + Sanitize(s.downloads[d].row.filename))
         && row.cacheState == "cached" && row.lastCacheError.None? && row.cachedAt == Some(now)
         && row.byteSize == |c.remote(s.downloads[d].row.issue, s.downloads[d].row.externalUrl)|
  {
    RunStep(c, es, SaveMetadata(d, true, contentType, now));
    EveryRunFits(c, es);
    assert DownloadFits(c, Exec(c, es).origin, Exec(c, es).downloads[d]);
  }

  predicate Changes(files: map<string, Bytes>, files': map<string, Bytes>, path: string) {
    (path in files <==> path !in files') || (path in files && path in files' && files[path] != files'[path])
  }

  predicate OfDownload(e: Event, d: nat) {
    (e.WriteTemp? || e.Rename? || e.ReadCache? || e.Record? || e.Fetch? || e.GiveUp? || e.SaveMetadata?) && e.download == d
  }

  ghost predicate FilesApart(c: Setup, files: map<string, Bytes>, files': map<string, Bytes>, id: Id) {
    forall path :: Changes(files, files', path) ==> InCache(c, path) && CacheId(c, path) == id
  }

  ghost predicate RowsApart(rows: Rows, rows': Rows, id: Id) {
    && |rows'| == |rows|
    && forall i :: 0 <= i < |rows| && (rows[i].id != id || rows[i].backend == Local) ==> rows'[i] == rows[i]
  }

  lemma TempStepsApart(c: Setup, s: State, e: Event, d: nat)
    requires Fits(c, s) && Enabled(c, s, e) && e.WriteTemp? && e.download == d
    ensures FilesApart(c, s.files, Apply(c, s, e).files, s.downloads[d].row.id)
  {
    assert DownloadFits(c, s.origin, s.downloads[d]);
    TempIsNoPlace(c, s.origin, s.downloads[d].row, e.uuid);
  }

  lemma RenameStepsApart(c: Setup, s: State, e: Event, d: nat)
    requires Fits(c, s) && Enabled(c, s, e) && e.Rename? && e.download == d
    ensures FilesApart(c, s.files, Apply(c, s, e).files, s.downloads[d].row.id)
  {
    assert DownloadFits(c, s.origin, s.downloads[d]);
    OwnFile(c, s, s.downloads[d].row);
    LiveTemp(c, s, d);
  }

  lemma FileStepsApart(c: Setup, s: State, e: Event, d: nat)
    requires Fits(c, s) && Enabled(c, s, e) && OfDownload(e, d)
    ensures FilesApart(c, s.files, Apply(c, s, e).files, s.downloads[d].row.id)
  {
    if e.WriteTemp? {
      TempStepsApart(c, s, e, d);
    } else if e.Rename? {
      RenameStepsApart(c, s, e, d);
    } else {
      assert Apply(c, s, e).files == s.files;
    }
  }

  lemma RowStepsApart(c: Setup, s: State, e: Event, d: nat)
    requires Enabled(c, s, e) && OfDownload(e, d)
    ensures RowsApart(s.rows, Apply(c, s, e).rows, s.downloads[d].row.id)
  {
    assert e.Record? || e.SaveMetadata? || Apply(c, s, e).rows == s.rows;
  }

  /**
   * Whatever a download does next, every file it creates, changes or removes carries the
   * id of its own attachment, and so does every row it changes.
   */
  lemma DownloadsKeepApart(c: Setup, es: seq<Event>, e: Event, d: nat)
    requires Run(c, es) && Enabled(c, Exec(c, es), e) && OfDownload(e, d)
    ensures var s, t := Exec(c, es), Apply(c, Exec(c, es), e);
      FilesApart(c, s.files, t.files, s.downloads[d].row.id) && RowsApart(s.rows, t.rows, s.downloads[d].row.id)
  {
    EveryRunFits(c, es);
    FileStepsApart(c, Exec(c, es), e, d);
    RowStepsApart(c, Exec(c, es), e, d);
  }

  // ---------------------------------------------------------------- one row per request

  ghost predicate UniqueIds(rows: Rows) {
    forall i, k :: 0 <= i < k < |rows| ==> rows[i].id != rows[k].id
  }

  ghost predicate ProxyPathsFit(rows: Rows) {
    forall i :: 0 <= i < |rows| ==> rows[i].proxyPath == ProxyPath(rows[i].id)
  }

  lemma {:induction false} OutsideKeepsUnique(rows: Rows, scope: Scope)
    requires UniqueIds(rows)
    ensures UniqueIds(Outside(rows, scope))
  {
    if rows != [] {
      OutsideKeepsUnique(rows[..|rows| - 1], scope);
      OutsideFrom(rows[..|rows| - 1], scope);
    }
  }

  lemma {:induction false} OutsideFrom(rows: Rows, scope: Scope)
    ensures forall i :: 0 <= i < |Outside(rows, scope)| ==> Outside(rows, scope)[i] in rows
  {
    if rows != [] {
      var front := rows[..|rows| - 1];
      OutsideFrom(front, scope);
      assert forall i :: 0 <= i < |Outside(front, scope)| ==> Outside(front, scope)[i] in front;
    }
  }

  /** Updates change neither ids nor proxy paths, and the rest touches no row. */
  lemma UpdatesKeepNames(c: Setup, s: State, e: Event)
    requires Fits(c, s) && Enabled(c, s, e)
    requires !e.DeleteRows? && !e.InsertRow? && !e.InsertLocal? && !e.EditLocal? && !e.DropRow?
    ensures |Apply(c, s, e).rows| == |s.rows|
    ensures forall i :: 0 <= i < |s.rows| ==>
      Apply(c, s, e).rows[i].id == s.rows[i].id && Apply(c, s, e).rows[i].proxyPath == s.rows[i].proxyPath
  {
    var t := Apply(c, s, e);
    assert e.Record? || e.SaveMetadata? || t.rows == s.rows;
  }

  lemma IdsStayUnique(c: Setup, s: State, e: Event)
    requires Enabled(c, s, e) && UniqueIds(s.rows)
    requires e.DeleteRows? || e.InsertRow? || e.InsertLocal? || e.EditLocal? || e.DropRow?
    ensures UniqueIds(Apply(c, s, e).rows)
  {
    match e
    case DeleteRows(k) => OutsideKeepsUnique(s.rows, s.syncs[k].scope);
    case InsertRow(k) => assert forall i :: 0 <= i < |s.rows| && !HasId(s.rows, s.syncs[k].pending[0].id) ==> s.rows[i].id != s.syncs[k].pending[0].id;
    case InsertLocal(row) => assert [row.id][0] == row.id;
    case DropRow(j) => assert forall i :: 0 <= i < |s.rows| - 1 ==> Apply(c, s, e).rows[i] == s.rows[if i < j then i else i + 1];
    case _ =>
  }

  lemma ProxyPathsStay(c: Setup, s: State, e: Event)
    requires SyncsFit(c, s) && Enabled(c, s, e) && ProxyPathsFit(s.rows)
    requires e.DeleteRows? || e.InsertRow? || e.InsertLocal? || e.EditLocal? || e.DropRow?
    ensures ProxyPathsFit(Apply(c, s, e).rows)
  {
    if e.DeleteRows? { OutsideFrom(s.rows, s.syncs[e.sync].scope); }
  }

  lemma {:induction false} EveryIdOnce(c: Setup, es: seq<Event>)
    requires Run(c, es)
    ensures UniqueIds(Exec(c, es).rows) && ProxyPathsFit(Exec(c, es).rows)
    decreases |es|
  {
    if es != [] {
      var s, e := Exec(c, es[..|es| - 1]), es[|es| - 1];
      EveryIdOnce(c, es[..|es| - 1]);
      EveryRunFits(c, es[..|es| - 1]);
      if e.DeleteRows? || e.InsertRow? || e.InsertLocal? || e.EditLocal? || e.DropRow? {
        IdsStayUnique(c, s, e);
        ProxyPathsStay(c, s, e);
      } else {
        UpdatesKeepNames(c, s, e);
      }
    }
  }

  /** `WHERE proxy_path = $1 OR id::text = $2`, both made from the requested name. */
  predicate Requested(row: Attachment, name: string) {
    row.proxyPath == ProxyPath(name) || row.id == name
  }

  lemma ProxyPathReadsBack(a: Id, b: Id)
    requires ProxyPath(a) == ProxyPath(b)
    ensures a == b
  {
    var n := |"/api/v1/attachments/"|;
    assert ProxyPath(a)[n..|ProxyPath(a)| - |"/download"|] == a;
    assert ProxyPath(b)[n..|ProxyPath(b)| - |"/download"|] == b;
  }

  /** In every reachable state a name asks for exactly the rows with that id. */
  lemma RequestedById(c: Setup, es: seq<Event>, name: string, i: nat)
    requires Run(c, es) && i < |Exec(c, es).rows|
    ensures Requested(Exec(c, es).rows[i], name) <==> Exec(c, es).rows[i].id == name
  {
    EveryIdOnce(c, es);
    if Exec(c, es).rows[i].proxyPath == ProxyPath(name) { ProxyPathReadsBack(Exec(c, es).rows[i].id, name); }
  }

  /** A requested name picks at most one attachment, the one with that id. */
  lemma RequestsPickOne(c: Setup, es: seq<Event>, name: string, i: nat, k: nat)
    requires Run(c, es) && i < |Exec(c, es).rows| && k < |Exec(c, es).rows|
    requires Requested(Exec(c, es).rows[i], name) && Requested(Exec(c, es).rows[k], name)
    ensures i == k && Exec(c, es).rows[i].id == name
  {
    EveryIdOnce(c, es);
    var rows := Exec(c, es).rows;
    if rows[i].id != name { ProxyPathReadsBack(rows[i].id, name); }
    if rows[k].id != name { ProxyPathReadsBack(rows[k].id, name); }
  }

  // ---------------------------------------------------------------- an undisturbed sync

  function InsertAll(c: Setup, s: State, k: nat): State
    requires k < |s.syncs|
    decreases |s.syncs[k].pending|
  {
    if s.syncs[k].pending == [] then s else InsertAll(c, Apply(c, s, InsertRow(k)), k)
  }

  lemma {:induction false} InsertsAppend(c: Setup, s: State, k: nat)
    requires k < |s.syncs| && UniqueIds(s.rows + s.syncs[k].pending)
    ensures InsertAll(c, s, k).rows == s.rows + s.syncs[k].pending
    decreases |s.syncs[k].pending|
  {
    var pending := s.syncs[k].pending;
    if pending != [] {
      assert forall i :: 0 <= i < |s.rows| ==> (s.rows + pending)[i] == s.rows[i];
      assert (s.rows + pending)[|s.rows|] == pending[0];
      assert !HasId(s.rows, pending[0].id);
      assert s.rows + pending == s.rows + [pending[0]] + pending[1..];
      InsertsAppend(c, Apply(c, s, InsertRow(k)), k);
    }
  }

  lemma {:induction false} SelectedSuffices(rows: Rows, scope: Scope, url: string)
    requires CommentsBelong(rows, scope)
    ensures Existing(Selected(rows, scope), scope, url) == Existing(rows, scope, url)
  {
    if rows != [] {
      var front, last := Selected(rows[..|rows| - 1], scope), rows[|rows| - 1];
      SelectedSuffices(rows[..|rows| - 1], scope, url);
      if InScope(last, scope) { assert (front + [last])[..|front|] == front; }
    }
  }

  lemma JoinedUnique(a: Rows, b: Rows)
    requires UniqueIds(a) && UniqueIds(b)
    requires forall i, k :: 0 <= i < |a| && 0 <= k < |b| ==> a[i].id != b[k].id
    ensures UniqueIds(a + b)
  {
  }

  /** Ids at hand that no row has, each a different one. */
  ghost predicate NewTo(rows: Rows, ids: seq<Id>) {
    && (forall k, i :: 0 <= k < |ids| && 0 <= i < |rows| ==> rows[i].id != ids[k])
    && forall i, k :: 0 <= i < k < |ids| ==> ids[i] != ids[k]
  }

  /** A synced row has the id of the row with its url, or the new id. */
  lemma SyncedId(rows: Rows, scope: Scope, url: string, newId: Id, author: string, now: int)
    ensures var id := SyncedRow(ParsedOf(url), Existing(rows, scope, url), scope, newId, author, now).id;
      id == newId || exists i :: 0 <= i < |rows| && rows[i].id == id && InScope(rows[i], scope) && rows[i].externalUrl == url
  {
    var found := Existing(rows, scope, url);
    if found.Some? { var i :| 0 <= i < |rows| && rows[i] == found.value; }
  }

  lemma SyncedIdsDiffer(rows: Rows, scope: Scope, urls: seq<string>, newIds: seq<Id>, author: string, now: int)
    requires UniqueIds(rows) && Unrepeated(urls) && |urls| == |newIds| && NewTo(rows, newIds)
    ensures UniqueIds(SyncedRows(rows, scope, urls, newIds, author, now))
  {
    var added := SyncedRows(rows, scope, urls, newIds, author, now);
    forall i, k | 0 <= i < k < |added| ensures added[i].id != added[k].id {
      SyncedId(rows, scope, urls[i], newIds[i], author, now);
      SyncedId(rows, scope, urls[k], newIds[k], author, now);
      assert urls[i] != urls[k];
    }
  }

  lemma KeptIdsDiffer(rows: Rows, scope: Scope, kept: Attachment, url: string, newId: Id, author: string, now: int)
    requires UniqueIds(rows) && kept in rows && !InScope(kept, scope) && NewTo(rows, [newId])
    ensures kept.id != SyncedRow(ParsedOf(url), Existing(rows, scope, url), scope, newId, author, now).id
  {
    SyncedId(rows, scope, url, newId, author, now);
    assert [newId][0] == newId;
    var j :| 0 <= j < |rows| && rows[j] == kept;
  }

  lemma SyncedIdsUnique(rows: Rows, scope: Scope, urls: seq<string>, newIds: seq<Id>, author: string, now: int)
    requires UniqueIds(rows) && Unrepeated(urls) && |urls| == |newIds| && NewTo(rows, newIds)
    ensures UniqueIds(Outside(rows, scope) + SyncedRows(rows, scope, urls, newIds, author, now))
  {
    var out, added := Outside(rows, scope), SyncedRows(rows, scope, urls, newIds, author, now);
    OutsideKeepsUnique(rows, scope);
    OutsideFrom(rows, scope);
    OutsideIsOutside(rows, scope);
    SyncedIdsDiffer(rows, scope, urls, newIds, author, now);
    forall i, k | 0 <= i < |out| && 0 <= k < |added| ensures out[i].id != added[k].id {
      KeptIdsDiffer(rows, scope, out[i], urls[k], newIds[k], author, now);
    }
    JoinedUnique(out, added);
  }

  /** Left alone, the steps of a sync amount to the sync as a whole. */
  lemma SyncInOneGo(c: Setup, s: State, scope: Scope, urls: seq<string>, newIds: seq<Id>, author: string, now: int)
    requires Fits(c, s) && UniqueIds(s.rows) && Unrepeated(urls)
    requires Enabled(c, s, LoadSync(scope, urls, newIds, author, now))
    ensures var k := |s.syncs|;
      var loaded := Apply(c, s, LoadSync(scope, urls, newIds, author, now));
      InsertAll(c, Apply(c, loaded, DeleteRows(k)), k).rows == Sync(s.rows, scope, urls, newIds, author, now)
  {
    var loaded := Apply(c, s, LoadSync(scope, urls, newIds, author, now));
    assert CommentsBelong(s.rows, scope);
    forall k | 0 <= k < |urls| ensures loaded.syncs[|s.syncs|].pending[k] == SyncedRows(s.rows, scope, urls, newIds, author, now)[k] {
      SelectedSuffices(s.rows, scope, urls[k]);
    }
    assert loaded.syncs[|s.syncs|].pending == SyncedRows(s.rows, scope, urls, newIds, author, now);
    SyncedIdsUnique(s.rows, scope, urls, newIds, author, now);
    InsertsAppend(c, Apply(c, loaded, DeleteRows(|s.syncs|)), |s.syncs|);
  }
}
