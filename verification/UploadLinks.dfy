/**
 * Moving temporary uploads into attachments: each upload's download link in the text is
 * replaced by the attachment's, one upload after the other in no particular order.
 */
module UploadLinks {
  import opened Wrappers
  import opened Text
  import opened AttachmentSync

  const MARKER := "/api/v1/uploads/"
  const DOWNLOAD := "/download"

  /** The link of an upload. */
  function UploadPath(id: Id): string {
    MARKER + id + DOWNLOAD
  }

  // ---------------------------------------------------------------- replacing

  /** Every occurrence, from the left, skipping what was replaced. */
  function Replace(s: string, old': string, new': string): string
    requires old' != ""
    decreases |s|
  {
    if s == "" then ""
    else if StartsWith(s, old') then new' + Replace(s[|old'|..], old', new')
    else [s[0]] + Replace(s[1..], old', new')
  }

  datatype Move = Move(upload: Id, attachment: Id)

  /** The uploads one by one, in the order of the list. */
  function Rewrite(s: string, moves: seq<Move>): string {
    if moves == [] then s
    else
      var last := moves[|moves| - 1];
      Replace(Rewrite(s, moves[..|moves| - 1]), UploadPath(last.upload), ProxyPath(last.attachment))
  }

  /** All the uploads at once, in a single pass. */
  function RewriteAtOnce(s: string, to: map<Id, Id>): string
    decreases |s|
  {
    if s == "" then ""
    else if Heads(s, to) then ProxyPath(to[HeadId(s)]) + RewriteAtOnce(s[61..], to)
    else [s[0]] + RewriteAtOnce(s[1..], to)
  }

  function HeadId(s: string): Id
    requires |s| >= 61
  {
    s[16..52]
  }

  /** The text begins with the link of an upload to be moved. */
  predicate Heads(s: string, to: map<Id, Id>) {
    |s| >= 61 && HeadId(s) in to && s[..61] == UploadPath(HeadId(s))
  }

  ghost predicate Uuids(to: map<Id, Id>) {
    forall id :: id in to ==> IsUuid(id) && IsUuid(to[id])
  }

  // ---------------------------------------------------------------- links do not overlap

  predicate Gram(s: string, k: int) {
    0 <= k && k + 2 < |s| && s[k] == '/' && s[k + 1] == 'a' && s[k + 2] == 'p'
  }

  /** Nothing that starts inside `s`, except at its first character, can start with `/ap`. */
  ghost predicate Closed(s: string) {
    && |s| >= 2 && s[|s| - 1] != '/' && s[|s| - 2] != '/'
    && forall k :: 0 < k < |s| ==> !Gram(s, k)
  }

  lemma UploadPathShape(id: Id)
    requires IsUuid(id)
    ensures |UploadPath(id)| == 61 && Gram(UploadPath(id), 0) && UploadPath(id)[8] == 'u'
    ensures UploadPath(id)[16..52] == id && Closed(UploadPath(id))
  {
    var p := UploadPath(id);
    assert forall k :: 0 <= k < 16 ==> p[k] == MARKER[k];
    assert forall k :: 16 <= k < 52 ==> p[k] == id[k - 16];
    assert forall k :: 52 <= k < 61 ==> p[k] == DOWNLOAD[k - 52];
  }

  lemma ProxyPathShape(id: Id)
    requires IsUuid(id)
    ensures |ProxyPath(id)| == 65 && ProxyPath(id)[8] == 'a' && Closed(ProxyPath(id))
  {
    var p := ProxyPath(id);
    assert forall k :: 0 <= k < 20 ==> p[k] == "/api/v1/attachments/"[k];
    assert forall k :: 20 <= k < 56 ==> p[k] == id[k - 20];
    assert forall k :: 56 <= k < 65 ==> p[k] == DOWNLOAD[k - 56];
  }

  lemma LinkAt(s: string, k: nat, id: Id)
    requires IsUuid(id)
    ensures StandsAt(s, k, UploadPath(id)) ==> k + 61 <= |s| && Gram(s, k) && s[k + 8] == 'u'
  {
    UploadPathShape(id);
    var p := UploadPath(id);
    if StandsAt(s, k, p) {
      assert s[k..k + 61][0] == p[0] && s[k..k + 61][1] == p[1] && s[k..k + 61][2] == p[2] && s[k..k + 61][8] == p[8];
    }
  }

  lemma NoLinkInside(s: string, t: string, k: nat, id: Id)
    requires Closed(s) && IsUuid(id) && 0 < k < |s|
    ensures !StandsAt(s + t, k, UploadPath(id))
  {
    LinkAt(s + t, k, id);
    assert (s + t)[k] == s[k];
    assert Gram(s + t, k) && k + 2 < |s| ==> Gram(s, k);
  }

  lemma NoLinkInProxyPath(a: Id, t: string, k: nat, id: Id)
    requires IsUuid(a) && IsUuid(id) && k < 65
    ensures !StandsAt(ProxyPath(a) + t, k, UploadPath(id))
  {
    ProxyPathShape(a);
    if k > 0 {
      NoLinkInside(ProxyPath(a), t, k, id);
    } else {
      LinkAt(ProxyPath(a) + t, 0, id);
      assert (ProxyPath(a) + t)[8] == ProxyPath(a)[8];
    }
  }

  lemma HeadsIsStart(s: string, to: map<Id, Id>, id: Id)
    requires Uuids(to) && id in to
    ensures StartsWith(s, UploadPath(id)) <==> Heads(s, to) && HeadId(s) == id
  {
    UploadPathShape(id);
    if StartsWith(s, UploadPath(id)) {
      assert s[..61][16..52] == s[16..52];
    }
  }

  // ---------------------------------------------------------------- one more upload

  /** Text without a link to be moved stays in front. */
  lemma {:induction false} KeptInFront(s: string, n: nat, to: map<Id, Id>)
    requires n <= |s| && forall k :: 0 <= k < n ==> !Heads(s[k..], to)
    ensures RewriteAtOnce(s, to) == s[..n] + RewriteAtOnce(s[n..], to)
  {
    if n > 0 {
      assert s[0..] == s;
      forall k | 0 <= k < n - 1 ensures !Heads(s[1..][k..], to) {
        assert s[1..][k..] == s[k + 1..];
      }
      KeptInFront(s[1..], n - 1, to);
      assert s[1..][n - 1..] == s[n..];
      assert s[..n] == [s[0]] + s[1..][..n - 1];
    }
  }

  lemma {:induction false} PassedOver(x: string, t: string, n: nat, id: Id, new': string)
    requires n <= |x| && forall k :: n <= k < |x| ==> !StandsAt(x + t, k, UploadPath(id))
    ensures Replace((x + t)[n..], UploadPath(id), new') == x[n..] + Replace(t, UploadPath(id), new')
    decreases |x| - n
  {
    var y := (x + t)[n..];
    if n == |x| {
      assert y == t;
    } else {
      assert StandsAt(x + t, n, UploadPath(id)) <==> StartsWith(y, UploadPath(id)) by {
        if n + |UploadPath(id)| <= |x + t| { assert (x + t)[n..n + |UploadPath(id)|] == y[..|UploadPath(id)|]; }
      }
      PassedOver(x, t, n + 1, id, new');
      assert y[1..] == (x + t)[n + 1..];
      assert x[n..] == [x[n]] + x[n + 1..];
    }
  }

  lemma HeadsAt(s: string, k: nat, to: map<Id, Id>)
    requires Uuids(to) && k <= |s| && Heads(s[k..], to)
    ensures StandsAt(s, k, UploadPath(HeadId(s[k..]))) && Gram(s, k)
  {
    assert s[k..][..61] == s[k..k + 61];
    UploadPathShape(HeadId(s[k..]));
    LinkAt(s, k, HeadId(s[k..]));
  }

  /** The first place a link to be moved starts, up to `n`. */
  function FirstHead(s: string, to: map<Id, Id>, k: nat, n: nat): (r: nat)
    requires k <= n <= |s|
    ensures k <= r <= n && (r < n ==> Heads(s[r..], to)) && forall i :: k <= i < r ==> !Heads(s[i..], to)
    decreases n - k
  {
    if k == n || Heads(s[k..], to) then k else FirstHead(s, to, k + 1, n)
  }

  lemma StartIsClosed(r: string, id: Id, k: nat)
    requires IsUuid(id) && StartsWith(r, UploadPath(id)) && 0 < k < 61
    ensures !Gram(r, k)
  {
    UploadPathShape(id);
    var p := UploadPath(id);
    assert forall i :: 0 <= i < 61 ==> r[..61][i] == p[i];
    if k < 59 { assert !Gram(p, k); }
  }

  lemma InsertedGram(x: string, a: Id, t: string)
    requires IsUuid(a)
    ensures Gram(x + (ProxyPath(a) + t), |x|)
  {
    var r, p := x + (ProxyPath(a) + t), ProxyPath(a);
    ProxyPathShape(a);
    assert forall i :: 0 <= i < 3 ==> r[|x| + i] == p[i] == "/api/v1/attachments/"[i];
  }

  /** Rewriting makes no new link at the front. */
  lemma NoNewLink(s: string, to: map<Id, Id>, id: Id)
    requires Uuids(to) && IsUuid(id) && !Heads(s, to) && StartsWith(RewriteAtOnce(s, to), UploadPath(id))
    ensures StartsWith(s, UploadPath(id))
  {
    var n := if |s| < 61 then |s| else 61;
    assert s[0..] == s;
    var k := FirstHead(s, to, 0, n);
    KeptInFront(s, k, to);
    UploadPathShape(id);
    if k < n {
      InsertedGram(s[..k], to[HeadId(s[k..])], RewriteAtOnce(s[k..][61..], to));
      StartIsClosed(RewriteAtOnce(s, to), id, k);
    } else {
      KeptStart(s, n, RewriteAtOnce(s[n..], to), UploadPath(id));
    }
  }

  lemma KeptStart(s: string, n: nat, t: string, p: string)
    requires n <= |s| && StartsWith(s[..n] + t, p) && (|p| <= n || (n == |s| && t == ""))
    ensures StartsWith(s, p)
  {
    if n == |s| && t == "" {
      assert s[..n] + t == s;
    } else {
      assert (s[..n] + t)[..|p|] == s[..|p|];
    }
  }

  /** Replacing one more upload after a rewrite is the same as rewriting it with the rest. */
  lemma {:induction false} OneMore(s: string, to: map<Id, Id>, id: Id, a: Id)
    requires Uuids(to) && IsUuid(id) && IsUuid(a) && id !in to
    ensures Replace(RewriteAtOnce(s, to), UploadPath(id), ProxyPath(a)) == RewriteAtOnce(s, to[id := a])
    decreases |s|
  {
    var to' := to[id := a];
    UploadPathShape(id);
    if s == "" {
    } else if Heads(s, to) {
      var x, t := ProxyPath(to[HeadId(s)]), RewriteAtOnce(s[61..], to);
      ProxyPathShape(to[HeadId(s)]);
      forall k | 0 <= k < |x| ensures !StandsAt(x + t, k, UploadPath(id)) {
        NoLinkInProxyPath(to[HeadId(s)], t, k, id);
      }
      PassedOver(x, t, 0, id, ProxyPath(a));
      assert (x + t)[0..] == x + t && x[0..] == x;
      OneMore(s[61..], to, id, a);
    } else if StartsWith(s, UploadPath(id)) {
      HeadsIsStart(s, to', id);
      LinkKept(s, to, id);
      var t := RewriteAtOnce(s[61..], to);
      assert (UploadPath(id) + t)[..61] == UploadPath(id) && (UploadPath(id) + t)[61..] == t;
      OneMore(s[61..], to, id, a);
    } else {
      OtherStart(s, to, id, a);
      OneMore(s[1..], to, id, a);
    }
  }

  /** The link of an upload that is not moved stays. */
  lemma LinkKept(s: string, to: map<Id, Id>, id: Id)
    requires Uuids(to) && IsUuid(id) && StartsWith(s, UploadPath(id)) && !Heads(s, to)
    ensures |s| >= 61 && RewriteAtOnce(s, to) == UploadPath(id) + RewriteAtOnce(s[61..], to)
  {
    UploadPathShape(id);
    assert s[0..] == s;
    forall k | 0 <= k < 61 ensures !Heads(s[k..], to) {
      if k > 0 {
        StartIsClosed(s, id, k);
        if Heads(s[k..], to) { HeadsAt(s, k, to); }
      }
    }
    KeptInFront(s, 61, to);
  }

  lemma OtherStart(s: string, to: map<Id, Id>, id: Id, a: Id)
    requires s != "" && Uuids(to) && IsUuid(id) && IsUuid(a) && id !in to && !Heads(s, to) && !StartsWith(s, UploadPath(id))
    ensures !Heads(s, to[id := a]) && !StartsWith(RewriteAtOnce(s, to), UploadPath(id))
  {
    HeadsIsStart(s, to[id := a], id);
    if StartsWith(RewriteAtOnce(s, to), UploadPath(id)) { NoNewLink(s, to, id); }
  }

  // ---------------------------------------------------------------- any order, nothing left

  /** Different uploads, each with an id of its own, in canonical form. */
  ghost predicate Moves(moves: seq<Move>) {
    && (forall i :: 0 <= i < |moves| ==> IsUuid(moves[i].upload) && IsUuid(moves[i].attachment))
    && forall i, k :: 0 <= i < k < |moves| ==> moves[i].upload != moves[k].upload
  }

  function Targets(moves: seq<Move>): map<Id, Id> {
    if moves == [] then map[] else Targets(moves[..|moves| - 1])[moves[|moves| - 1].upload := moves[|moves| - 1].attachment]
  }

  lemma {:induction false} TargetsOf(moves: seq<Move>)
    requires Moves(moves)
    ensures forall i :: 0 <= i < |moves| ==> moves[i].upload in Targets(moves) && Targets(moves)[moves[i].upload] == moves[i].attachment
  {
    if moves != [] { TargetsOf(moves[..|moves| - 1]); }
  }

  ghost predicate Moved(moves: seq<Move>, id: Id) {
    exists i :: 0 <= i < |moves| && moves[i].upload == id
  }

  lemma {:induction false} TargetsAreMoved(moves: seq<Move>)
    requires Moves(moves)
    ensures Uuids(Targets(moves)) && forall id :: id in Targets(moves) ==> Moved(moves, id)
  {
    if moves != [] {
      var front := moves[..|moves| - 1];
      TargetsAreMoved(front);
      forall id | Moved(front, id) ensures Moved(moves, id) {
        var i :| 0 <= i < |front| && front[i].upload == id;
        assert moves[i].upload == id;
      }
      assert Moved(moves, moves[|moves| - 1].upload);
    }
  }

  lemma {:induction false} NothingToMove(s: string)
    ensures RewriteAtOnce(s, map[]) == s
  {
    if s != "" { NothingToMove(s[1..]); }
  }

  /** The successive replacements are one simultaneous rewrite. */
  lemma {:induction false} RewriteIsAtOnce(s: string, moves: seq<Move>)
    requires Moves(moves)
    ensures Rewrite(s, moves) == RewriteAtOnce(s, Targets(moves))
  {
    if moves == [] {
      NothingToMove(s);
    } else {
      var front, last := moves[..|moves| - 1], moves[|moves| - 1];
      RewriteIsAtOnce(s, front);
      TargetsAreMoved(front);
      assert !Moved(front, last.upload);
      OneMore(s, Targets(front), last.upload, last.attachment);
    }
  }

  lemma MembersByCount<T>(xs: seq<T>, ys: seq<T>, i: nat) returns (k: nat)
    requires multiset(xs) == multiset(ys) && i < |xs|
    ensures k < |ys| && ys[k] == xs[i]
  {
    assert xs[i] in multiset(xs);
    assert xs[i] in ys;
    k :| 0 <= k < |ys| && ys[k] == xs[i];
  }

  lemma SubTargets(moves: seq<Move>, moves': seq<Move>, id: Id)
    requires Moves(moves) && Moves(moves') && multiset(moves) == multiset(moves') && id in Targets(moves)
    ensures id in Targets(moves') && Targets(moves')[id] == Targets(moves)[id]
  {
    TargetsAreMoved(moves);
    assert Moved(moves, id);
    var i :| 0 <= i < |moves| && moves[i].upload == id;
    var k := MembersByCount(moves, moves', i);
    TargetsOf(moves);
    TargetsOf(moves');
  }

  /** The order in which the uploads are fetched does not matter to the text. */
  lemma RewriteIsConfluent(s: string, moves: seq<Move>, moves': seq<Move>)
    requires Moves(moves) && Moves(moves') && multiset(moves) == multiset(moves')
    ensures Rewrite(s, moves) == Rewrite(s, moves')
  {
    RewriteIsAtOnce(s, moves);
    RewriteIsAtOnce(s, moves');
    forall id | id in Targets(moves) ensures id in Targets(moves') && Targets(moves')[id] == Targets(moves)[id] {
      SubTargets(moves, moves', id);
    }
    forall id | id in Targets(moves') ensures id in Targets(moves) {
      SubTargets(moves', moves, id);
    }
    assert Targets(moves) == Targets(moves');
  }

  lemma StandsAtStart(s: string, p: string)
    ensures StandsAt(s, 0, p) <==> StartsWith(s, p)
  {
    if |p| <= |s| { assert s[0..0 + |p|] == s[..|p|]; }
  }

  lemma {:induction false} NoneLeftAt(s: string, to: map<Id, Id>, id: Id, i: nat)
    requires Uuids(to) && id in to && i <= |RewriteAtOnce(s, to)|
    ensures !StandsAt(RewriteAtOnce(s, to), i, UploadPath(id))
    decreases |s|
  {
    var r, p := RewriteAtOnce(s, to), UploadPath(id);
    UploadPathShape(id);
    if s == "" {
    } else if Heads(s, to) {
      var x, t := ProxyPath(to[HeadId(s)]), RewriteAtOnce(s[61..], to);
      ProxyPathShape(to[HeadId(s)]);
      if i < 65 {
        NoLinkInProxyPath(to[HeadId(s)], t, i, id);
      } else {
        NoneLeftAt(s[61..], to, id, i - 65);
        if i + 61 <= |r| { assert r[i..i + 61] == t[i - 65..i - 65 + 61]; }
      }
    } else if i == 0 {
      HeadsIsStart(s, to, id);
      if StartsWith(r, p) { NoNewLink(s, to, id); }
      StandsAtStart(r, p);
    } else {
      NoneLeftAt(s[1..], to, id, i - 1);
      var t := RewriteAtOnce(s[1..], to);
      if i + 61 <= |r| { assert r[i..i + 61] == t[i - 1..i - 1 + 61]; }
    }
  }

  /** No link of a moved upload is left anywhere in the text. */
  lemma NoMovedLinkLeft(s: string, moves: seq<Move>, i: nat)
    requires Moves(moves) && i < |moves|
    ensures !Contains(Rewrite(s, moves), UploadPath(moves[i].upload))
  {
    RewriteIsAtOnce(s, moves);
    TargetsOf(moves);
    TargetsAreMoved(moves);
    var r, p := Rewrite(s, moves), UploadPath(moves[i].upload);
    forall k | 0 <= k <= |r| ensures !StandsAt(r, k, p) {
      NoneLeftAt(s, Targets(moves), moves[i].upload, k);
    }
  }

  // ---------------------------------------------------------------- what a rewriting is

  lemma {:induction false} LinkRewritten(x: string, id: Id, t: string, to: map<Id, Id>)
    requires Uuids(to) && id in to
    ensures RewriteAtOnce(x + (UploadPath(id) + t), to) == RewriteAtOnce(x, to) + (ProxyPath(to[id]) + RewriteAtOnce(t, to))
    decreases |x|
  {
    var y, p := x + (UploadPath(id) + t), UploadPath(id);
    UploadPathShape(id);
    if x == "" {
      assert y == p + t && y[..61] == p && y[61..] == t;
      HeadsIsStart(y, to, id);
      assert "" + (ProxyPath(to[id]) + RewriteAtOnce(t, to)) == ProxyPath(to[id]) + RewriteAtOnce(t, to);
    } else if Heads(y, to) {
      HeadEndsBefore(x, id, t, to);
      assert y[..61] == x[..61] && y[61..] == x[61..] + (p + t);
      assert y[16..52] == y[..61][16..52] == x[..61][16..52] == x[16..52];
      LinkRewritten(x[61..], id, t, to);
      Regroup(ProxyPath(to[HeadId(x)]), RewriteAtOnce(x[61..], to), ProxyPath(to[id]) + RewriteAtOnce(t, to));
    } else {
      assert y[1..] == x[1..] + (p + t);
      if Heads(x, to) { HeadStays(x, p + t, to); }
      LinkRewritten(x[1..], id, t, to);
      Regroup([x[0]], RewriteAtOnce(x[1..], to), ProxyPath(to[id]) + RewriteAtOnce(t, to));
    }
  }

  lemma HeadStays(x: string, r: string, to: map<Id, Id>)
    requires Heads(x, to)
    ensures Heads(x + r, to)
  {
    assert (x + r)[..61] == x[..61] && (x + r)[16..52] == x[16..52];
  }

  /** A link at the front of a text ends before the next link begins. */
  lemma HeadEndsBefore(x: string, id: Id, t: string, to: map<Id, Id>)
    requires Uuids(to) && IsUuid(id) && x != "" && Heads(x + (UploadPath(id) + t), to)
    ensures |x| >= 61
  {
    var y := x + (UploadPath(id) + t);
    UploadPathShape(id);
    if |x| < 61 { StartIsClosed(y, HeadId(y), |x|); }
  }

  /**
   * Every link of a moved upload becomes the path of its attachment, and what stands before
   * and behind it is rewritten on its own.
   */
  lemma LinkBecomesAttachment(x: string, t: string, moves: seq<Move>, i: nat)
    requires Moves(moves) && i < |moves|
    ensures Rewrite(x + ("/api/v1/uploads/" + moves[i].upload + "/download") + t, moves)
      == Rewrite(x, moves) + ("/api/v1/attachments/" + moves[i].attachment + "/download") + Rewrite(t, moves)
  {
    var p, q := UploadPath(moves[i].upload), ProxyPath(moves[i].attachment);
    TargetsOf(moves);
    TargetsAreMoved(moves);
    LinkRewritten(x, moves[i].upload, t, Targets(moves));
    RewriteIsAtOnce(x + p + t, moves);
    RewriteIsAtOnce(x, moves);
    RewriteIsAtOnce(t, moves);
    Regroup(x, p, t);
    Regroup(Rewrite(x, moves), q, Rewrite(t, moves));
  }

  /** A text without such links stays as it is. */
  lemma OtherTextStays(s: string, moves: seq<Move>)
    requires Moves(moves) && forall i :: 0 <= i < |moves| ==> !Contains(s, "/api/v1/uploads/" + moves[i].upload + "/download")
    ensures Rewrite(s, moves) == s
  {
    var to := Targets(moves);
    RewriteIsAtOnce(s, moves);
    TargetsAreMoved(moves);
    forall k | 0 <= k < |s| ensures !Heads(s[k..], to) {
      if Heads(s[k..], to) {
        HeadsAt(s, k, to);
      }
    }
    KeptInFront(s, |s|, to);
  }

  // ---------------------------------------------------------------- the move as it writes

  datatype Upload = Upload(id: Id, filename: string, contentType: string, byteSize: int)

  /** The text or comment an upload is moved to; the comment is filled in once it has an id. */
  datatype Target = Target(issue: Id, folder: string, author: string, now: int)

  function LocalRow(u: Upload, id: Id, target: Target): Attachment {
    Attachment(id, target.issue, None, u.filename, u.contentType, u.byteSize, ProxyPath(id), ProxyPath(id), Local,
               Some(target.folder + id + "_" + u.filename), "local_authoritative", Some(target.now), None,
               StartsWith(u.contentType, "image/"), target.author, target.now)
  }

  function MovesOf(uploads: seq<Upload>, ids: seq<Id>): (moves: seq<Move>)
    requires |uploads| <= |ids|
    ensures |moves| == |uploads| && forall k :: 0 <= k < |moves| ==> moves[k] == Move(uploads[k].id, ids[k])
  {
    seq(|uploads|, k requires 0 <= k < |uploads| => Move(uploads[k].id, ids[k]))
  }

  /** `ids` are the new attachment ids, drawn one per upload. */
  method PersistLocalAttachments(body: string, uploads: seq<Upload>, ids: seq<Id>, target: Target)
    returns (rewritten: string, rows: seq<Attachment>)
    requires |uploads| <= |ids| && Moves(MovesOf(uploads, ids))
    ensures rewritten == RewriteAtOnce(body, Targets(MovesOf(uploads, ids)))
    ensures |rows| == |uploads| && forall k :: 0 <= k < |uploads| ==>
      var path := "/api/v1/attachments/" + ids[k] + "/download";
      rows[k] == Attachment(ids[k], target.issue, None, uploads[k].filename, uploads[k].contentType, uploads[k].byteSize,
        path, path, Local, Some(target.folder + ids[k] + "_" + uploads[k].filename), "local_authoritative", Some(target.now), None,
        StartsWith(uploads[k].contentType, "image/"), target.author, target.now)
    ensures forall k :: 0 <= k < |uploads| ==> !Contains(rewritten, UploadPath(uploads[k].id))
  {
    ghost var moves := MovesOf(uploads, ids);
    rewritten, rows := body, [];
    for k := 0 to |uploads|
      invariant rewritten == Rewrite(body, moves[..k])
      invariant |rows| == k && forall j :: 0 <= j < k ==> rows[j] == LocalRow(uploads[j], ids[j], target)
    {
      var u := uploads[k];
      var proxyPath := ProxyPath(ids[k]);
      rewritten := Replace(rewritten, UploadPath(u.id), proxyPath);
      rows := rows + [Attachment(ids[k], target.issue, None, u.filename, u.contentType, u.byteSize, proxyPath, proxyPath, Local,
        Some(target.folder + ids[k] + "_" + u.filename), "local_authoritative", Some(target.now), None,
        StartsWith(u.contentType, "image/"), target.author, target.now)];
      assert moves[..k + 1][..k] == moves[..k];
    }
    assert moves[..|uploads|] == moves;
    RewriteIsAtOnce(body, moves);
    forall k | 0 <= k < |uploads| ensures !Contains(rewritten, UploadPath(uploads[k].id)) {
      NoMovedLinkLeft(body, moves, k);
    }
  }

  /** The attachment an upload became outlives every sync with GitLab, and is as the upload was. */
  lemma MovedUploadsOutliveSyncs(u: Upload, id: Id, target: Target, rows: seq<Attachment>, scope: Scope, urls: seq<string>,
                                 newIds: seq<Id>, author: string, now: int)
    requires LocalRow(u, id, target) in rows && |urls| <= |newIds|
    ensures var row := LocalRow(u, id, target);
      && row in Sync(rows, scope, urls, newIds, author, now)
      && row.backend == Local && row.proxyPath == "/api/v1/attachments/" + id + "/download"
      && row.filename == u.filename && row.contentType == u.contentType && row.byteSize == u.byteSize
      && row.storagePath == Some(target.folder + id + "_" + u.filename)
  {
    WhatASyncTouches(rows, scope, urls, newIds, author, now, LocalRow(u, id, target));
  }

  // ---------------------------------------------------------------- the links of a text

  datatype Split = Split(front: string, tail: string)

  /** The text before and behind the first place of a word. */
  function Cut(s: string, word: string): (split: Option<Split>)
    ensures split.Some? ==> |split.value.front| + |word| + |split.value.tail| == |s|
  {
    var at := Find(s, word, 0);
    if at.None? then None else Some(Split(s[..at.value], s[at.value + |word|..]))
  }

  datatype Link = Link(raw: string, tail: string)

  /** What stands between the first marker and the next closing word, and what follows. */
  function NextLink(rest: string, marker: string, close: string): (link: Option<Link>)
    requires marker != ""
    ensures link.Some? ==> |link.value.tail| < |rest|
  {
    var start := Cut(rest, marker);
    if start.None? then None
    else
      var closed := Cut(start.value.tail, close);
      if closed.None? then None else Some(Link(closed.value.front, closed.value.tail))
  }

  /** How a text is read as an id: the parser knows other spellings than the canonical one. */
  type Parser = string -> Option<Id>

  /** It yields canonical ids, reads those as themselves, and reads nothing with a slash in it. */
  ghost predicate ReadsIds(parse: Parser) {
    && (forall id: string :: IsUuid(id) ==> parse(id) == Some(id))
    && (forall raw: string :: parse(raw).Some? ==> IsUuid(parse(raw).value) && '/' !in raw)
  }

  function Parsed(raw: string, parse: Parser): seq<Id> {
    if parse(raw).Some? then [parse(raw).value] else []
  }

  /** The ids among them; the search ends where no link follows. */
  function Found(rest: string, marker: string, close: string, parse: Parser): seq<Id>
    requires marker != ""
    decreases |rest|
  {
    var link := NextLink(rest, marker, close);
    if link.None? then [] else Parsed(link.value.raw, parse) + Found(link.value.tail, marker, close, parse)
  }

  /** The ids of the upload links in a text. */
  function UploadIds(body: string, parse: Parser): seq<Id> {
    Found(body, MARKER, DOWNLOAD, parse)
  }

  /** The order of ids, the same whether compared as numbers or character by character. */
  predicate Before(a: Id, b: Id) {
    if b == "" then false
    else if a == "" then true
    else a[0] < b[0] || (a[0] == b[0] && Before(a[1..], b[1..]))
  }

  /** Into its place, unless it is there. */
  function Insert(ids: seq<Id>, id: Id): seq<Id> {
    if ids == [] then [id]
    else if ids[0] == id then ids
    else if Before(id, ids[0]) then [id] + ids
    else [ids[0]] + Insert(ids[1..], id)
  }

  function SortDedup(ids: seq<Id>): seq<Id> {
    if ids == [] then [] else Insert(SortDedup(ids[..|ids| - 1]), ids[|ids| - 1])
  }

  method IdsBetween(body: string, marker: string, close: string, parse: Parser) returns (ids: seq<Id>)
    requires marker != ""
    ensures ids == Found(body, marker, close, parse)
  {
    ids := [];
    var rest := body;
    while true
      invariant ids + Found(rest, marker, close, parse) == Found(body, marker, close, parse)
      decreases |rest|
    {
      var link := NextLink(rest, marker, close);
      if link.None? {
        assert ids + [] == ids;
        break;
      }
      Regroup(ids, Parsed(link.value.raw, parse), Found(link.value.tail, marker, close, parse));
      ids := ids + Parsed(link.value.raw, parse);
      rest := link.value.tail;
    }
  }

  method ExtractLocalUploadIds(body: string, parse: Parser) returns (result: seq<Id>)
    ensures result == SortDedup(UploadIds(body, parse))
  {
    var ids := IdsBetween(body, MARKER, DOWNLOAD, parse);
    result := SortDedup(ids);
  }

  lemma CutJoins(s: string, word: string)
    requires Cut(s, word).Some?
    ensures var c := Cut(s, word).value; s == c.front + (word + c.tail)
  {
    FindsFirst(s, word, 0);
  }

  lemma NextLinkStands(rest: string, marker: string, close: string)
    requires marker != "" && NextLink(rest, marker, close).Some?
    ensures var link := NextLink(rest, marker, close).value;
      exists front: string :: rest == front + ((marker + link.raw + close) + link.tail)
  {
    var start := Cut(rest, marker).value;
    var closed := Cut(start.tail, close).value;
    CutJoins(rest, marker);
    CutJoins(start.tail, close);
    Regroup(closed.front, close, closed.tail);
    Regroup(marker, closed.front + close, closed.tail);
    Regroup(marker, closed.front, close);
  }

  /** `raw` stands between a marker and its closing word where the search looks. */
  ghost predicate RawIn(rest: string, marker: string, close: string, raw: string)
    requires marker != ""
    decreases |rest|
  {
    var link := NextLink(rest, marker, close);
    link.Some? && (link.value.raw == raw || RawIn(link.value.tail, marker, close, raw))
  }

  lemma {:induction false} RawIsContained(rest: string, marker: string, close: string, raw: string)
    requires marker != "" && RawIn(rest, marker, close, raw)
    ensures Contains(rest, marker + raw + close)
    decreases |rest|
  {
    var link := NextLink(rest, marker, close).value;
    if link.raw != raw { RawIsContained(link.tail, marker, close, raw); }
    ContainedBehindLink(rest, marker, close, raw);
  }

  /** The ids found are exactly those some text between a marker and its closing word is read as. */
  lemma {:induction false} FoundIfRead(rest: string, marker: string, close: string, parse: Parser, id: Id)
    requires marker != ""
    ensures id in Found(rest, marker, close, parse) <==> exists raw: string :: RawIn(rest, marker, close, raw) && parse(raw) == Some(id)
    decreases |rest|
  {
    var link := NextLink(rest, marker, close);
    if link.Some? {
      var raw, tail := link.value.raw, link.value.tail;
      FoundIfRead(tail, marker, close, parse, id);
      assert RawIn(rest, marker, close, raw);
      if r: string :| RawIn(tail, marker, close, r) && parse(r) == Some(id) { assert RawIn(rest, marker, close, r); }
    }
  }

  /** Every id found is well formed, and a link that is read as it stands in the text. */
  lemma FoundIsContained(body: string, parse: Parser, id: Id) returns (raw: string)
    requires ReadsIds(parse) && id in UploadIds(body, parse)
    ensures IsUuid(id) && parse(raw) == Some(id) && Contains(body, MARKER + raw + DOWNLOAD)
  {
    FoundIfRead(body, MARKER, DOWNLOAD, parse, id);
    raw :| RawIn(body, MARKER, DOWNLOAD, raw) && parse(raw) == Some(id);
    RawIsContained(body, MARKER, DOWNLOAD, raw);
  }

  /** What a text contains that is the next link, or lies behind it, the whole text contains. */
  lemma ContainedBehindLink(rest: string, marker: string, close: string, id: Id)
    requires marker != "" && NextLink(rest, marker, close).Some?
    requires var link := NextLink(rest, marker, close).value; id == link.raw || Contains(link.tail, marker + id + close)
    ensures Contains(rest, marker + id + close)
  {
    NextLinkStands(rest, marker, close);
    var link := NextLink(rest, marker, close).value;
    var path := marker + link.raw + close;
    var front :| rest == front + (path + link.tail);
    if id == link.raw {
      StartContained(path, link.tail);
    } else {
      ContainsJoins(path, link.tail, marker + id + close);
    }
    ContainsJoins(front, path + link.tail, marker + id + close);
  }

  lemma StartContained(word: string, tail: string)
    ensures Contains(word + tail, word)
  {
    assert (word + tail)[0..0 + |word|] == word;
    assert StandsAt(word + tail, 0, word);
  }

  lemma {:induction false} NotBeforeItself(a: Id)
    ensures !Before(a, a)
  {
    if a != "" { NotBeforeItself(a[1..]); }
  }

  lemma {:induction false} BeforeIsStrict(a: Id, b: Id, c: Id)
    ensures a == b || Before(a, b) || Before(b, a)
    ensures Before(a, b) && Before(b, c) ==> Before(a, c)
  {
    if a != "" && b != "" {
      BeforeIsStrict(a[1..], b[1..], if c == "" then "" else c[1..]);
      assert a == [a[0]] + a[1..] && b == [b[0]] + b[1..];
    }
  }

  /** The order is that of the characters from the left, a text before its continuations. */
  lemma {:induction false} BeforeIsLexical(a: Id, b: Id)
    ensures Before(a, b) <==>
      exists n :: 0 <= n <= |a| && n < |b| && a[..n] == b[..n] && (n < |a| ==> a[n] < b[n])
  {
    if a != "" && b != "" && a[0] == b[0] {
      BeforeIsLexical(a[1..], b[1..]);
      if n :| 0 <= n <= |a[1..]| && n < |b[1..]| && a[1..][..n] == b[1..][..n] && (n < |a[1..]| ==> a[1..][n] < b[1..][n]) {
        assert a[..n + 1] == [a[0]] + a[1..][..n] && b[..n + 1] == [b[0]] + b[1..][..n];
      }
      if n :| 0 <= n <= |a| && n < |b| && a[..n] == b[..n] && (n < |a| ==> a[n] < b[n]) {
        assert n > 0;
        assert a[1..][..n - 1] == a[..n][1..] && b[1..][..n - 1] == b[..n][1..];
      }
    } else if b != "" {
      assert a[..0] == b[..0];
    }
  }

  ghost predicate Increasing(ids: seq<Id>) {
    forall i, k :: 0 <= i < k < |ids| ==> Before(ids[i], ids[k])
  }

  lemma {:induction false} InsertMembers(ids: seq<Id>, id: Id)
    ensures forall x :: x in Insert(ids, id) <==> x in ids || x == id
  {
    if ids != [] {
      InsertMembers(ids[1..], id);
      assert ids == [ids[0]] + ids[1..];
    }
  }

  lemma AllBefore(a: Id, ids: seq<Id>)
    requires Increasing(ids) && (ids != [] ==> Before(a, ids[0]))
    ensures Increasing([a] + ids)
  {
    forall k | 0 <= k < |ids| ensures Before(a, ids[k]) {
      BeforeIsStrict(a, ids[0], ids[k]);
    }
  }

  lemma {:induction false} InsertInPlace(ids: seq<Id>, id: Id)
    requires Increasing(ids)
    ensures Increasing(Insert(ids, id))
    ensures Insert(ids, id) != [] && (Insert(ids, id)[0] == id || (ids != [] && Insert(ids, id)[0] == ids[0]))
  {
    if ids != [] && ids[0] != id {
      BeforeIsStrict(id, ids[0], ids[0]);
      if Before(id, ids[0]) {
        AllBefore(id, ids);
      } else {
        InsertInPlace(ids[1..], id);
        AllBefore(ids[0], Insert(ids[1..], id));
      }
    }
  }

  /** Extraction lists each id of the text once, in increasing order. */
  lemma {:induction false} SortedOnce(ids: seq<Id>)
    ensures Increasing(SortDedup(ids)) && forall x :: x in SortDedup(ids) <==> x in ids
    ensures forall i, k :: 0 <= i < k < |SortDedup(ids)| ==> SortDedup(ids)[i] != SortDedup(ids)[k]
  {
    var sorted := SortDedup(ids);
    forall i, k | 0 <= i < k < |sorted| ensures Before(sorted[i], sorted[k]) ==> sorted[i] != sorted[k] {
      NotBeforeItself(sorted[i]);
    }
    if ids != [] {
      SortedOnce(ids[..|ids| - 1]);
      InsertInPlace(SortDedup(ids[..|ids| - 1]), ids[|ids| - 1]);
      InsertMembers(SortDedup(ids[..|ids| - 1]), ids[|ids| - 1]);
      assert ids == ids[..|ids| - 1] + [ids[|ids| - 1]];
    }
  }

  // ---------------------------------------------------------------- which links are found

  /** No marker starts in `x` when an upload link follows it. */
  ghost predicate Plain(x: string) {
    forall k :: 0 <= k < |x| ==> !StandsAt(x + MARKER, k, MARKER)
  }

  lemma FindSkips(s: string, word: string, i: nat, n: nat)
    requires i <= n <= |s| && StandsAt(s, n, word) && forall k :: i <= k < n ==> !StandsAt(s, k, word)
    ensures Find(s, word, i) == Some(n)
    decreases n - i
  {
    if i < n { FindSkips(s, word, i + 1, n); }
  }

  lemma FirstAfter(x: string, word: string, t: string)
    requires forall k :: 0 <= k < |x| ==> !StandsAt(x + word, k, word)
    ensures Find(x + (word + t), word, 0) == Some(|x|)
  {
    var s := x + (word + t);
    CutOut(x, word, t);
    forall k | 0 <= k < |x| ensures !StandsAt(s, k, word) {
      assert !StandsAt(x + word, k, word);
      assert s[k..k + |word|] == (x + word)[k..k + |word|];
    }
    FindSkips(s, word, 0, |x|);
  }

  lemma CutOut(x: string, word: string, t: string)
    ensures StandsAt(x + (word + t), |x|, word) && (x + (word + t))[|x| + |word|..] == t && (x + (word + t))[..|x|] == x
  {
  }

  lemma FirstCharacters(s: string, k: nat, word: string)
    requires |word| >= 3
    ensures StandsAt(s, k, word) ==> k + 2 < |s| && s[k] == word[0] && s[k + 1] == word[1] && s[k + 2] == word[2]
  {
    if StandsAt(s, k, word) { assert s[k..k + |word|][0] == word[0] && s[k..k + |word|][1] == word[1] && s[k..k + |word|][2] == word[2]; }
  }

  lemma DownloadAfterId(id: Id, t: string)
    requires IsUuid(id)
    ensures Find(id + (DOWNLOAD + t), DOWNLOAD, 0) == Some(36)
  {
    forall k | 0 <= k < 36 ensures !StandsAt(id + DOWNLOAD, k, DOWNLOAD) {
      FirstCharacters(id + DOWNLOAD, k, DOWNLOAD);
    }
    FirstAfter(id, DOWNLOAD, t);
  }

  lemma CutsFirst(x: string, word: string, t: string)
    requires Find(x + (word + t), word, 0) == Some(|x|)
    ensures Cut(x + (word + t), word) == Some(Split(x, t))
  {
    CutOut(x, word, t);
  }

  lemma NextAfterPlain(x: string, id: Id, t: string)
    requires Plain(x) && IsUuid(id)
    ensures NextLink(x + (MARKER + (id + (DOWNLOAD + t))), MARKER, DOWNLOAD) == Some(Link(id, t))
  {
    FirstAfter(x, MARKER, id + (DOWNLOAD + t));
    CutsFirst(x, MARKER, id + (DOWNLOAD + t));
    DownloadAfterId(id, t);
    CutsFirst(id, DOWNLOAD, t);
  }

  // ---------------------------------------------------------------- what stands in front of a link

  /** What is left of a text once all its closed markers are taken. */
  function Rest(x: string): string
    decreases |x|
  {
    var link := NextLink(x, MARKER, DOWNLOAD);
    if link.None? then x else Rest(link.value.tail)
  }

  lemma CharacterAt(s: string, k: nat, word: string, j: nat)
    requires StandsAt(s, k, word) && j < |word|
    ensures k + j < |s| && s[k + j] == word[j]
  {
    assert s[k..k + |word|][j] == word[j];
  }

  lemma CharacterIfStands(s: string, k: nat, word: string, j: nat)
    requires j < |word|
    ensures StandsAt(s, k, word) ==> k + j < |s| && s[k + j] == word[j]
  {
    if StandsAt(s, k, word) { CharacterAt(s, k, word, j); }
  }

  lemma StandsInSlice(s: string, i: nat, n: nat, k: nat, word: string)
    requires i <= n <= |s| && i <= k && k + |word| <= n
    ensures StandsAt(s, k, word) <==> StandsAt(s[i..n], k - i, word)
  {
    var part, whole := s[i..n][k - i..k - i + |word|], s[k..k + |word|];
    assert forall m :: 0 <= m < |word| ==> part[m] == s[k + m] == whole[m];
    assert part == whole;
  }

  lemma FoundIfStands(s: string, k: nat, word: string)
    requires k <= |s| && StandsAt(s, k, word)
    ensures Find(s, word, 0).Some? && Find(s, word, 0).value <= k
  {
    FindsFirst(s, word, 0);
  }

  lemma FindInPrefix(x: string, y: string, word: string)
    requires Find(x, word, 0).Some?
    ensures Find(x + y, word, 0) == Find(x, word, 0)
  {
    var n := Find(x, word, 0).value;
    FindsFirst(x, word, 0);
    assert (x + y)[0..|x|] == x;
    forall k | 0 <= k <= n ensures StandsAt(x + y, k, word) <==> StandsAt(x, k, word) {
      StandsInSlice(x + y, 0, |x|, k, word);
    }
    FindSkips(x + y, word, 0, n);
  }

  lemma CutInPrefix(x: string, y: string, n: nat)
    requires n <= |x|
    ensures (x + y)[..n] == x[..n] && (x + y)[n..] == x[n..] + y
  {
  }

  lemma CutExtends(x: string, y: string, word: string)
    requires Cut(x, word).Some?
    ensures var c := Cut(x, word).value; Cut(x + y, word) == Some(Split(c.front, c.tail + y))
  {
    FindInPrefix(x, y, word);
    CutInPrefix(x, y, Find(x, word, 0).value);
    CutInPrefix(x, y, Find(x, word, 0).value + |word|);
  }

  /** A link that ends in `x` is the next link whatever follows `x`. */
  lemma NextLinkExtends(x: string, y: string, marker: string, close: string)
    requires marker != "" && NextLink(x, marker, close).Some?
    ensures var link := NextLink(x, marker, close).value;
      NextLink(x + y, marker, close) == Some(Link(link.raw, link.tail + y))
  {
    CutExtends(x, y, marker);
    CutExtends(Cut(x, marker).value.tail, y, close);
  }

  lemma FirstIsOwn(x: string, word: string)
    ensures Find(x + word, word, 0).Some? && Find(x + word, word, 0).value <= |x|
    ensures (forall k :: 0 <= k < |x| ==> !StandsAt(x + word, k, word)) <==> Find(x + word, word, 0).value == |x|
  {
    assert (x + word)[|x|..|x| + |word|] == word;
    FoundIfStands(x + word, |x|, word);
    FindsFirst(x + word, word, 0);
  }

  /** Behind a marker left open, no closing word ends before the marker of the link does. */
  lemma NoCloseBefore(x: string, k: nat, q: nat)
    requires NextLink(x, MARKER, DOWNLOAD).None? && k < |x| && StandsAt(x + MARKER, k, MARKER) && k + 16 <= q
    ensures !StandsAt(x + MARKER, q, DOWNLOAD)
  {
    var s := x + MARKER;
    assert s[..|x|] == x && s[0..|x|] == x;
    if q + 9 <= |x| {
      StandsInSlice(s, 0, |x|, k, MARKER);
      StandsInSlice(s, 0, |x|, q, DOWNLOAD);
      if StandsAt(x, q, DOWNLOAD) { NextLinkIfBoth(x, k, q, MARKER, DOWNLOAD); }
    } else {
      NotAcrossMarker(x, q);
    }
  }

  lemma CutIfStands(s: string, k: nat, word: string)
    requires k <= |s| && StandsAt(s, k, word)
    ensures Cut(s, word).Some? && |Cut(s, word).value.front| <= k
    ensures var n := |Cut(s, word).value.front| + |word|; n <= |s| && Cut(s, word).value.tail == s[n..]
  {
    FoundIfStands(s, k, word);
  }

  lemma NextLinkIfBoth(x: string, k: nat, q: nat, marker: string, close: string)
    requires marker != "" && k + |marker| <= q <= |x| && StandsAt(x, k, marker) && StandsAt(x, q, close)
    ensures NextLink(x, marker, close).Some?
  {
    CutIfStands(x, k, marker);
    var n := |Cut(x, marker).value.front| + |marker|;
    StandsInSlice(x, n, |x|, q, close);
    assert x[n..|x|] == x[n..];
    CutIfStands(x[n..], q - n, close);
  }

  lemma NotAcrossMarker(x: string, q: nat)
    requires q + 9 > |x|
    ensures !StandsAt(x + MARKER, q, DOWNLOAD)
  {
    var s := x + MARKER;
    if q < |x| {
      assert s[|x|] == MARKER[0];
      if StandsAt(s, q, DOWNLOAD) { CharacterAt(s, q, DOWNLOAD, |x| - q); }
    } else {
      FirstCharacters(s, q, DOWNLOAD);
      assert forall m :: 0 <= m < 16 ==> s[|x| + m] == MARKER[m];
    }
  }

  /** The closing word behind an id is the link's own when none ends before the id. */
  lemma OwnCloseIsFirst(w: string, id: Id, t: string)
    requires IsUuid(id) && w != "" && w[|w| - 1] == '/'
    requires forall k :: 0 <= k && k + 9 <= |w| ==> !StandsAt(w, k, DOWNLOAD)
    ensures Find((w + id) + (DOWNLOAD + t), DOWNLOAD, 0) == Some(|w| + 36)
  {
    var s := (w + id) + DOWNLOAD;
    assert s[0..|w|] == w;
    forall k | 0 <= k < |w| + 36 ensures !StandsAt(s, k, DOWNLOAD) {
      if k + 9 <= |w| {
        StandsInSlice(s, 0, |w|, k, DOWNLOAD);
      } else {
        NotAcrossId(w, id, k);
      }
    }
    FirstAfter(w + id, DOWNLOAD, t);
  }

  lemma NotAcrossId(w: string, id: Id, k: nat)
    requires IsUuid(id) && w != "" && w[|w| - 1] == '/' && |w| < k + 9 && k < |w| + 36
    ensures !StandsAt((w + id) + DOWNLOAD, k, DOWNLOAD)
  {
    var s := (w + id) + DOWNLOAD;
    assert forall i :: 0 <= i < |w| ==> s[i] == w[i];
    assert forall i :: 0 <= i < 36 ==> s[|w| + i] == id[i];
    if k + 1 < |w| {
      if StandsAt(s, k, DOWNLOAD) { CharacterAt(s, k, DOWNLOAD, |w| - 1 - k); }
    } else {
      FirstCharacters(s, k, DOWNLOAD);
    }
  }

  lemma NoCloseBehindOpenMarker(x: string, k: nat)
    requires NextLink(x, MARKER, DOWNLOAD).None? && k < |x| && StandsAt(x + MARKER, k, MARKER)
    ensures var w := (x + MARKER)[k + 16..];
      w != "" && w[|w| - 1] == '/' && forall j :: 0 <= j && j + 9 <= |w| ==> !StandsAt(w, j, DOWNLOAD)
  {
    var s := x + MARKER;
    var w := s[k + 16..];
    assert w[|w| - 1] == s[|s| - 1] == MARKER[15];
    assert s[k + 16..|s|] == w;
    forall j | 0 <= j && j + 9 <= |w| ensures !StandsAt(w, j, DOWNLOAD) {
      StandsInSlice(s, k + 16, |s|, k + 16 + j, DOWNLOAD);
      NoCloseBefore(x, k, k + 16 + j);
    }
  }

  /** A marker left open in front of a link takes the link's own end, and with it too long an id. */
  lemma OpenMarkerHides(x: string, id: Id, t: string)
    requires IsUuid(id) && NextLink(x, MARKER, DOWNLOAD).None? && !Plain(x)
    ensures var link := NextLink(x + (MARKER + (id + (DOWNLOAD + t))), MARKER, DOWNLOAD);
      link.Some? && '/' in link.value.raw && link.value.tail == t
  {
    FirstIsOwn(x, MARKER);
    var s, r := x + MARKER, id + (DOWNLOAD + t);
    var k := Find(s, MARKER, 0).value;
    var w := s[k + 16..];
    FindsFirst(s, MARKER, 0);
    NoCloseBehindOpenMarker(x, k);
    assert Cut(s, MARKER) == Some(Split(s[..k], w));
    CutExtends(s, r, MARKER);
    Regroup(x, MARKER, r);
    Regroup(w, id, DOWNLOAD + t);
    OwnCloseIsFirst(w, id, t);
    CutsFirst(w + id, DOWNLOAD, t);
    assert (w + id)[|w| - 1] == '/';
  }

  lemma UploadIdsStep(body: string, parse: Parser)
    ensures var link := NextLink(body, MARKER, DOWNLOAD);
      UploadIds(body, parse) == if link.None? then [] else Parsed(link.value.raw, parse) + UploadIds(link.value.tail, parse)
  {
  }

  /**
   * Whatever stands before and behind it, a link is found if and only if no marker is left
   * open in front of it; what is found before and behind it does not depend on it.
   */
  lemma {:induction false} LinkFoundIffPlain(x: string, id: Id, t: string, parse: Parser)
    requires IsUuid(id) && ReadsIds(parse)
    ensures UploadIds(x + (MARKER + (id + (DOWNLOAD + t))), parse)
      == UploadIds(x, parse) + ((if Plain(Rest(x)) then [id] else []) + UploadIds(t, parse))
    decreases |x|
  {
    var y, link := MARKER + (id + (DOWNLOAD + t)), NextLink(x, MARKER, DOWNLOAD);
    var mine := (if Plain(Rest(x)) then [id] else []) + UploadIds(t, parse);
    UploadIdsStep(x, parse);
    UploadIdsStep(x + y, parse);
    if link.Some? {
      NextLinkExtends(x, y, MARKER, DOWNLOAD);
      LinkFoundIffPlain(link.value.tail, id, t, parse);
      Regroup(Parsed(link.value.raw, parse), UploadIds(link.value.tail, parse), mine);
    } else {
      if Plain(x) { NextAfterPlain(x, id, t); } else { OpenMarkerHides(x, id, t); }
      assert [] + mine == mine;
    }
  }

  /** The same in terms of the whole link. */
  lemma LinkFoundExactly(x: string, id: Id, t: string, parse: Parser)
    requires IsUuid(id) && ReadsIds(parse)
    ensures UploadIds(x + UploadPath(id) + t, parse) == UploadIds(x, parse) + (if Plain(Rest(x)) then [id] else []) + UploadIds(t, parse)
  {
    LinkFoundIffPlain(x, id, t, parse);
    LinkGroups(x, id, t);
    Regroup(UploadIds(x, parse), if Plain(Rest(x)) then [id] else [], UploadIds(t, parse));
  }

  lemma LinkGroups(x: string, id: Id, t: string)
    ensures x + UploadPath(id) + t == x + (MARKER + (id + (DOWNLOAD + t)))
  {
    Regroup(x, UploadPath(id), t);
    Regroup(MARKER + id, DOWNLOAD, t);
    Regroup(MARKER, id, DOWNLOAD + t);
  }

  // ---------------------------------------------------------------- texts with many links

  datatype Piece = Piece(text: string, upload: Id)

  function Woven(pieces: seq<Piece>, tail: string): string {
    if pieces == [] then tail
    else pieces[0].text + (MARKER + (pieces[0].upload + (DOWNLOAD + Woven(pieces[1..], tail))))
  }

  function Uploads(pieces: seq<Piece>): (ids: seq<Id>)
    ensures |ids| == |pieces|
  {
    if pieces == [] then [] else [pieces[0].upload] + Uploads(pieces[1..])
  }

  ghost predicate NothingBetween(pieces: seq<Piece>, tail: string, parse: Parser) {
    UploadIds(tail, parse) == [] && forall i :: 0 <= i < |pieces| ==> IsUuid(pieces[i].upload) && UploadIds(pieces[i].text, parse) == []
  }

  /** No text in front of a link leaves a marker open. */
  ghost predicate NoneOpen(pieces: seq<Piece>) {
    forall i :: 0 <= i < |pieces| ==> Plain(Rest(pieces[i].text))
  }

  lemma NoneOpenCons(pieces: seq<Piece>)
    requires pieces != []
    ensures NoneOpen(pieces) <==> Plain(Rest(pieces[0].text)) && NoneOpen(pieces[1..])
  {
    assert pieces == [pieces[0]] + pieces[1..];
  }

  lemma HeadDecides(found: bool, id: Id, a: seq<Id>, b: seq<Id>)
    requires |a| <= |b|
    ensures var mine := if found then [id] else [];
      |mine + a| <= 1 + |b| && (mine + a == [id] + b <==> found && a == b)
  {
    assert ([id] + a)[1..] == a && ([id] + b)[1..] == b && [] + a == a;
  }

  lemma {:induction false} FoundOrHidden(pieces: seq<Piece>, tail: string, parse: Parser)
    requires ReadsIds(parse) && NothingBetween(pieces, tail, parse)
    ensures |UploadIds(Woven(pieces, tail), parse)| <= |pieces|
    ensures UploadIds(Woven(pieces, tail), parse) == Uploads(pieces) <==> NoneOpen(pieces)
  {
    if pieces != [] {
      var first, behind := pieces[0], Woven(pieces[1..], tail);
      FoundOrHidden(pieces[1..], tail, parse);
      LinkFoundIffPlain(first.text, first.upload, behind, parse);
      NoneOpenCons(pieces);
      var mine := if Plain(Rest(first.text)) then [first.upload] else [];
      assert [] + (mine + UploadIds(behind, parse)) == mine + UploadIds(behind, parse);
      HeadDecides(Plain(Rest(first.text)), first.upload, UploadIds(behind, parse), Uploads(pieces[1..]));
    }
  }

  /**
   * Extraction finds all the links woven into a text, in order, if and only if no text in
   * front of a link leaves a marker open.
   */
  lemma AllLinksFoundIff(pieces: seq<Piece>, tail: string, parse: Parser)
    requires ReadsIds(parse) && NothingBetween(pieces, tail, parse)
    ensures UploadIds(Woven(pieces, tail), parse) == Uploads(pieces) <==> NoneOpen(pieces)
  {
    FoundOrHidden(pieces, tail, parse);
  }

  lemma PlainHasNoLink(x: string, parse: Parser)
    requires Plain(x)
    ensures UploadIds(x, parse) == [] && Rest(x) == x
  {
    FirstIsOwn(x, MARKER);
    if Cut(x, MARKER).Some? { FindInPrefix(x, MARKER, MARKER); }
  }

  /** Where the text between the links holds no marker, extraction finds every link, in order. */
  lemma PlainLinksAreFound(pieces: seq<Piece>, tail: string, parse: Parser)
    requires forall i :: 0 <= i < |pieces| ==> Plain(pieces[i].text) && IsUuid(pieces[i].upload)
    requires ReadsIds(parse) && Find(tail, MARKER, 0).None?
    ensures UploadIds(Woven(pieces, tail), parse) == Uploads(pieces)
  {
    forall i | 0 <= i < |pieces| ensures UploadIds(pieces[i].text, parse) == [] && Rest(pieces[i].text) == pieces[i].text {
      PlainHasNoLink(pieces[i].text, parse);
    }
    AllLinksFoundIff(pieces, tail, parse);
  }

  /** A marker without an id hides the good link behind it. */
  lemma BrokenLinkHidesTheNext(id: Id, parse: Parser)
    requires IsUuid(id) && ReadsIds(parse)
    ensures Contains(MARKER + UploadPath(id), UploadPath(id)) && UploadIds(MARKER + UploadPath(id), parse) == []
  {
    var p := UploadPath(id);
    StartContained(p, "");
    assert p + "" == p;
    ContainsJoins(MARKER, p, p);
    LinkFoundExactly(MARKER, id, "", parse);
    assert MARKER + p + "" == MARKER + p;
    OpenMarkerAlone(parse);
  }

  lemma OpenMarkerAlone(parse: Parser)
    ensures UploadIds("", parse) == UploadIds(MARKER, parse) == [] && Rest(MARKER) == MARKER && !Plain(MARKER)
  {
    FoundIfStands(MARKER, 0, MARKER);
    assert MARKER[16..] == "";
    assert StandsAt(MARKER + MARKER, 0, MARKER);
  }

  // ---------------------------------------------------------------- extraction after rewriting

  /** The first marker stands at `k`, and at `q` the first closing word behind it. */
  ghost predicate NextAt(s: string, k: nat, q: nat) {
    && k + 16 <= q && StandsAt(s, k, MARKER) && StandsAt(s, q, DOWNLOAD)
    && (forall i :: 0 <= i < k ==> !StandsAt(s, i, MARKER))
    && forall i :: k + 16 <= i < q ==> !StandsAt(s, i, DOWNLOAD)
  }

  lemma StandsInSuffix(s: string, n: nat, k: nat, word: string)
    requires n <= k && n <= |s|
    ensures StandsAt(s, k, word) <==> StandsAt(s[n..], k - n, word)
  {
    assert s[n..|s|] == s[n..];
    if k + |word| <= |s| { StandsInSlice(s, n, |s|, k, word); }
  }

  lemma CutAt(s: string, word: string, n: nat)
    requires n <= |s| && StandsAt(s, n, word) && forall i :: 0 <= i < n ==> !StandsAt(s, i, word)
    ensures n + |word| <= |s| && Cut(s, word) == Some(Split(s[..n], s[n + |word|..]))
  {
    FindSkips(s, word, 0, n);
  }

  lemma FirstInSuffix(s: string, n: nat, q: nat, word: string)
    requires n <= q <= |s| && StandsAt(s, q, word) && forall i :: n <= i < q ==> !StandsAt(s, i, word)
    ensures q + |word| <= |s| && Cut(s[n..], word) == Some(Split(s[n..q], s[q + |word|..]))
  {
    forall i | 0 <= i <= q - n ensures StandsAt(s[n..], i, word) <==> StandsAt(s, n + i, word) {
      StandsInSuffix(s, n, n + i, word);
    }
    CutAt(s[n..], word, q - n);
    SliceOfSuffix(s, n, 0, q - n);
    SliceOfSuffix(s, n, q - n + |word|, |s| - n);
  }

  lemma NextLinkOf(s: string, front: string, t: string, raw: string, tail: string)
    requires Cut(s, MARKER) == Some(Split(front, t)) && Cut(t, DOWNLOAD) == Some(Split(raw, tail))
    ensures NextLink(s, MARKER, DOWNLOAD) == Some(Link(raw, tail))
  {
  }

  lemma NextLinkAt(s: string, k: nat, q: nat)
    requires NextAt(s, k, q)
    ensures NextLink(s, MARKER, DOWNLOAD) == Some(Link(s[k + 16..q], s[q + 9..]))
  {
    CutAt(s, MARKER, k);
    FirstInSuffix(s, k + 16, q, DOWNLOAD);
    NextLinkOf(s, s[..k], s[k + 16..], s[k + 16..q], s[q + 9..]);
  }

  lemma FoundInSuffix(s: string, n: nat, word: string) returns (q: nat)
    requires n <= |s| && Cut(s[n..], word).Some?
    ensures n <= q <= |s| && StandsAt(s, q, word) && forall i :: n <= i < q ==> !StandsAt(s, i, word)
  {
    q := n + Find(s[n..], word, 0).value;
    FindsFirst(s[n..], word, 0);
    forall i | n <= i <= q ensures StandsAt(s, i, word) <==> StandsAt(s[n..], i - n, word) {
      StandsInSuffix(s, n, i, word);
    }
  }

  lemma NextLinkPlace(s: string) returns (k: nat, q: nat)
    requires NextLink(s, MARKER, DOWNLOAD).Some?
    ensures NextAt(s, k, q) && NextLink(s, MARKER, DOWNLOAD) == Some(Link(s[k + 16..q], s[q + 9..]))
  {
    assert s[0..] == s;
    k := FoundInSuffix(s, 0, MARKER);
    CutAt(s, MARKER, k);
    q := FoundInSuffix(s, k + 16, DOWNLOAD);
    NextLinkAt(s, k, q);
  }

  lemma SamePrefixStands(s: string, y: string, n: nat, k: nat, word: string)
    requires n <= |s| && n <= |y| && s[..n] == y[..n] && k + |word| <= n
    ensures StandsAt(s, k, word) <==> StandsAt(y, k, word)
  {
    assert s[k..k + |word|] == s[..n][k..k + |word|] == y[k..k + |word|];
  }

  /** The next link is the same in every text that begins alike up to its end. */
  lemma NextAtPrefix(s: string, y: string, k: nat, q: nat)
    requires NextAt(s, k, q) && q + 9 <= |y| && s[..q + 9] == y[..q + 9]
    ensures NextAt(y, k, q)
  {
    forall i | 0 <= i <= k ensures StandsAt(s, i, MARKER) <==> StandsAt(y, i, MARKER) {
      SamePrefixStands(s, y, q + 9, i, MARKER);
    }
    forall i | k + 16 <= i <= q ensures StandsAt(s, i, DOWNLOAD) <==> StandsAt(y, i, DOWNLOAD) {
      SamePrefixStands(s, y, q + 9, i, DOWNLOAD);
    }
  }

  lemma CutBehind(x: string, r: string, word: string)
    requires forall i :: 0 <= i < |x| ==> !StandsAt(x + r, i, word)
    ensures Cut(x + r, word).Some? <==> Cut(r, word).Some?
    ensures Cut(r, word).Some? ==> Cut(x + r, word).value.tail == Cut(r, word).value.tail
  {
    var s := x + r;
    assert s[|x|..] == r && s[0..] == s;
    if Cut(r, word).Some? {
      var n := FoundInSuffix(s, |x|, word);
      FirstInSuffix(s, |x|, n, word);
      CutAt(s, word, n);
    } else if Cut(s, word).Some? {
      var n := FoundInSuffix(s, 0, word);
      FirstInSuffix(s, |x|, n, word);
    }
  }

  /** Text no marker starts in does not change which link is next. */
  lemma NextLinkBehind(x: string, r: string)
    requires forall i :: 0 <= i < |x| ==> !StandsAt(x + r, i, MARKER)
    ensures NextLink(x + r, MARKER, DOWNLOAD) == NextLink(r, MARKER, DOWNLOAD)
  {
    CutBehind(x, r, MARKER);
  }

  /** Such a path begins with a slash, and `/download` starts in it only where it ends the path. */
  ghost predicate OneClose(path: string) {
    && |path| > 11 && path[0] == '/'
    && forall j :: 0 <= j < |path| - 9 ==> !(path[j] == '/' && path[j + 1] == 'd' && path[j + 2] == 'o')
  }

  lemma PathsHaveOneClose(id: Id)
    requires IsUuid(id)
    ensures OneClose(UploadPath(id)) && OneClose(ProxyPath(id))
  {
    var p, r := UploadPath(id), ProxyPath(id);
    assert forall k :: 0 <= k < 16 ==> p[k] == MARKER[k];
    assert forall k :: 16 <= k < 52 ==> p[k] == id[k - 16];
    assert forall k :: 0 <= k < 20 ==> r[k] == "/api/v1/attachments/"[k];
    assert forall k :: 20 <= k < 56 ==> r[k] == id[k - 20];
    assert p[52] == r[56] == '/';
  }

  lemma NoCloseAcross(s: string, h: nat, path: string, q: nat)
    requires StandsAt(s, h, path) && OneClose(path) && h < q + 9 && q + 9 < h + |path|
    ensures !StandsAt(s, q, DOWNLOAD)
  {
    FirstCharacters(s, q, DOWNLOAD);
    if q < h {
      CharacterAt(s, h, path, 0);
      CharacterIfStands(s, q, DOWNLOAD, h - q);
    } else {
      CharacterAt(s, h, path, q - h);
      CharacterAt(s, h, path, q - h + 1);
      CharacterAt(s, h, path, q - h + 2);
    }
  }

  lemma LinkParts(s: string, h: nat, id: Id)
    requires IsUuid(id) && StandsAt(s, h, UploadPath(id))
    ensures StandsAt(s, h, MARKER) && StandsAt(s, h + 52, DOWNLOAD) && s[h + 16..h + 52] == id
  {
    var p := UploadPath(id);
    assert p[..16] == MARKER && p[52..] == DOWNLOAD && p[16..52] == id;
    assert s[h..h + 61] == p;
    assert s[h..h + 16] == p[..16] && s[h + 52..h + 61] == p[52..] && s[h + 16..h + 52] == p[16..52];
  }

  lemma NoMarkerAcross(s: string, i: nat, h: nat)
    requires Gram(s, h) && i < h < i + 15
    ensures !StandsAt(s, i, MARKER)
  {
    CharacterIfStands(s, i, MARKER, h - i);
    CharacterIfStands(s, i, MARKER, h - i + 1);
  }

  /**
   * A link to be moved that starts before the next link ends is that link, or ends with it
   * behind a marker left open.
   */
  lemma HeadInSegment(s: string, to: map<Id, Id>, k: nat, q: nat, h: nat)
    requires Uuids(to) && NextAt(s, k, q) && h < q + 9 && Heads(s[h..], to)
    ensures h + 52 == q && (h == k || k + 15 <= h)
    ensures StandsAt(s, h, UploadPath(HeadId(s[h..]))) && Gram(s, h) && s[h + 16..q] == HeadId(s[h..])
  {
    var id := HeadId(s[h..]);
    HeadsAt(s, h, to);
    LinkParts(s, h, id);
    PathsHaveOneClose(id);
    if k < h < k + 15 { NoMarkerAcross(s, k, h); }
    if q < h + 52 { NoCloseAcross(s, h, UploadPath(id), q); }
  }

  /** The ids extraction finds in a text but for those whose links are moved. */
  function Unmoved(rest: string, to: map<Id, Id>, parse: Parser): seq<Id>
    decreases |rest|
  {
    var link := NextLink(rest, MARKER, DOWNLOAD);
    if link.None? then []
    else (if link.value.raw in to then [] else Parsed(link.value.raw, parse)) + Unmoved(link.value.tail, to, parse)
  }

  lemma NothingRewritten(s: string, to: map<Id, Id>)
    requires Uuids(to) && NextLink(s, MARKER, DOWNLOAD).None?
    ensures RewriteAtOnce(s, to) == s
  {
    forall h | 0 <= h < |s| ensures !Heads(s[h..], to) {
      if Heads(s[h..], to) {
        HeadsAt(s, h, to);
        LinkParts(s, h, HeadId(s[h..]));
        NextLinkIfBoth(s, h, h + 52, MARKER, DOWNLOAD);
      }
    }
    KeptInFront(s, |s|, to);
  }

  lemma SegmentKept(s: string, to: map<Id, Id>, k: nat, q: nat)
    requires Uuids(to) && NextAt(s, k, q) && forall h :: 0 <= h < q + 9 ==> !Heads(s[h..], to)
    ensures NextLink(RewriteAtOnce(s, to), MARKER, DOWNLOAD) == Some(Link(s[k + 16..q], RewriteAtOnce(s[q + 9..], to)))
  {
    KeptInFront(s, q + 9, to);
    SameNext(s, k, q, RewriteAtOnce(s[q + 9..], to));
  }

  lemma SameNext(s: string, k: nat, q: nat, r: string)
    requires NextAt(s, k, q)
    ensures NextLink(s[..q + 9] + r, MARKER, DOWNLOAD) == Some(Link(s[k + 16..q], r))
  {
    var y := s[..q + 9] + r;
    assert y[..q + 9] == s[..q + 9] && y[q + 9..] == r;
    NextAtPrefix(s, y, k, q);
    NextLinkAt(y, k, q);
    assert y[k + 16..q] == s[k + 16..q];
  }

  /** What a moved link that ends at `q + 9` leaves. */
  lemma HeadRewritten(s: string, to: map<Id, Id>, h: nat)
    requires h <= |s| && Heads(s[h..], to) && forall i :: 0 <= i < h ==> !Heads(s[i..], to)
    ensures RewriteAtOnce(s, to) == s[..h] + (ProxyPath(to[HeadId(s[h..])]) + RewriteAtOnce(s[h + 61..], to))
  {
    KeptInFront(s, h, to);
    assert s[h..][61..] == s[h + 61..];
  }

  lemma NoMarkerInFront(s: string, a: Id, r: string, k: nat, i: nat)
    requires IsUuid(a) && k < |s| && s[k] == '/' && i < k + 65
    requires forall j :: 0 <= j < k ==> !StandsAt(s, j, MARKER)
    ensures !StandsAt(s[..k] + ProxyPath(a) + r, i, MARKER)
  {
    var y := s[..k] + ProxyPath(a) + r;
    ProxyPathShape(a);
    InsertedGram(s[..k], a, r);
    Regroup(s[..k], ProxyPath(a), r);
    assert y[..k + 1] == s[..k + 1];
    if i + 16 <= k + 1 {
      SamePrefixStands(s, y, k + 1, i, MARKER);
    } else if i < k {
      NoMarkerAcross(y, i, k);
    } else {
      NoMarkerInProxyPath(s[..k], a, r, i);
    }
  }

  lemma NoMarkerInProxyPath(x: string, a: Id, r: string, i: nat)
    requires IsUuid(a) && |x| <= i < |x| + 65
    ensures !StandsAt(x + ProxyPath(a) + r, i, MARKER)
  {
    var y, p := x + ProxyPath(a) + r, ProxyPath(a);
    ProxyPathShape(a);
    assert forall j :: 0 <= j < 65 ==> y[|x| + j] == p[j];
    FirstCharacters(y, i, MARKER);
    CharacterIfStands(y, i, MARKER, 8);
    if |x| < i { assert !Gram(p, i - |x|); }
  }

  /** The next link is moved: it is gone, and no marker is formed across its place. */
  lemma LinkVanishes(s: string, to: map<Id, Id>, k: nat, q: nat)
    requires Uuids(to) && NextAt(s, k, q) && s[k + 16..q] in to
    ensures NextLink(RewriteAtOnce(s, to), MARKER, DOWNLOAD) == NextLink(RewriteAtOnce(s[q + 9..], to), MARKER, DOWNLOAD)
  {
    var id := s[k + 16..q];
    assert s[k..][..61] == s[k..k + 61] == s[k..k + 16] + s[k + 16..q] + s[q..q + 9];
    assert s[k..][16..52] == id;
    assert Heads(s[k..], to);
    forall h | 0 <= h < k ensures !Heads(s[h..], to) {
      if Heads(s[h..], to) { HeadInSegment(s, to, k, q, h); }
    }
    HeadRewritten(s, to, k);
    var r := RewriteAtOnce(s[q + 9..], to);
    var x := s[..k] + ProxyPath(to[id]);
    ProxyPathShape(to[id]);
    Regroup(s[..k], ProxyPath(to[id]), r);
    CharacterAt(s, k, MARKER, 0);
    forall i | 0 <= i < |x| ensures !StandsAt(x + r, i, MARKER) {
      NoMarkerInFront(s, to[id], r, k, i);
    }
    NextLinkBehind(x, r);
  }

  lemma ClosedByProxyPath(s: string, a: Id, r: string, k: nat, q: nat, h: nat)
    requires IsUuid(a) && NextAt(s, k, q) && k + 15 <= h && h + 52 == q && s[h] == '/'
    ensures NextAt(s[..h] + (ProxyPath(a) + r), k, h + 56)
  {
    var y, p := s[..h] + (ProxyPath(a) + r), ProxyPath(a);
    ProxyPathShape(a);
    PathsHaveOneClose(a);
    assert y[h..h + 65] == p && p[56..] == DOWNLOAD;
    assert y[h + 56..h + 65] == p[56..];
    assert y[..h + 1] == s[..h + 1];
    forall i | 0 <= i <= k ensures StandsAt(s, i, MARKER) <==> StandsAt(y, i, MARKER) {
      SamePrefixStands(s, y, h + 1, i, MARKER);
    }
    forall i | k + 16 <= i < h + 56 ensures !StandsAt(y, i, DOWNLOAD) {
      if i + 9 <= h + 1 { SamePrefixStands(s, y, h + 1, i, DOWNLOAD); } else { NoCloseAcross(y, h, p, i); }
    }
  }

  lemma SlashBetween(s: string, i: nat, n: nat, j: nat)
    requires i <= n < j <= |s| && s[n] == '/'
    ensures '/' in s[i..j]
  {
    assert s[i..j][n - i] == '/';
  }

  lemma SlashesInPaths(id: Id)
    requires IsUuid(id)
    ensures UploadPath(id)[15] == '/' && ProxyPath(id)[19] == '/'
  {
    assert UploadPath(id)[15] == MARKER[15] && ProxyPath(id)[19] == "/api/v1/attachments/"[19];
  }

  /** A moved link behind an open marker ends with that segment, which has slashes before and after. */
  lemma HiddenLinkMoved(s: string, to: map<Id, Id>, k: nat, q: nat, h: nat)
    requires Uuids(to) && NextAt(s, k, q) && k < h < q + 9 && Heads(s[h..], to) && forall i :: 0 <= i < h ==> !Heads(s[i..], to)
    ensures '/' in s[k + 16..q]
    ensures var link := NextLink(RewriteAtOnce(s, to), MARKER, DOWNLOAD);
      link.Some? && '/' in link.value.raw && link.value.tail == RewriteAtOnce(s[q + 9..], to)
  {
    HeadInSegment(s, to, k, q, h);
    HeadRewritten(s, to, h);
    SlashesInPaths(HeadId(s[h..]));
    CharacterAt(s, h, UploadPath(HeadId(s[h..])), 15);
    SlashBetween(s, k + 16, h + 15, q);
    CharacterAt(s, h, UploadPath(HeadId(s[h..])), 0);
    ProxyPathHidden(s, to[HeadId(s[h..])], RewriteAtOnce(s[q + 9..], to), k, q, h);
  }

  lemma ProxyPathHidden(s: string, a: Id, r: string, k: nat, q: nat, h: nat)
    requires IsUuid(a) && NextAt(s, k, q) && k + 15 <= h && h + 52 == q && s[h] == '/'
    ensures var link := NextLink(s[..h] + (ProxyPath(a) + r), MARKER, DOWNLOAD);
      link.Some? && '/' in link.value.raw && link.value.tail == r
  {
    var y := s[..h] + (ProxyPath(a) + r);
    ProxyPathShape(a);
    SlashesInPaths(a);
    ClosedByProxyPath(s, a, r, k, q, h);
    NextLinkAt(y, k, h + 56);
    assert y[h + 19] == ProxyPath(a)[19];
    SlashBetween(y, k + 16, h + 19, h + 56);
    assert y[h + 65..] == r;
  }

  /**
   * Extraction on the rewritten text finds what it found before, except for the links that
   * were moved. Where a moved link stood behind an open marker nothing is found either way.
   */
  lemma {:induction false} ExtractedAfterRewrite(s: string, to: map<Id, Id>, parse: Parser)
    requires Uuids(to) && ReadsIds(parse)
    ensures UploadIds(RewriteAtOnce(s, to), parse) == Unmoved(s, to, parse)
    decreases |s|
  {
    var y := RewriteAtOnce(s, to);
    UploadIdsStep(y, parse);
    if NextLink(s, MARKER, DOWNLOAD).None? {
      NothingRewritten(s, to);
    } else {
      var k, q := NextLinkPlace(s);
      var raw, r := s[k + 16..q], RewriteAtOnce(s[q + 9..], to);
      ExtractedAfterRewrite(s[q + 9..], to, parse);
      var h := FirstHead(s, to, 0, q + 9);
      if raw in to {
        LinkVanishes(s, to, k, q);
        UploadIdsStep(r, parse);
        assert [] + Unmoved(s[q + 9..], to, parse) == Unmoved(s[q + 9..], to, parse);
      } else if h == q + 9 {
        SegmentKept(s, to, k, q);
      } else {
        HeadInSegment(s, to, k, q, h);
        HiddenLinkMoved(s, to, k, q, h);
      }
    }
  }

  lemma {:induction false} UnmovedIfRead(s: string, to: map<Id, Id>, parse: Parser, id: Id)
    requires Uuids(to) && ReadsIds(parse)
    ensures id in Unmoved(s, to, parse) <==> exists raw: string :: RawIn(s, MARKER, DOWNLOAD, raw) && parse(raw) == Some(id) && raw !in to
    decreases |s|
  {
    var link := NextLink(s, MARKER, DOWNLOAD);
    if link.Some? {
      var raw, tail := link.value.raw, link.value.tail;
      UnmovedIfRead(tail, to, parse, id);
      assert RawIn(s, MARKER, DOWNLOAD, raw);
      if r: string :| RawIn(tail, MARKER, DOWNLOAD, r) && parse(r) == Some(id) && r !in to { assert RawIn(s, MARKER, DOWNLOAD, r); }
    }
  }

  /** The search comes upon a link that is read as the id but spelled otherwise. */
  ghost predicate SpelledOtherwise(body: string, parse: Parser, id: Id) {
    exists raw: string :: RawIn(body, MARKER, DOWNLOAD, raw) && parse(raw) == Some(id) && raw != id
  }

  /**
   * Asked again about the rewritten text, extraction returns a moved upload if and only if
   * the text before the rewriting had a link with another spelling of its id.
   */
  lemma MovedIdExtractedIff(body: string, parse: Parser, moves: seq<Move>, i: nat)
    requires Moves(moves) && ReadsIds(parse) && i < |moves|
    ensures moves[i].upload in SortDedup(UploadIds(Rewrite(body, moves), parse)) <==> SpelledOtherwise(body, parse, moves[i].upload)
  {
    var id, to := moves[i].upload, Targets(moves);
    RewriteIsAtOnce(body, moves);
    TargetsOf(moves);
    TargetsAreMoved(moves);
    SortedOnce(UploadIds(Rewrite(body, moves), parse));
    ExtractedAfterRewrite(body, to, parse);
    UnmovedIfRead(body, to, parse, id);
    assert forall raw: string :: raw in to ==> parse(raw) == Some(raw);
  }

  /** A parser of canonical ids only. */
  function Canonical(): Parser {
    raw => if IsUuid(raw) then Some(raw) else None
  }

  /** With ids in canonical form, as the server issues them, extraction returns no moved upload. */
  lemma NoMovedIdExtracted(body: string, moves: seq<Move>, i: nat)
    requires Moves(moves) && i < |moves|
    ensures ReadsIds(Canonical()) && moves[i].upload !in SortDedup(UploadIds(Rewrite(body, moves), Canonical()))
  {
    MovedIdExtractedIff(body, Canonical(), moves, i);
  }

  // ---------------------------------------------------------------- other spellings

  lemma OtherLinkShape(raw: string)
    ensures var s := MARKER + raw + DOWNLOAD;
      && |s| == 25 + |raw|
      && (forall i :: 0 <= i < 16 ==> s[i] == MARKER[i])
      && (forall i :: 0 <= i < |raw| ==> s[16 + i] == raw[i])
      && (forall i :: 0 <= i < 9 ==> s[16 + |raw| + i] == DOWNLOAD[i])
      && s[16 + |raw|] == '/' && (|raw| > 36 ==> s[52] == raw[36])
  {
  }

  /** Not from the marker's last slash on: the marker has a second slash where `raw` has none. */
  lemma NotFromLastSlash(raw: string, id: Id)
    requires IsUuid(id) && '/' !in raw
    ensures !StandsAt(MARKER + raw + DOWNLOAD, 15, UploadPath(id))
  {
    var s, p := MARKER + raw + DOWNLOAD, UploadPath(id);
    OtherLinkShape(raw);
    assert p[3] == MARKER[3] && p[4] == MARKER[4] && p[5] == MARKER[5];
    LinkAt(s, 15, id);
    CharacterIfStands(s, 15, p, 3);
    CharacterIfStands(s, 15, p, 4);
    CharacterIfStands(s, 15, p, 5);
  }

  lemma SpelledAlike(raw: string, id: Id)
    requires IsUuid(id) && '/' !in raw && StandsAt(MARKER + raw + DOWNLOAD, 0, UploadPath(id))
    ensures raw == id
  {
    var s, p := MARKER + raw + DOWNLOAD, UploadPath(id);
    OtherLinkShape(raw);
    UploadPathShape(id);
    assert s[0..0 + 61] == p;
    assert forall j :: 0 <= j < 36 ==> s[16 + j] == p[16..52][j] == id[j];
    assert s[52] == p[52] == DOWNLOAD[0];
    assert |raw| == 36;
  }

  lemma OtherLinkStands(raw: string, id: Id, k: nat)
    requires IsUuid(id) && '/' !in raw && raw != id
    ensures !StandsAt(MARKER + raw + DOWNLOAD, k, UploadPath(id))
  {
    var s, p := MARKER + raw + DOWNLOAD, UploadPath(id);
    LinkAt(s, k, id);
    OtherLinkShape(raw);
    NotFromLastSlash(raw, id);
    assert Gram(s, k) ==> k == 0 || k == 15;
    if StandsAt(s, 0, p) { SpelledAlike(raw, id); }
  }

  /**
   * A link in another spelling is extracted, but rewriting leaves it: the upload is moved and
   * its old link stays, and is extracted again.
   */
  lemma OtherSpellingStays(raw: string, id: Id, a: Id, parse: Parser)
    requires ReadsIds(parse) && parse(raw) == Some(id) && raw != id && IsUuid(a)
    ensures var body := MARKER + raw + DOWNLOAD;
      Rewrite(body, [Move(id, a)]) == body && UploadIds(body, parse) == [id]
  {
    var body := MARKER + raw + DOWNLOAD;
    forall k | 0 <= k < |body| ensures !StandsAt(body + "", k, UploadPath(id)) {
      assert body + "" == body;
      OtherLinkStands(raw, id, k);
    }
    PassedOver(body, "", 0, id, ProxyPath(a));
    assert (body + "")[0..] == body && body[0..] + "" == body;
    assert [Move(id, a)][..0] == [];
    SlashFree(raw);
    NothingFound(parse);
  }

  /** A parser that reads letters of either case. */
  function AnyCase(): Parser {
    raw => if IsUuid(AsciiLower(raw)) then Some(AsciiLower(raw)) else None
  }

  lemma AnyCaseReadsIds()
    ensures ReadsIds(AnyCase())
  {
    forall id: string | IsUuid(id) ensures AsciiLower(id) == id {}
    forall raw: string | IsUuid(AsciiLower(raw)) ensures '/' !in raw {
      if i :| 0 <= i < |raw| && raw[i] == '/' { assert AsciiLower(raw)[i] == '/'; }
    }
  }

  /** A link whose id has a letter in upper case is read, and outlives the move of its upload. */
  lemma OtherCaseStays(raw: string, a: Id)
    requires IsUuid(AsciiLower(raw)) && raw != AsciiLower(raw) && IsUuid(a)
    ensures var id, body := AsciiLower(raw), MARKER + raw + DOWNLOAD;
      && ReadsIds(AnyCase()) && Moves([Move(id, a)])
      && Rewrite(body, [Move(id, a)]) == body && UploadIds(body, AnyCase()) == [id]
  {
    AnyCaseReadsIds();
    OtherSpellingStays(raw, AsciiLower(raw), a, AnyCase());
  }

  const UPPER_CASE := "ABCDEF01-ABCD-4BCD-8BCD-ABCDEF012345"

  /** Such ids exist. */
  lemma UpperCaseReads()
    ensures IsUuid(AsciiLower(UPPER_CASE)) && UPPER_CASE != AsciiLower(UPPER_CASE)
  {
    assert UPPER_CASE[0] == 'A';
  }

  lemma SlashFree(raw: string)
    requires '/' !in raw
    ensures NextLink(MARKER + raw + DOWNLOAD, MARKER, DOWNLOAD) == Some(Link(raw, ""))
  {
    FirstAfter("", MARKER, raw + DOWNLOAD);
    CutsFirst("", MARKER, raw + DOWNLOAD);
    assert "" + (MARKER + (raw + DOWNLOAD)) == MARKER + raw + DOWNLOAD;
    forall k | 0 <= k < |raw| ensures !StandsAt(raw + DOWNLOAD, k, DOWNLOAD) {
      FirstCharacters(raw + DOWNLOAD, k, DOWNLOAD);
    }
    FirstAfter(raw, DOWNLOAD, "");
    CutsFirst(raw, DOWNLOAD, "");
    assert raw + (DOWNLOAD + "") == raw + DOWNLOAD;
  }

  lemma NothingFound(parse: Parser)
    ensures UploadIds("", parse) == []
  {
    FindsFirst("", MARKER, 0);
  }
}
