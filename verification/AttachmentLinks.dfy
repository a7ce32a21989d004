/** Finding the uploads a GitLab text links to. */
module AttachmentLinks {
  import opened Wrappers
  import opened Text

  const UPLOADS := "/uploads/"

  function Whitespace(): char -> bool {
    c => IsWhitespace(c)
  }

  function Mark(): char -> bool {
    c => c in ")(][><\"',"
  }

  // ---------------------------------------------------------------- markdown targets

  /** The trimmed text between the brackets, unless nothing is left of it. */
  function TargetOf(text: string): seq<string> {
    var target := Trim(text, Whitespace());
    if target != "" then [target] else []
  }

  /** Left to right: after `](`, the text up to the next `)`; a `](` without `)` is skipped. */
  function Targets(body: string): seq<string>
    decreases |body|
  {
    if |body| < 2 then []
    else if body[0] == ']' && body[1] == '(' && Find(body, ")", 2).Some? then
      var end := Find(body, ")", 2).value;
      TargetOf(body[2..end]) + Targets(body[end + 1..])
    else
      Targets(body[1..])
  }

  lemma {:induction false} FindInSuffix(body: string, index: nat, i: nat, word: string)
    requires index + i <= |body|
    ensures var here, there := Find(body[index..], word, i), Find(body, word, index + i);
      (here.None? <==> there.None?) && (here.Some? ==> there.value == index + here.value)
    decreases |body| - i
  {
    assert StandsAt(body[index..], i, word) <==> StandsAt(body, index + i, word) by {
      if index + i + |word| <= |body| { assert body[index..][i..i + |word|] == body[index + i..index + i + |word|]; }
    }
    if index + i < |body| { FindInSuffix(body, index, i + 1, word); }
  }

  /** Before `index` lie the targets found, behind it those still to come. */
  ghost predicate Scanned(body: string, index: nat, targets: seq<string>) {
    index <= |body| && targets + Targets(body[index..]) == Targets(body)
  }

  lemma ScanStarts(body: string)
    ensures Scanned(body, 0, [])
  {
    assert body[0..] == body && [] + Targets(body) == Targets(body);
  }

  lemma TargetsOfLink(rest: string, end: nat)
    requires |rest| >= 2 && rest[0] == ']' && rest[1] == '(' && Find(rest, ")", 2) == Some(end)
    ensures Targets(rest) == TargetOf(rest[2..end]) + Targets(rest[end + 1..])
  {
  }

  lemma TargetsAtLink(body: string, index: nat, end: nat)
    requires index + 1 < |body| && body[index] == ']' && body[index + 1] == '('
    requires Find(body, ")", index + 2) == Some(end)
    ensures Targets(body[index..]) == TargetOf(body[index + 2..end]) + Targets(body[end + 1..])
  {
    var rest, last := body[index..], end - index;
    assert Targets(rest) == TargetOf(rest[2..last]) + Targets(rest[last + 1..]) by {
      FindInSuffix(body, index, 2, ")");
      TargetsOfLink(rest, last);
    }
    assert rest[2..last] == body[index + 2..end] && rest[last + 1..] == body[end + 1..] by {
      SliceOfSuffix(body, index, 2, last);
      SliceOfSuffix(body, index, last + 1, last + 1);
    }
  }

  lemma LinkScanned(body: string, index: nat, targets: seq<string>, end: nat)
    requires Scanned(body, index, targets) && index + 1 < |body| && body[index] == ']' && body[index + 1] == '('
    requires Find(body, ")", index + 2) == Some(end)
    ensures Scanned(body, end + 1, targets + TargetOf(body[index + 2..end]))
  {
    TargetsAtLink(body, index, end);
    Regroup(targets, TargetOf(body[index + 2..end]), Targets(body[end + 1..]));
  }

  lemma NoLinkScanned(body: string, index: nat, targets: seq<string>)
    requires Scanned(body, index, targets) && index + 1 < |body|
    requires body[index] == ']' && body[index + 1] == '(' ==> Find(body, ")", index + 2).None?
    ensures Scanned(body, index + 1, targets)
  {
    FindInSuffix(body, index, 2, ")");
    SliceOfSuffix(body, index, 1, 1);
  }

  lemma ScanEnds(body: string, index: nat, targets: seq<string>)
    requires Scanned(body, index, targets) && index + 1 >= |body|
    ensures targets == Targets(body)
  {
    assert Targets(body[index..]) == [] && targets + [] == targets;
  }

  method ExtractMarkdownTargets(body: string) returns (targets: seq<string>)
    ensures targets == Targets(body)
  {
    var index := 0;
    targets := [];
    ScanStarts(body);
    while index + 1 < |body|
      invariant 0 <= index <= |body| && Scanned(body, index, targets)
    {
      if body[index] == ']' && body[index + 1] == '(' {
        var start := index + 2;
        var end := Find(body, ")", start);
        if end.Some? {
          LinkScanned(body, index, targets, end.value);
          targets := targets + TargetOf(body[start..end.value]);
          index := end.value + 1;
          continue;
        }
      }
      NoLinkScanned(body, index, targets);
      index := index + 1;
    }
    ScanEnds(body, index, targets);
  }

  // ---------------------------------------------------------------- candidate urls

  /** The maximal runs of non-blank characters. */
  function Words(s: string, word: string): seq<string>
    decreases |s|
  {
    if s == "" then (if word == "" then [] else [word])
    else if IsWhitespace(s[0]) then (if word == "" then [] else [word]) + Words(s[1..], "")
    else Words(s[1..], word + [s[0]])
  }

  function Uploads(urls: seq<string>): seq<string> {
    if urls == [] then []
    else Uploads(urls[..|urls| - 1]) + (if Contains(urls[|urls| - 1], UPLOADS) then [urls[|urls| - 1]] else [])
  }

  function Stripped(tokens: seq<string>): (r: seq<string>)
    ensures |r| == |tokens|
  {
    seq(|tokens|, i requires 0 <= i < |tokens| => Trim(tokens[i], Mark()))
  }

  /** Link targets first, then bare words. */
  function Candidates(body: string): seq<string> {
    Uploads(Targets(body)) + Uploads(Stripped(Words(body, "")))
  }

  function Absolute(url: string, trimmedBase: string): Option<string> {
    if StartsWith(url, "http://") || StartsWith(url, "https://") then Some(url)
    else if StartsWith(url, "/") then Some(trimmedBase + url)
    else None
  }

  /** The absolute urls in order, each kept where it occurs first. */
  function DistinctUrls(urls: seq<string>, trimmedBase: string): seq<string> {
    if urls == [] then []
    else
      var front, last := DistinctUrls(urls[..|urls| - 1], trimmedBase), Absolute(urls[|urls| - 1], trimmedBase);
      if last.Some? && last.value !in front then front + [last.value] else front
  }

  datatype ParsedAttachment = ParsedAttachment(externalUrl: string, filename: string, contentType: string, inline: bool)

  function FilenameOf(url: string): (name: string)
    ensures name != ""
  {
    var last := AfterLast(url, '/');
    if last == "" then "attachment" else last
  }

  function ContentTypeOf(filename: string): string {
    TypeOf(AsciiLower(AfterLast(filename, '.')))
  }

  function TypeOf(ext: string): string {
    if ext == "png" then "image/png"
    else if ext == "jpg" || ext == "jpeg" then "image/jpeg"
    else if ext == "gif" then "image/gif"
    else if ext == "webp" then "image/webp"
    else if ext == "svg" then "image/svg+xml"
    else if ext == "pdf" then "application/pdf"
    else if ext == "txt" then "text/plain"
    else if ext == "csv" then "text/csv"
    else if ext == "json" then "application/json"
    else if ext == "zip" then "application/zip"
    else "application/octet-stream"
  }

  function ParsedOf(url: string): ParsedAttachment {
    var name := FilenameOf(url);
    ParsedAttachment(url, name, ContentTypeOf(name),
      AsciiLower(AfterLast(name, '.')) in ["png", "jpg", "jpeg", "gif", "webp", "svg"])
  }

  function ParsedAll(urls: seq<string>): (r: seq<ParsedAttachment>)
    ensures |r| == |urls| && forall i :: 0 <= i < |urls| ==> r[i] == ParsedOf(urls[i])
  {
    seq(|urls|, i requires 0 <= i < |urls| => ParsedOf(urls[i]))
  }

  /** The uploads a text links to, as the rest of the system sees them. */
  function Linked(body: string, base: string): seq<string> {
    DistinctUrls(Candidates(body), TrimSlashes(base))
  }

  method KeepUploads(items: seq<string>) returns (urls: seq<string>)
    ensures urls == Uploads(items)
  {
    urls := [];
    for i := 0 to |items|
      invariant urls == Uploads(items[..i])
    {
      if Contains(items[i], UPLOADS) { urls := urls + [items[i]]; }
      assert items[..i + 1][..i] == items[..i];
    }
    assert items[..|items|] == items;
  }

  method DropRepeated(urls: seq<string>, trimmedBase: string) returns (kept: seq<string>)
    ensures kept == DistinctUrls(urls, trimmedBase)
  {
    var seen: set<string> := {};
    kept := [];
    for i := 0 to |urls|
      invariant kept == DistinctUrls(urls[..i], trimmedBase)
      invariant forall u :: u in seen <==> u in kept
    {
      var absolute := Absolute(urls[i], trimmedBase);
      if absolute.Some? && absolute.value !in seen {
        seen := seen + {absolute.value};
        kept := kept + [absolute.value];
      }
      assert urls[..i + 1][..i] == urls[..i];
    }
    assert urls[..|urls|] == urls;
  }

  method ParseCommentAttachments(body: string, base: string) returns (parsed: seq<ParsedAttachment>)
    ensures parsed == ParsedAll(Linked(body, base))
  {
    var targets := ExtractMarkdownTargets(body);
    var links := KeepUploads(targets);
    var words := KeepUploads(Stripped(Words(body, "")));
    var urls := DropRepeated(links + words, TrimSlashes(base));
    parsed := ParsedAll(urls);
  }

  // ---------------------------------------------------------------- what is found

  lemma {:induction false} UploadsContain(urls: seq<string>)
    ensures forall k :: 0 <= k < |Uploads(urls)| ==> Contains(Uploads(urls)[k], UPLOADS)
    ensures forall u :: u in urls && Contains(u, UPLOADS) ==> u in Uploads(urls)
  {
    if urls != [] {
      UploadsContain(urls[..|urls| - 1]);
      assert urls == urls[..|urls| - 1] + [urls[|urls| - 1]];
    }
  }

  ghost predicate Unrepeated(urls: seq<string>) {
    forall i, k :: 0 <= i < k < |urls| ==> urls[i] != urls[k]
  }

  lemma {:induction false} DistinctUrlsExact(urls: seq<string>, base: string)
    ensures Unrepeated(DistinctUrls(urls, base))
    ensures forall u :: u in DistinctUrls(urls, base) <==> exists k :: 0 <= k < |urls| && Absolute(urls[k], base) == Some(u)
  {
    if urls != [] {
      var front := urls[..|urls| - 1];
      DistinctUrlsExact(front, base);
      var found, before := DistinctUrls(urls, base), DistinctUrls(front, base);
      forall u ensures u in found <==> exists k :: 0 <= k < |urls| && Absolute(urls[k], base) == Some(u) {
        if u in before {
          var k :| 0 <= k < |front| && Absolute(front[k], base) == Some(u);
          assert Absolute(urls[k], base) == Some(u);
        } else if u in found {
          assert Absolute(urls[|urls| - 1], base) == Some(u);
        }
        if k :| 0 <= k < |urls| && Absolute(urls[k], base) == Some(u) {
          if k < |front| { assert front[k] == urls[k]; }
        }
      }
    }
  }

  /** Every url found is found once, contains /uploads/, and is absolute or hangs off the base. */
  lemma LinkedUrls(body: string, base: string)
    ensures Unrepeated(Linked(body, base))
    ensures forall i :: 0 <= i < |Linked(body, base)| ==>
      var url := Linked(body, base)[i];
      && Contains(url, UPLOADS)
      && (StartsWith(url, "http://") || StartsWith(url, "https://") || StartsWith(url, TrimSlashes(base) + "/"))
  {
    var candidates, urls, trimmed := Candidates(body), Linked(body, base), TrimSlashes(base);
    UploadsContain(Targets(body));
    UploadsContain(Stripped(Words(body, "")));
    DistinctUrlsExact(candidates, trimmed);
    forall i | 0 <= i < |urls|
      ensures Contains(urls[i], UPLOADS)
      ensures StartsWith(urls[i], "http://") || StartsWith(urls[i], "https://") || StartsWith(urls[i], trimmed + "/")
    {
      assert urls[i] in urls;
      var k :| 0 <= k < |candidates| && Absolute(candidates[k], trimmed) == Some(urls[i]);
      assert Contains(candidates[k], UPLOADS);
      if urls[i] != candidates[k] { ContainsJoins(trimmed, candidates[k], UPLOADS); }
    }
  }

  // ---------------------------------------------------------------- and back to the upload path

  /** `parsePath` is the url parser's path of an absolute url, if it accepts the url. */
  function NormalizeUploadPath(url: string, base: string, parsePath: string -> Option<string>): Option<string> {
    var trimmed := TrimSlashes(base);
    if StartsWith(url, UPLOADS) then Some(url)
    else if StartsWith(url, trimmed) && StartsWith(url[|trimmed|..], UPLOADS) then Some(url[|trimmed|..])
    else if StartsWith(url, "http://") || StartsWith(url, "https://") then
      var path := parsePath(url);
      if path.None? then None
      else
        var at := Find(path.value, UPLOADS, 0);
        if at.Some? then Some(path.value[at.value..]) else None
    else None
  }

  /** Which upload path a url has: itself, what follows the base, or for any other absolute url the end of its path. */
  lemma NormalizeFinds(url: string, base: string, parsePath: string -> Option<string>)
    ensures var path, rest := NormalizeUploadPath(url, base, parsePath), TrimSlashes(base);
      var behind := StartsWith(url, rest) && StartsWith(url[|rest|..], "/uploads/");
      && (StartsWith(url, "/uploads/") ==> path == Some(url))
      && (!StartsWith(url, "/uploads/") && behind ==> path == Some(url[|rest|..]))
      && (!StartsWith(url, "/uploads/") && !behind ==>
            if (StartsWith(url, "http://") || StartsWith(url, "https://")) && parsePath(url).Some? && Contains(parsePath(url).value, "/uploads/")
            then
              var whole := parsePath(url).value;
              && path.Some? && StartsWith(path.value, "/uploads/") && |path.value| <= |whole|
              && whole[|whole| - |path.value|..] == path.value
              && forall k :: 0 <= k < |whole| - |path.value| ==> !StandsAt(whole, k, "/uploads/")
            else path.None?)
  {
    if parsePath(url).Some? {
      var whole := parsePath(url).value;
      FindsFirst(whole, UPLOADS, 0);
      var at := Find(whole, UPLOADS, 0);
      if at.Some? { assert whole[at.value..][..9] == whole[at.value..at.value + 9]; }
    }
  }

  /**
   * Prefixing an upload path with the base url is undone exactly when the base, with a
   * slash behind it, does not itself look like an upload path.
   */
  lemma NormalizeUndoesPrefix(path: string, base: string, parsePath: string -> Option<string>)
    requires StartsWith(path, UPLOADS)
    ensures Absolute(path, TrimSlashes(base)) == Some(TrimSlashes(base) + path)
    ensures NormalizeUploadPath(TrimSlashes(base) + path, base, parsePath) == Some(path)
      <==> TrimSlashes(base) == "" || !StartsWith(TrimSlashes(base) + "/", UPLOADS)
  {
    var b := TrimSlashes(base);
    var url := b + path;
    assert path[..9] == UPLOADS && path[0] == UPLOADS[0] == '/';
    assert path[..7][0] == path[..8][0] == '/';
    assert StartsWith(path, "/");
    assert url[..|b|] == b && url[|b|..] == path;
    assert |url| == |b| + |path|;
    if b != "" { BaseLooksLikeUpload(b, path); }
  }

  /** Behind the base url `/uploads` a prefixed path is taken for an upload path as it is. */
  lemma UploadsBaseIsKept(path: string, parsePath: string -> Option<string>)
    requires StartsWith(path, UPLOADS)
    ensures NormalizeUploadPath(TrimSlashes("/uploads") + path, "/uploads", parsePath) == Some("/uploads" + path) != Some(path)
  {
    NormalizeUndoesPrefix(path, "/uploads", parsePath);
    assert TrimSlashes("/uploads") == "/uploads";
    assert "/uploads" + "/" == UPLOADS;
    BaseLooksLikeUpload("/uploads", path);
  }

  lemma BaseLooksLikeUpload(b: string, path: string)
    requires StartsWith(path, UPLOADS) && b != ""
    ensures StartsWith(b + path, UPLOADS) <==> StartsWith(b + "/", UPLOADS)
  {
    assert path[0] == path[..9][0] == '/';
    if |b| >= 8 {
      assert (b + path)[..9] == (b + "/")[..9] by {
        assert forall k :: 0 <= k < 9 ==> (b + path)[k] == (b + "/")[k];
      }
    } else {
      assert (b + path)[|b|] == '/';
      assert UPLOADS[1] == 'u' && UPLOADS[2] == 'p' && UPLOADS[3] == 'l' && UPLOADS[4] == 'o';
      assert UPLOADS[5] == 'a' && UPLOADS[6] == 'd' && UPLOADS[7] == 's';
      assert (b + path)[..9][|b|] == '/' != UPLOADS[|b|];
    }
  }
}
