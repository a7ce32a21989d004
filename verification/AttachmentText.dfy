/** Which urls a text gives, said on the text itself. */
module AttachmentText {
  import opened Wrappers
  import opened Text
  import opened AttachmentLinks

  // ---------------------------------------------------------------- words

  /** A maximal run of non-blank characters. */
  ghost predicate WordAt(body: string, i: nat, j: nat) {
    && i < j <= |body| && (forall k :: i <= k < j ==> !IsWhitespace(body[k]))
    && (i > 0 ==> IsWhitespace(body[i - 1])) && (j < |body| ==> IsWhitespace(body[j]))
  }

  ghost predicate WordFrom(body: string, i: nat, w: string) {
    exists a: nat, b: nat :: i <= a && WordAt(body, a, b) && body[a..b] == w
  }

  /** The word under way from `i` to `k`. */
  ghost predicate UnderWay(body: string, i: nat, k: nat) {
    i <= k <= |body| && (forall m :: i <= m < k ==> !IsWhitespace(body[m])) && (i > 0 ==> IsWhitespace(body[i - 1]))
  }

  lemma WordEnds(body: string, i: nat, k: nat, w: string)
    requires UnderWay(body, i, k) && k < |body| && IsWhitespace(body[k])
    ensures WordFrom(body, i, w) <==> (i < k && body[i..k] == w) || WordFrom(body, k + 1, w)
  {
    if a: nat, b: nat :| i <= a && WordAt(body, a, b) && body[a..b] == w {
      if a <= k {
        assert !IsWhitespace(body[a]);
        assert a == i;
      }
    }
    if i < k { assert WordAt(body, i, k); }
  }

  lemma WordsEnd(body: string, i: nat, w: string)
    requires UnderWay(body, i, |body|)
    ensures WordFrom(body, i, w) <==> i < |body| && body[i..] == w
  {
    if a: nat, b: nat :| i <= a && WordAt(body, a, b) && body[a..b] == w {
      assert a == i;
      if b < |body| { assert IsWhitespace(body[b]); }
      assert body[i..|body|] == body[i..];
    }
    if i < |body| {
      assert WordAt(body, i, |body|);
      assert body[i..|body|] == body[i..];
    }
  }

  lemma {:induction false} WordsFrom(body: string, i: nat, k: nat, w: string)
    requires UnderWay(body, i, k)
    ensures w in Words(body[k..], body[i..k]) <==> WordFrom(body, i, w)
    decreases |body| - k
  {
    if k == |body| {
      WordsEnd(body, i, w);
      assert body[i..k] == body[i..];
    } else {
      assert body[k..][1..] == body[k + 1..];
      if IsWhitespace(body[k]) {
        WordsFrom(body, k + 1, k + 1, w);
        assert body[k + 1..k + 1] == "";
        WordEnds(body, i, k, w);
      } else {
        WordsFrom(body, i, k + 1, w);
        assert body[i..k + 1] == body[i..k] + [body[k]];
      }
    }
  }

  // ---------------------------------------------------------------- link targets

  /** `](` at `i` and the next `)` behind it at `e`. */
  ghost predicate LinkAt(body: string, i: nat, e: nat) {
    && i + 2 <= e < |body| && body[i] == ']' && body[i + 1] == '(' && body[e] == ')'
    && forall k :: i + 2 <= k < e ==> body[k] != ')'
  }

  /** Links are taken from the left: one that starts inside a taken one is not taken. */
  ghost predicate Taken(body: string, i: nat, e: nat)
    decreases i
  {
    LinkAt(body, i, e) && forall j: nat, f: nat :: j < i && f < |body| && Taken(body, j, f) ==> f < i
  }

  ghost predicate TakenFrom(body: string, k: nat, t: string) {
    t != "" && exists i: nat, e: nat :: k <= i && Taken(body, i, e) && Trim(body[i + 2..e], Whitespace()) == t
  }

  /** No link taken before `k` reaches it. */
  ghost predicate Clear(body: string, k: nat) {
    forall i: nat, e: nat :: i < k && e < |body| && Taken(body, i, e) ==> e < k
  }

  lemma CloseIsFirst(body: string, i: nat)
    requires i + 2 <= |body|
    ensures var at := Find(body, ")", i + 2);
      && (at.Some? ==> at.value < |body| && body[at.value] == ')' && forall k :: i + 2 <= k < at.value ==> body[k] != ')')
      && (at.None? ==> forall k :: i + 2 <= k < |body| ==> body[k] != ')')
  {
    FindsFirst(body, ")", i + 2);
    forall k | i + 2 <= k < |body| ensures StandsAt(body, k, ")") <==> body[k] == ')' {
      assert body[k..k + 1] == [body[k]];
    }
  }

  lemma TakenHere(body: string, k: nat, e: nat, t: string)
    requires Clear(body, k) && LinkAt(body, k, e)
    ensures Clear(body, e + 1)
    ensures TakenFrom(body, k, t) <==> (t != "" && Trim(body[k + 2..e], Whitespace()) == t) || TakenFrom(body, e + 1, t)
  {
    assert Taken(body, k, e);
    forall i: nat, f: nat | k < i <= e && f < |body| ensures !Taken(body, i, f) {
    }
    forall f: nat | f < |body| && Taken(body, k, f) ensures f == e {
      assert LinkAt(body, k, f);
    }
    if t != "" {
      if i: nat, f: nat :| k <= i && Taken(body, i, f) && Trim(body[i + 2..f], Whitespace()) == t {
        assert LinkAt(body, i, f);
        assert i == k ==> f == e;
      }
    }
  }

  lemma NotTakenHere(body: string, k: nat, t: string)
    requires Clear(body, k) && forall e: nat :: !LinkAt(body, k, e)
    ensures Clear(body, k + 1) && (TakenFrom(body, k, t) <==> TakenFrom(body, k + 1, t))
  {
  }

  lemma NoTargetHere(body: string, k: nat)
    requires k + 1 < |body| && (body[k] == ']' && body[k + 1] == '(' ==> Find(body, ")", k + 2).None?)
    ensures Targets(body[k..]) == Targets(body[k + 1..])
  {
    FindInSuffix(body, k, 2, ")");
    assert body[k..][1..] == body[k + 1..];
  }

  lemma TargetHere(body: string, k: nat, e: nat, t: string)
    requires k + 1 < |body| && body[k] == ']' && body[k + 1] == '(' && Find(body, ")", k + 2) == Some(e)
    ensures e < |body| && (t in Targets(body[k..]) <==> (t != "" && Trim(body[k + 2..e], Whitespace()) == t) || t in Targets(body[e + 1..]))
  {
    TargetsAtLink(body, k, e);
  }

  /** Where the link ends that starts at `k`, if one does. */
  ghost function LinkEnd(body: string, k: nat): (e: Option<nat>)
    requires k + 1 < |body|
    ensures e.Some? ==> k + 2 <= e.value < |body|
  {
    if body[k] == ']' && body[k + 1] == '(' then Find(body, ")", k + 2) else None
  }

  ghost predicate Agrees(body: string, k: nat, t: string)
    requires k <= |body|
  {
    t in Targets(body[k..]) <==> TakenFrom(body, k, t)
  }

  lemma LinkStands(body: string, k: nat)
    requires k + 1 < |body| && LinkEnd(body, k).Some?
    ensures LinkAt(body, k, LinkEnd(body, k).value)
  {
    CloseIsFirst(body, k);
  }

  lemma AtLink(body: string, k: nat, t: string)
    requires k + 1 < |body| && LinkEnd(body, k).Some? && Clear(body, k)
    ensures var e := LinkEnd(body, k).value; Clear(body, e + 1) && (Agrees(body, e + 1, t) ==> Agrees(body, k, t))
  {
    var e := LinkEnd(body, k).value;
    LinkStands(body, k);
    TakenHere(body, k, e, t);
    TargetHere(body, k, e, t);
  }

  lemma AtNoLink(body: string, k: nat, t: string)
    requires k + 1 < |body| && LinkEnd(body, k).None? && Clear(body, k)
    ensures Clear(body, k + 1) && (Agrees(body, k + 1, t) ==> Agrees(body, k, t))
  {
    CloseIsFirst(body, k);
    NoTargetHere(body, k);
    NotTakenHere(body, k, t);
  }

  lemma {:induction false} TargetsFrom(body: string, k: nat, t: string)
    requires k <= |body| && Clear(body, k)
    ensures Agrees(body, k, t)
    decreases |body| - k
  {
    if k + 1 >= |body| {
      NothingBehind(body, k, t);
    } else if LinkEnd(body, k).Some? {
      AtLink(body, k, t);
      TargetsFrom(body, LinkEnd(body, k).value + 1, t);
    } else {
      AtNoLink(body, k, t);
      TargetsFrom(body, k + 1, t);
    }
  }

  lemma NothingBehind(body: string, k: nat, t: string)
    requires k <= |body| <= k + 1
    ensures Targets(body[k..]) == [] && !TakenFrom(body, k, t)
  {
  }

  // ---------------------------------------------------------------- urls

  /** What the punctuation around a word leaves of it. */
  ghost function Punctuation(): char -> bool {
    (c: char) => c in {')', '(', ']', '[', '>', '<', '"', '\'', ','}
  }

  ghost function Blanks(): char -> bool {
    (c: char) => IsWhitespace(c)
  }

  ghost predicate LeftOf(s: string, core: string, strip: char -> bool) {
    exists a: nat, b: nat :: Core(s, a, b, strip) && core == s[a..b]
  }

  lemma LeftByTrim(s: string, core: string, strip: char -> bool)
    ensures LeftOf(s, core, strip) <==> core == Trim(s, strip)
  {
    var a, b := CoreOf(s, strip);
    TrimIsCore(s, a, b, strip);
    if a': nat, b': nat :| Core(s, a', b', strip) && core == s[a'..b'] { TrimIsCore(s, a', b', strip); }
  }

  lemma SameMarks(s: string)
    ensures Trim(s, Mark()) == Trim(s, Punctuation()) && Trim(s, Whitespace()) == Trim(s, Blanks())
  {
    var a, b := CoreOf(s, Punctuation());
    assert Core(s, a, b, Mark());
    TrimIsCore(s, a, b, Mark());
    TrimIsCore(s, a, b, Punctuation());
    var x, y := CoreOf(s, Blanks());
    assert Core(s, x, y, Whitespace());
    TrimIsCore(s, x, y, Whitespace());
    TrimIsCore(s, x, y, Blanks());
  }

  /** The text of a taken link without the blanks around it. */
  ghost predicate FromLink(body: string, c: string) {
    exists i: nat, e: nat :: Taken(body, i, e) && LeftOf(body[i + 2..e], c, Blanks())
  }

  /** A word without the punctuation around it. */
  ghost predicate FromWord(body: string, c: string) {
    exists i: nat, j: nat :: WordAt(body, i, j) && LeftOf(body[i..j], c, Punctuation())
  }

  /** The closing slashes of the base url start at `n`. */
  ghost predicate SlashesFrom(base: string, n: nat) {
    n <= |base| && (forall k :: n <= k < |base| ==> base[k] == '/') && (n > 0 ==> base[n - 1] != '/')
  }

  /** Absolute as it is, or behind the base url, whose closing slashes are dropped. */
  ghost predicate Resolves(c: string, base: string, u: string) {
    if StartsWith(c, "http://") || StartsWith(c, "https://") then u == c
    else StartsWith(c, "/") && exists n: nat :: SlashesFrom(base, n) && u == base[..n] + c
  }

  lemma ResolvesIsAbsolute(c: string, base: string, u: string)
    ensures Resolves(c, base, u) <==> Absolute(c, TrimSlashes(base)) == Some(u)
  {
    var n := SlashesEnd(base);
    TrimEndIsCore(base, n, IsSlash());
    assert forall m: nat :: SlashesFrom(base, m) ==> m == n;
  }

  lemma {:induction false} SlashesEnd(base: string) returns (n: nat)
    ensures SlashesFrom(base, n)
  {
    if base != "" && base[|base| - 1] == '/' { n := SlashesEnd(base[..|base| - 1]); } else { n := |base|; }
  }

  lemma {:induction false} UploadsMembers(urls: seq<string>)
    ensures forall u :: u in Uploads(urls) <==> u in urls && Contains(u, "/uploads/")
  {
    if urls != [] {
      UploadsMembers(urls[..|urls| - 1]);
      assert urls == urls[..|urls| - 1] + [urls[|urls| - 1]];
    }
  }

  lemma TargetsAreLinks(body: string, c: string)
    requires c != ""
    ensures c in Targets(body) <==> FromLink(body, c)
  {
    assert body[0..] == body;
    TargetsFrom(body, 0, c);
    forall i: nat, e: nat | Taken(body, i, e) ensures LeftOf(body[i + 2..e], c, Blanks()) <==> Trim(body[i + 2..e], Whitespace()) == c {
      LeftByTrim(body[i + 2..e], c, Blanks());
      SameMarks(body[i + 2..e]);
    }
  }

  lemma StrippedAreWords(body: string, c: string)
    ensures c in Stripped(Words(body, "")) <==> FromWord(body, c)
  {
    var words := Words(body, "");
    assert body[0..] == body && body[0..0] == "";
    forall w ensures w in words <==> WordFrom(body, 0, w) { WordsFrom(body, 0, 0, w); }
    if c in Stripped(words) {
      var k :| 0 <= k < |words| && Stripped(words)[k] == c;
      assert words[k] in words;
      var i: nat, j: nat :| WordAt(body, i, j) && body[i..j] == words[k];
      SameMarks(words[k]);
      LeftByTrim(words[k], c, Punctuation());
    }
    if i: nat, j: nat :| WordAt(body, i, j) && LeftOf(body[i..j], c, Punctuation()) {
      SameMarks(body[i..j]);
      LeftByTrim(body[i..j], c, Punctuation());
      assert WordFrom(body, 0, body[i..j]);
      var k :| 0 <= k < |words| && words[k] == body[i..j];
      assert Stripped(words)[k] == c;
    }
  }

  lemma CandidatesAre(body: string, c: string)
    ensures c in Candidates(body) <==> Contains(c, "/uploads/") && (FromLink(body, c) || FromWord(body, c))
  {
    UploadsMembers(Targets(body));
    UploadsMembers(Stripped(Words(body, "")));
    StrippedAreWords(body, c);
    if c != "" { TargetsAreLinks(body, c); }
  }

  /**
   * A url is found in a text if and only if it comes from the text of a link or from a word
   * of it which, trimmed, contains `/uploads/`, and is that itself or that behind the base.
   */
  lemma LinkedExactly(body: string, base: string, u: string)
    ensures u in Linked(body, base) <==>
      exists c: string :: (FromLink(body, c) || FromWord(body, c)) && Contains(c, "/uploads/") && Resolves(c, base, u)
  {
    var candidates := Candidates(body);
    DistinctUrlsExact(candidates, TrimSlashes(base));
    if u in Linked(body, base) {
      var k :| 0 <= k < |candidates| && Absolute(candidates[k], TrimSlashes(base)) == Some(u);
      assert candidates[k] in candidates;
      CandidatesAre(body, candidates[k]);
      ResolvesIsAbsolute(candidates[k], base, u);
    }
    if c: string :| (FromLink(body, c) || FromWord(body, c)) && Contains(c, "/uploads/") && Resolves(c, base, u) {
      CandidatesAre(body, c);
      ResolvesIsAbsolute(c, base, u);
      var k :| 0 <= k < |candidates| && candidates[k] == c;
    }
  }

  lemma {:induction false} PrefixStays(a: seq<string>, b: seq<string>, trimmed: string)
    ensures DistinctUrls(a, trimmed) <= DistinctUrls(a + b, trimmed)
    decreases |b|
  {
    if b == [] {
      assert a + b == a;
    } else {
      PrefixStays(a, b[..|b| - 1], trimmed);
      assert (a + b)[..|a + b| - 1] == a + b[..|b| - 1];
    }
  }

  /** The urls of links come first, in order, and those only words give behind them. */
  lemma LinksComeFirst(body: string, base: string)
    ensures DistinctUrls(Uploads(Targets(body)), TrimSlashes(base)) <= Linked(body, base)
  {
    PrefixStays(Uploads(Targets(body)), Uploads(Stripped(Words(body, ""))), TrimSlashes(base));
  }

  // ---------------------------------------------------------------- names and types

  lemma {:induction false} AfterLastIs(s: string, sep: char)
    ensures var part := AfterLast(s, sep);
      && |part| <= |s| && s[|s| - |part|..] == part && sep !in part
      && (|part| < |s| ==> s[|s| - |part| - 1] == sep)
  {
    if s != "" && s[|s| - 1] != sep {
      AfterLastIs(s[..|s| - 1], sep);
      TailGrows(s, |s| - 1 - |AfterLast(s[..|s| - 1], sep)|);
    }
  }

  lemma TailGrows(s: string, k: nat)
    requires s != "" && k < |s|
    ensures s[k..] == s[..|s| - 1][k..] + [s[|s| - 1]]
  {
  }

  /** The file name is the part of the url behind its last slash, or `attachment` if nothing is there. */
  lemma FilenameIsLastPart(url: string)
    ensures url == "" || url[|url| - 1] == '/' ==> ParsedOf(url).filename == "attachment"
    ensures url != "" && url[|url| - 1] != '/' ==>
      var name := ParsedOf(url).filename;
      && name != "" && '/' !in name && |name| <= |url| && url[|url| - |name|..] == name
      && (|name| < |url| ==> url[|url| - |name| - 1] == '/')
  {
    AfterLastIs(url, '/');
  }

  /** There is only one tail without a dot that starts the text or stands behind a dot. */
  lemma TailIsUnique(s: string, m: nat, n: nat, sep: char)
    requires m <= |s| && sep !in s[m..] && (m > 0 ==> s[m - 1] == sep)
    requires n <= |s| && sep !in s[n..] && (n > 0 ==> s[n - 1] == sep)
    ensures m == n
  {
    assert forall k :: m <= k < |s| ==> s[m..][k - m] == s[k];
    assert forall k :: n <= k < |s| ==> s[n..][k - n] == s[k];
  }

  lemma ExtensionIs(name: string, dot: nat)
    requires dot <= |name| && '.' !in name[dot..] && (dot > 0 ==> name[dot - 1] == '.')
    ensures AfterLast(name, '.') == name[dot..]
  {
    var n := |name| - |AfterLast(name, '.')|;
    AfterLastIs(name, '.');
    TailIsUnique(name, n, dot, '.');
  }

  lemma TypeByTable(ext: string)
    ensures ext == "png" ==> TypeOf(ext) == "image/png"
    ensures ext == "jpg" || ext == "jpeg" ==> TypeOf(ext) == "image/jpeg"
    ensures ext == "gif" ==> TypeOf(ext) == "image/gif"
    ensures ext == "webp" ==> TypeOf(ext) == "image/webp"
    ensures ext == "svg" ==> TypeOf(ext) == "image/svg+xml"
    ensures ext == "pdf" ==> TypeOf(ext) == "application/pdf"
    ensures ext == "txt" ==> TypeOf(ext) == "text/plain"
    ensures ext == "csv" ==> TypeOf(ext) == "text/csv"
    ensures ext == "json" ==> TypeOf(ext) == "application/json"
    ensures ext == "zip" ==> TypeOf(ext) == "application/zip"
    ensures ext !in {"png", "jpg", "jpeg", "gif", "webp", "svg", "pdf", "txt", "csv", "json", "zip"} ==>
      TypeOf(ext) == "application/octet-stream"
  {
  }

  /** Content type and display go by what stands behind the last dot of the name, in any case. */
  lemma TypeGoesByExtension(url: string, dot: nat)
    requires var name := ParsedOf(url).filename; dot <= |name| && '.' !in name[dot..] && (dot > 0 ==> name[dot - 1] == '.')
    ensures var parsed := ParsedOf(url);
      var ext := AsciiLower(parsed.filename[dot..]);
      && parsed.externalUrl == url && parsed.contentType == TypeOf(ext)
      && (parsed.inline <==> ext in {"png", "jpg", "jpeg", "gif", "webp", "svg"})
  {
    ExtensionIs(ParsedOf(url).filename, dot);
  }
}
