/** The few string operations the link code uses. */
module Text {
  import opened Wrappers

  lemma Regroup<T>(a: seq<T>, b: seq<T>, c: seq<T>)
    ensures (a + b) + c == a + (b + c)
  {
  }

  lemma OneMoreTaken<T>(base: seq<T>, s: seq<T>, k: nat)
    requires k < |s|
    ensures base + s[..k] + [s[k]] == base + s[..k + 1]
  {
  }

  lemma SliceOfSuffix<T>(s: seq<T>, i: nat, a: nat, b: nat)
    requires i + a <= i + b <= |s|
    ensures s[i..][a..b] == s[i + a..i + b] && s[i..][a..] == s[i + a..]
  {
  }

  predicate StartsWith(s: string, prefix: string) {
    |prefix| <= |s| && s[..|prefix|] == prefix
  }

  /** `word` stands in `s` at position `i`. */
  predicate StandsAt(s: string, i: nat, word: string) {
    i + |word| <= |s| && s[i..i + |word|] == word
  }

  predicate Contains(s: string, word: string) {
    exists i :: 0 <= i <= |s| && StandsAt(s, i, word)
  }

  /** The first position at or after `i` where `word` stands. */
  function Find(s: string, word: string, i: nat): (at: Option<nat>)
    requires i <= |s|
    ensures at.Some? ==> i <= at.value && at.value + |word| <= |s|
    decreases |s| - i
  {
    if StandsAt(s, i, word) then Some(i) else if i == |s| then None else Find(s, word, i + 1)
  }

  lemma {:induction false} FindsFirst(s: string, word: string, i: nat)
    requires i <= |s|
    ensures Find(s, word, i).Some? ==> StandsAt(s, Find(s, word, i).value, word)
    ensures forall k :: i <= k <= |s| && (Find(s, word, i).Some? ==> k < Find(s, word, i).value) ==> !StandsAt(s, k, word)
    decreases |s| - i
  {
    if !StandsAt(s, i, word) && i < |s| { FindsFirst(s, word, i + 1); }
  }

  function TrimStart(s: string, strip: char -> bool): string {
    if s != "" && strip(s[0]) then TrimStart(s[1..], strip) else s
  }

  function TrimEnd(s: string, strip: char -> bool): string {
    if s != "" && strip(s[|s| - 1]) then TrimEnd(s[..|s| - 1], strip) else s
  }

  function Trim(s: string, strip: char -> bool): string {
    TrimEnd(TrimStart(s, strip), strip)
  }

  lemma {:induction false} StripsToNothing(s: string, strip: char -> bool)
    ensures Trim(s, strip) == "" <==> forall i :: 0 <= i < |s| ==> strip(s[i])
  {
    if s != "" {
      if strip(s[0]) {
        StripsToNothing(s[1..], strip);
        assert forall i :: 0 < i < |s| ==> s[1..][i - 1] == s[i];
      } else {
        EndStays(s, strip);
      }
    }
  }

  lemma {:induction false} EndStays(s: string, strip: char -> bool)
    requires s != "" && !strip(s[0])
    ensures TrimEnd(s, strip) != ""
  {
    if strip(s[|s| - 1]) { EndStays(s[..|s| - 1], strip); }
  }

  /** What is left of `s` between `a` and `b` when `strip` takes what it can from both ends. */
  ghost predicate Core(s: string, a: nat, b: nat, strip: char -> bool) {
    && a <= b <= |s|
    && (forall k :: 0 <= k < a ==> strip(s[k])) && (forall k :: b <= k < |s| ==> strip(s[k]))
    && (a < b ==> !strip(s[a]) && !strip(s[b - 1]))
  }

  lemma {:induction false} TrimEndIsCore(s: string, n: nat, strip: char -> bool)
    requires n <= |s| && (forall k :: n <= k < |s| ==> strip(s[k])) && (n > 0 ==> !strip(s[n - 1]))
    ensures TrimEnd(s, strip) == s[..n]
  {
    if n < |s| {
      TrimEndIsCore(s[..|s| - 1], n, strip);
      assert s[..|s| - 1][..n] == s[..n];
    } else {
      assert s[..n] == s;
    }
  }

  lemma {:induction false} TrimIsCore(s: string, a: nat, b: nat, strip: char -> bool)
    requires Core(s, a, b, strip)
    ensures Trim(s, strip) == s[a..b]
    decreases a
  {
    if a == b {
      StripsToNothing(s, strip);
    } else if a > 0 {
      TrimIsCore(s[1..], a - 1, b - 1, strip);
      assert s[1..][a - 1..b - 1] == s[a..b];
    } else {
      TrimEndIsCore(s, b, strip);
      assert s[0..b] == s[..b];
    }
  }

  /** Every text has such a core. */
  lemma {:induction false} CoreOf(s: string, strip: char -> bool) returns (a: nat, b: nat)
    ensures Core(s, a, b, strip)
    decreases |s|
  {
    if s == "" {
      a, b := 0, 0;
    } else if strip(s[0]) {
      a, b := CoreOf(s[1..], strip);
      a, b := a + 1, b + 1;
      assert forall k :: 0 < k < |s| ==> s[1..][k - 1] == s[k];
    } else if strip(s[|s| - 1]) {
      a, b := CoreOf(s[..|s| - 1], strip);
      if a == b {
        assert s[..|s| - 1][0] == s[0];
      }
    } else {
      a, b := 0, |s|;
    }
  }

  predicate IsWhitespace(c: char) {
    '\U{9}' <= c <= '\U{d}' || c == ' ' || c == '\U{85}' || c == '\U{a0}' || c == '\U{1680}'
    || '\U{2000}' <= c <= '\U{200a}' || c == '\U{2028}' || c == '\U{2029}' || c == '\U{202f}' || c == '\U{205f}' || c == '\U{3000}'
  }

  /** The blanks of Unicode's White_Space property. */
  lemma WhitespaceOfUnicode(c: char)
    ensures IsWhitespace(c) <==> c as int in {
      0x9, 0xa, 0xb, 0xc, 0xd, 0x20, 0x85, 0xa0, 0x1680, 0x2000, 0x2001, 0x2002, 0x2003, 0x2004, 0x2005, 0x2006, 0x2007,
      0x2008, 0x2009, 0x200a, 0x2028, 0x2029, 0x202f, 0x205f, 0x3000}
  {
  }

  function IsSlash(): char -> bool {
    c => c == '/'
  }

  function TrimSlashes(s: string): string {
    TrimEnd(s, IsSlash())
  }

  /** The part after the last `sep`, all of it if there is none. */
  function AfterLast(s: string, sep: char): string {
    if s == "" || s[|s| - 1] == sep then "" else AfterLast(s[..|s| - 1], sep) + [s[|s| - 1]]
  }

  function AsciiLower(s: string): (r: string)
    ensures |r| == |s|
  {
    seq(|s|, i requires 0 <= i < |s| => if 'A' <= s[i] <= 'Z' then s[i] - 'A' + 'a' else s[i])
  }

  /** The canonical form ids are issued and printed in. */
  predicate IsUuid(s: string) {
    && |s| == 36
    && forall i :: 0 <= i < 36 ==>
         if i == 8 || i == 13 || i == 18 || i == 23 then s[i] == '-' else '0' <= s[i] <= '9' || 'a' <= s[i] <= 'f'
  }

  lemma ContainsJoins(a: string, b: string, word: string)
    requires Contains(b, word)
    ensures Contains(a + b, word)
  {
    var i :| 0 <= i <= |b| && StandsAt(b, i, word);
    assert (a + b)[|a| + i..|a| + i + |word|] == b[i..i + |word|];
    assert StandsAt(a + b, |a| + i, word);
  }
}
