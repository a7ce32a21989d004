/**
 * The marker an imported comment may carry in its text:
 * `<!-- issuehub-parent:17 -->`, blanks optional, letters in any case.
 */
module ReplyMarker {
  import opened Wrappers
  import opened Text

  const OPEN := "<!--"
  const NAME := "issuehub-parent:"
  const CLOSE := "-->"

  predicate IsDigit(c: char) {
    '0' <= c <= '9'
  }

  predicate IsBlank(c: char) {
    c in " \t\n\r" || c == '\U{000b}' || c == '\U{000c}' || c == '\U{00a0}' || c == '\U{feff}' || c == '\U{1680}'
    || '\U{2000}' <= c <= '\U{200a}' || c == '\U{2028}' || c == '\U{2029}' || c == '\U{202f}' || c == '\U{205f}' || c == '\U{3000}'
  }

  function Lower(c: char): char {
    if 'A' <= c <= 'Z' then c - 'A' + 'a' else c
  }

  predicate ReadsAt(body: string, i: nat, word: string) {
    i + |word| <= |body| && forall k :: 0 <= k < |word| ==> Lower(body[i + k]) == word[k]
  }

  function SkipBlanks(body: string, i: nat): (j: nat)
    requires i <= |body|
    ensures i <= j <= |body|
    decreases |body| - i
  {
    if i < |body| && IsBlank(body[i]) then SkipBlanks(body, i + 1) else i
  }

  function SkipDigits(body: string, i: nat): (j: nat)
    requires i <= |body|
    ensures i <= j <= |body|
    ensures forall k :: i <= k < j ==> IsDigit(body[k])
    decreases |body| - i
  {
    if i < |body| && IsDigit(body[i]) then SkipDigits(body, i + 1) else i
  }

  function Number(digits: string): nat
    requires forall k :: 0 <= k < |digits| ==> IsDigit(digits[k])
  {
    if digits == [] then 0
    else
      var last := digits[|digits| - 1];
      assert IsDigit(last);
      10 * Number(digits[..|digits| - 1]) + (last as int - '0' as int)
  }

  /** The number that stands at `i` and is followed by the end of the marker. */
  function NumberAt(body: string, i: nat): Option<nat>
    requires i <= |body|
  {
    var end := SkipDigits(body, i);
    if end > i && ReadsAt(body, SkipBlanks(body, end), CLOSE) then Some(Number(body[i..end])) else None
  }

  /** The number of a marker that starts exactly at `i`. */
  function MarkerAt(body: string, i: nat): Option<nat> {
    if !ReadsAt(body, i, OPEN) then None
    else
      var name := SkipBlanks(body, i + |OPEN|);
      if ReadsAt(body, name, NAME) then NumberAt(body, name + |NAME|) else None
  }

  /** The first of `at(i)`, `at(i + 1)`, ... below `n` that is there. */
  function FirstSome(at: nat -> Option<nat>, i: nat, n: nat): Option<nat>
    requires i <= n
    decreases n - i
  {
    if i == n then None else if at(i).Some? then at(i) else FirstSome(at, i + 1, n)
  }

  function MarkersIn(body: string): nat -> Option<nat> {
    i => MarkerAt(body, i)
  }

  function FirstMarker(body: string): Option<nat> {
    FirstSome(MarkersIn(body), 0, |body|)
  }

  function ParseReplyTarget(body: string): Option<int> {
    var found := FirstMarker(body);
    if found.Some? then Some(found.value) else None
  }

  // ---------------------------------------------------------------- writing a marker

  function Decimal(n: nat): (s: string)
    ensures s != [] && forall k :: 0 <= k < |s| ==> IsDigit(s[k])
  {
    var last := ('0' as int + n % 10) as char;
    if n < 10 then [last] else Decimal(n / 10) + [last]
  }

  lemma {:induction false} DecimalReadsBack(n: nat)
    ensures Number(Decimal(n)) == n
  {
    var s := Decimal(n);
    if n >= 10 {
      DecimalReadsBack(n / 10);
      assert s[..|s| - 1] == Decimal(n / 10);
    } else {
      assert s[..|s| - 1] == [];
    }
  }

  function Marker(n: nat): string {
    OPEN + " " + NAME + Decimal(n) + " " + CLOSE
  }

  lemma {:induction false} SkipDigitsTo(body: string, i: nat, end: nat)
    requires i <= end <= |body|
    requires forall k :: i <= k < end ==> IsDigit(body[k])
    requires end < |body| ==> !IsDigit(body[end])
    ensures SkipDigits(body, i) == end
    decreases end - i
  {
    if i < end { SkipDigitsTo(body, i + 1, end); }
  }

  /** A word that stands in the text at `i` is read there. */
  lemma WordReads(before: string, word: string, after: string)
    requires forall k :: 0 <= k < |word| ==> Lower(word[k]) == word[k]
    ensures ReadsAt(before + word + after, |before|, word)
  {
  }

  lemma OneBlank(before: string, after: string)
    requires after != [] && !IsBlank(after[0])
    ensures SkipBlanks(before + " " + after, |before|) == |before| + 1
  {
    var body, i := before + " " + after, |before|;
    assert body[i] == ' ' && body[i + 1] == after[0];
    assert SkipBlanks(body, i + 1) == i + 1;
  }

  lemma DigitsRead(before: string, n: nat, after: string)
    requires after != [] && !IsDigit(after[0])
    ensures var body := before + Decimal(n) + after;
      var end := |before| + |Decimal(n)|;
      SkipDigits(body, |before|) == end && body[|before|..end] == Decimal(n)
  {
    SkipDigitsTo(before + Decimal(n) + after, |before|, |before| + |Decimal(n)|);
  }

  lemma CloseStands(before: string, after: string)
    ensures var body := before + (" " + CLOSE + after);
      SkipBlanks(body, |before|) == |before| + 1 && ReadsAt(body, |before| + 1, CLOSE)
  {
    Regroup(" ", CLOSE, after);
    Regroup(before, " ", CLOSE + after);
    assert (CLOSE + after)[0] == '-';
    OneBlank(before, CLOSE + after);
    Regroup(before + " ", CLOSE, after);
    WordReads(before + " ", CLOSE, after);
  }

  lemma NumberIsRead(body: string, i: nat, end: nat, close: nat)
    requires i < end <= close <= |body| && SkipDigits(body, i) == end && SkipBlanks(body, end) == close && ReadsAt(body, close, CLOSE)
    ensures NumberAt(body, i) == Some(Number(body[i..end]))
  {
  }

  lemma NumberStands(before: string, n: nat, after: string)
    ensures NumberAt(before + Decimal(n) + (" " + CLOSE + after), |before|) == Some(n)
  {
    var d, rest := Decimal(n), " " + CLOSE + after;
    assert rest[0] == ' ';
    DigitsRead(before, n, rest);
    CloseStands(before + d, after);
    NumberIsRead(before + d + rest, |before|, |before + d|, |before + d| + 1);
    DecimalReadsBack(n);
  }

  lemma NameStands(before: string, rest: string)
    ensures var body := before + (OPEN + (" " + (NAME + rest)));
      MarkerAt(body, |before|) == NumberAt(body, |before + (OPEN + (" " + NAME))|)
  {
    var body, named := before + (OPEN + (" " + (NAME + rest))), NAME + rest;
    Regroup(before, OPEN, " " + named);
    WordReads(before, OPEN, " " + named);
    Regroup(before + OPEN, " ", named);
    assert named[0] == NAME[0];
    OneBlank(before + OPEN, named);
    Regroup(before + OPEN + " ", NAME, rest);
    WordReads(before + OPEN + " ", NAME, rest);
  }

  lemma MarkerStands(before: string, n: nat, after: string)
    ensures MarkerAt(before + Marker(n) + after, |before|) == Some(n)
  {
    var d, close := Decimal(n), " " + CLOSE + after;
    var front := OPEN + (" " + NAME);
    MarkerGroups(before, d, after);
    NameStands(before, d + close);
    NumberStands(before + front, n, after);
  }

  lemma MarkerGroups(before: string, d: string, after: string)
    ensures before + (OPEN + " " + NAME + d + " " + CLOSE) + after == before + (OPEN + (" " + (NAME + (d + (" " + CLOSE + after)))))
    ensures before + (OPEN + " " + NAME + d + " " + CLOSE) + after == before + (OPEN + (" " + NAME)) + d + (" " + CLOSE + after)
  {
  }

  lemma {:induction false} FirstSomeIs(at: nat -> Option<nat>, i: nat, k: nat, n: nat)
    requires i <= k < n && at(k).Some? && forall j: nat :: i <= j < k ==> at(j).None?
    ensures FirstSome(at, i, n) == at(k)
    decreases k - i
  {
    if i < k { FirstSomeIs(at, i + 1, k, n); }
  }

  lemma {:induction false} FirstSomeNone(at: nat -> Option<nat>, i: nat, n: nat)
    requires i <= n && forall j: nat :: i <= j < n ==> at(j).None?
    ensures FirstSome(at, i, n).None?
    decreases n - i
  {
    if i < n { FirstSomeNone(at, i + 1, n); }
  }

  lemma MarkerStartsWithBracket(body: string, i: nat)
    ensures MarkerAt(body, i).Some? ==> i < |body| && body[i] == '<'
  {
    if MarkerAt(body, i).Some? {
      assert Lower(body[i + 0]) == OPEN[0];
    }
  }

  /** Reading back a written marker, whatever follows it and whatever precedes it without a `<`. */
  lemma MarkerReadsBack(before: string, n: nat, after: string)
    requires '<' !in before
    ensures ParseReplyTarget(before + Marker(n) + after) == Some(n as int)
  {
    var body := before + Marker(n) + after;
    MarkerStands(before, n, after);
    forall k: nat | k < |before| ensures MarkersIn(body)(k).None? {
      assert body[k] == before[k];
      MarkerStartsWithBracket(body, k);
    }
    FirstSomeIs(MarkersIn(body), 0, |before|, |body|);
  }

  /** Text without a `<` names no parent. */
  lemma NoMarker(body: string)
    requires '<' !in body
    ensures ParseReplyTarget(body).None?
  {
    forall k: nat | k < |body| ensures MarkersIn(body)(k).None? {
      MarkerStartsWithBracket(body, k);
    }
    FirstSomeNone(MarkersIn(body), 0, |body|);
  }

  // ---------------------------------------------------------------- exactly which markers are read

  ghost predicate BlankFrom(body: string, i: nat, j: nat) {
    i <= j <= |body| && forall k :: i <= k < j ==> IsBlank(body[k])
  }

  ghost predicate DigitsFrom(body: string, i: nat, j: nat) {
    i <= j <= |body| && forall k :: i <= k < j ==> IsDigit(body[k])
  }

  /** `<!--`, blanks, `issuehub-parent:` in any case, the digits of a number, blanks, `-->`. */
  ghost predicate MarkerOf(body: string, i: nat, name: nat, end: nat, close: nat) {
    && i + 4 <= name && name + 16 < end <= close && close + 3 <= |body|
    && body[i..i + 4] == "<!--" && BlankFrom(body, i + 4, name)
    && AsciiLower(body[name..name + 16]) == "issuehub-parent:"
    && DigitsFrom(body, name + 16, end) && BlankFrom(body, end, close) && body[close..close + 3] == "-->"
  }

  lemma {:induction false} SkipsBlanks(body: string, i: nat)
    requires i <= |body|
    ensures BlankFrom(body, i, SkipBlanks(body, i))
    decreases |body| - i
  {
    if i < |body| && IsBlank(body[i]) { SkipsBlanks(body, i + 1); }
  }

  lemma {:induction false} BlanksEnd(body: string, i: nat, j: nat)
    requires BlankFrom(body, i, j) && (j < |body| ==> !IsBlank(body[j]))
    ensures SkipBlanks(body, i) == j
    decreases j - i
  {
    if i < j { BlanksEnd(body, i + 1, j); }
  }

  lemma ReadsLowered(body: string, i: nat, word: string)
    requires i + |word| <= |body|
    ensures ReadsAt(body, i, word) <==> AsciiLower(body[i..i + |word|]) == word
  {
    var part := body[i..i + |word|];
    forall k | 0 <= k < |word| ensures AsciiLower(part)[k] == Lower(body[i + k]) {
      assert part[k] == body[i + k];
    }
  }

  lemma LoweredSigns(part: string, word: string)
    requires |part| == |word| && forall k :: 0 <= k < |word| ==> word[k] in "<!->"
    ensures AsciiLower(part) == word <==> part == word
  {
    if AsciiLower(part) == word {
      forall k | 0 <= k < |word| ensures part[k] == word[k] { assert AsciiLower(part)[k] == word[k]; }
    }
    if part == word {
      forall k | 0 <= k < |word| ensures AsciiLower(part)[k] == word[k] { assert part[k] == word[k]; }
    }
  }

  lemma SignsRead(body: string, i: nat, word: string)
    requires word == OPEN || word == CLOSE
    ensures ReadsAt(body, i, word) <==> i + |word| <= |body| && body[i..i + |word|] == word
  {
    if i + |word| <= |body| {
      ReadsLowered(body, i, word);
      LoweredSigns(body[i..i + |word|], word);
    }
  }

  lemma NumberIsReadAt(body: string, i: nat, end: nat, close: nat)
    requires i < end <= close && close + 3 <= |body| && DigitsFrom(body, i, end) && BlankFrom(body, end, close)
    requires body[close..close + 3] == "-->"
    ensures NumberAt(body, i) == Some(Number(body[i..end]))
  {
    assert body[close] == body[close..close + 3][0] == '-';
    SkipDigitsTo(body, i, end);
    BlanksEnd(body, end, close);
    SignsRead(body, close, CLOSE);
  }

  lemma MarkerIsRead(body: string, i: nat, name: nat, end: nat, close: nat)
    requires MarkerOf(body, i, name, end, close)
    ensures MarkerAt(body, i) == Some(Number(body[name + 16..end]))
  {
    NumberIsReadAt(body, name + 16, end, close);
    SignsRead(body, i, OPEN);
    ReadsLowered(body, name, NAME);
    assert Lower(body[name + 0]) == NAME[0];
    BlanksEnd(body, i + 4, name);
  }

  lemma ReadIsMarker(body: string, i: nat) returns (name: nat, end: nat, close: nat)
    requires MarkerAt(body, i).Some?
    ensures MarkerOf(body, i, name, end, close)
  {
    name := SkipBlanks(body, i + 4);
    end := SkipDigits(body, name + 16);
    close := SkipBlanks(body, end);
    SignsRead(body, i, OPEN);
    ReadsLowered(body, name, NAME);
    SignsRead(body, close, CLOSE);
    SkipsBlanks(body, i + 4);
    SkipsBlanks(body, end);
  }

  ghost predicate SomeMarkerAt(body: string, i: nat) {
    exists name: nat, end: nat, close: nat :: MarkerOf(body, i, name, end, close)
  }

  lemma {:induction false} FirstSomeAt(at: nat -> Option<nat>, i: nat, n: nat) returns (k: nat)
    requires i <= n && FirstSome(at, i, n).Some?
    ensures i <= k < n && at(k).Some?
    decreases n - i
  {
    if at(i).Some? { k := i; } else { k := FirstSomeAt(at, i + 1, n); }
  }

  lemma {:induction false} FirstSomeMissed(at: nat -> Option<nat>, i: nat, k: nat, n: nat)
    requires i <= k < n && at(k).Some?
    ensures FirstSome(at, i, n).Some?
    decreases n - i
  {
    if i < k && at(i).None? { FirstSomeMissed(at, i + 1, k, n); }
  }

  lemma NothingReadAt(body: string, i: nat)
    requires !SomeMarkerAt(body, i)
    ensures MarkerAt(body, i).None?
  {
    if MarkerAt(body, i).Some? { var n, e, c := ReadIsMarker(body, i); }
  }

  lemma FirstMarkerIs(body: string, i: nat)
    requires i < |body| && MarkerAt(body, i).Some? && forall j: nat :: j < i ==> MarkerAt(body, j).None?
    ensures FirstMarker(body) == MarkerAt(body, i)
  {
    forall j: nat | j < i ensures MarkersIn(body)(j).None? {
      assert MarkerAt(body, j).None?;
    }
    FirstSomeIs(MarkersIn(body), 0, i, |body|);
  }

  /** The first marker is read, whatever its blanks and letters and whatever stands around it. */
  lemma FirstMarkerIsRead(body: string, i: nat, name: nat, end: nat, close: nat)
    requires MarkerOf(body, i, name, end, close) && forall j: nat :: j < i ==> !SomeMarkerAt(body, j)
    ensures ParseReplyTarget(body) == Some(Number(body[name + 16..end]) as int)
  {
    MarkerIsRead(body, i, name, end, close);
    forall j: nat | j < i ensures MarkerAt(body, j).None? { NothingReadAt(body, j); }
    FirstMarkerIs(body, i);
  }

  /** A comment names a parent if and only if its text has a marker. */
  lemma TargetIffMarker(body: string)
    ensures ParseReplyTarget(body).Some? <==> exists i: nat :: SomeMarkerAt(body, i)
  {
    if FirstMarker(body).Some? {
      var k := FirstSomeAt(MarkersIn(body), 0, |body|);
      var n, e, c := ReadIsMarker(body, k);
      assert SomeMarkerAt(body, k);
    }
    if i: nat :| SomeMarkerAt(body, i) {
      var name: nat, end: nat, close: nat :| MarkerOf(body, i, name, end, close);
      MarkerIsRead(body, i, name, end, close);
      FirstSomeMissed(MarkersIn(body), 0, i, |body|);
    }
  }

  /** What the regular expression takes for a blank. */
  lemma BlanksOfTheRegex(c: char)
    ensures IsBlank(c) <==> c as int in {
      0x9, 0xa, 0xb, 0xc, 0xd, 0x20, 0xa0, 0x1680, 0x2000, 0x2001, 0x2002, 0x2003, 0x2004, 0x2005, 0x2006, 0x2007, 0x2008,
      0x2009, 0x200a, 0x2028, 0x2029, 0x202f, 0x205f, 0x3000, 0xfeff}
  {
    assert " \t\n\r" == [0x20 as char, 0x9 as char, 0xa as char, 0xd as char];
  }
}
