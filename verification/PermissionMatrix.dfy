/**
 * Editing who may do what: by project, by issue, by user, and when an invited person
 * becomes a user.
 */
module PermissionMatrix {
  import opened Wrappers
  import opened Grants

  const PROJECT_OPTIONS := ["view", "create_issue", "admin"]
  const ISSUE_OPTIONS := ["read", "comment", "edit", "admin"]

  datatype AccessError = BadPermission | BadSubject | Repeated | UnknownScope | UnknownUser

  /** One line of a project's access request. */
  datatype Assignment = Assignment(subjectType: string, subjectId: string, permission: string)

  /** One line of a user's or an issue's request: the project or issue, or the user, and a permission. */
  datatype Entry = Entry(id: Id, permission: string)

  // ---------------------------------------------------------------- checking a request

  predicate Assigned(lines: seq<Assignment>, subjectType: string, subjectId: string) {
    exists i :: 0 <= i < |lines| && lines[i].subjectType == subjectType && lines[i].subjectId == subjectId
  }

  /** The first thing wrong with a project's request, line by line. */
  function RequestError(lines: seq<Assignment>): Option<AccessError> {
    if lines == [] then None
    else
      var front, last := lines[..|lines| - 1], lines[|lines| - 1];
      if RequestError(front).Some? then RequestError(front)
      else if last.permission !in PROJECT_OPTIONS then Some(BadPermission)
      else if last.subjectType != "user" && last.subjectType != "email" then Some(BadSubject)
      else if Assigned(front, last.subjectType, last.subjectId) then Some(Repeated)
      else None
  }

  predicate Listed(entries: seq<Entry>, id: Id) {
    exists i :: 0 <= i < |entries| && entries[i].id == id
  }

  function EntryError(entries: seq<Entry>, options: seq<string>): Option<AccessError> {
    if entries == [] then None
    else
      var front, last := entries[..|entries| - 1], entries[|entries| - 1];
      if EntryError(front, options).Some? then EntryError(front, options)
      else if last.permission !in options then Some(BadPermission)
      else if Listed(front, last.id) then Some(Repeated)
      else None
  }

  function SeenKey(a: Assignment): string {
    a.subjectType + ":" + a.subjectId
  }

  /** The joined key tells subjects apart, whatever colons an id contains. */
  lemma SeenKeyIsExact(a: Assignment, b: Assignment)
    requires a.subjectType == "user" || a.subjectType == "email"
    requires b.subjectType == "user" || b.subjectType == "email"
    ensures SeenKey(a) == SeenKey(b) <==> a.subjectType == b.subjectType && a.subjectId == b.subjectId
  {
    assert SeenKey(a)[0] == a.subjectType[0] && SeenKey(b)[0] == b.subjectType[0];
    if a.subjectType == b.subjectType {
      var n := |a.subjectType| + 1;
      assert SeenKey(a)[n..] == a.subjectId && SeenKey(b)[n..] == b.subjectId;
    }
  }

  lemma {:induction false} CheckedRequest(lines: seq<Assignment>)
    requires RequestError(lines).None?
    ensures forall i :: 0 <= i < |lines| ==>
      lines[i].permission in PROJECT_OPTIONS && (lines[i].subjectType == "user" || lines[i].subjectType == "email")
    ensures forall i, k :: 0 <= i < k < |lines| ==> lines[i].subjectType != lines[k].subjectType || lines[i].subjectId != lines[k].subjectId
  {
    if lines != [] { CheckedRequest(lines[..|lines| - 1]); }
  }

  lemma {:induction false} CheckedEntries(entries: seq<Entry>, options: seq<string>)
    requires EntryError(entries, options).None?
    ensures forall i :: 0 <= i < |entries| ==> entries[i].permission in options
    ensures forall i, k :: 0 <= i < k < |entries| ==> entries[i].id != entries[k].id
  {
    if entries != [] { CheckedEntries(entries[..|entries| - 1], options); }
  }

  /** A project's request is accepted if and only if every line is good and no subject comes twice. */
  lemma {:induction false} AcceptedIfGood(lines: seq<Assignment>)
    ensures RequestError(lines).None? <==>
      && (forall i :: 0 <= i < |lines| ==>
            lines[i].permission in {"view", "create_issue", "admin"} && lines[i].subjectType in {"user", "email"})
      && (forall i, k :: 0 <= i < k < |lines| ==> lines[i].subjectType != lines[k].subjectType || lines[i].subjectId != lines[k].subjectId)
  {
    if lines != [] {
      var front, last := lines[..|lines| - 1], lines[|lines| - 1];
      AcceptedIfGood(front);
      ProjectOptionsAre(last.permission);
      assert lines == front + [last];
    }
  }

  lemma ProjectOptionsAre(permission: string)
    ensures permission in PROJECT_OPTIONS <==> permission in {"view", "create_issue", "admin"}
    ensures permission in ISSUE_OPTIONS <==> permission in {"read", "comment", "edit", "admin"}
  {
  }

  /** What is wrong with a line behind the good lines `front`. */
  ghost function LineError(front: seq<Assignment>, line: Assignment): Option<AccessError> {
    if line.permission !in {"view", "create_issue", "admin"} then Some(BadPermission)
    else if line.subjectType !in {"user", "email"} then Some(BadSubject)
    else if exists i :: 0 <= i < |front| && front[i].subjectType == line.subjectType && front[i].subjectId == line.subjectId then Some(Repeated)
    else None
  }

  lemma SubjectTypesAre(subjectType: string)
    ensures subjectType in {"user", "email"} <==> subjectType == "user" || subjectType == "email"
  {
  }

  lemma NextLine(front: seq<Assignment>, line: Assignment)
    requires RequestError(front).None?
    ensures RequestError(front + [line]) == LineError(front, line)
  {
    ProjectOptionsAre(line.permission);
    SubjectTypesAre(line.subjectType);
    assert (front + [line])[..|front|] == front;
  }

  /** The first bad line decides the error: its permission before its subject type before a repetition. */
  lemma {:induction false} FirstBadLine(lines: seq<Assignment>, k: nat)
    requires k < |lines| && RequestError(lines[..k]).None? && LineError(lines[..k], lines[k]).Some?
    ensures RequestError(lines) == LineError(lines[..k], lines[k])
  {
    NextLine(lines[..k], lines[k]);
    assert lines[..k + 1] == lines[..k] + [lines[k]];
    FirstErrorStays(lines, k + 1);
  }

  /** The lines of a user's or an issue's request, likewise. */
  lemma {:induction false} EntriesAcceptedIfGood(entries: seq<Entry>, options: seq<string>)
    ensures EntryError(entries, options).None? <==>
      && (forall i :: 0 <= i < |entries| ==> entries[i].permission in options)
      && (forall i, k :: 0 <= i < k < |entries| ==> entries[i].id != entries[k].id)
  {
    if entries != [] {
      var front, last := entries[..|entries| - 1], entries[|entries| - 1];
      EntriesAcceptedIfGood(front, options);
      assert entries == front + [last];
    }
  }

  /** The first bad line again decides, its permission before a repetition. */
  lemma {:induction false} FirstBadEntry(entries: seq<Entry>, options: seq<string>, k: nat)
    requires k < |entries| && EntryError(entries[..k], options).None?
    ensures entries[k].permission !in options ==> EntryError(entries, options) == Some(BadPermission)
    ensures entries[k].permission in options && Listed(entries[..k], entries[k].id) ==> EntryError(entries, options) == Some(Repeated)
  {
    assert entries[..k + 1][..k] == entries[..k];
    FirstEntryErrorStays(entries, options, k + 1);
  }

  method CheckRequest(lines: seq<Assignment>) returns (error: Option<AccessError>)
    ensures error == RequestError(lines)
  {
    var seen: set<string> := {};
    for i := 0 to |lines|
      invariant RequestError(lines[..i]).None?
      invariant forall key :: key in seen <==> exists k :: 0 <= k < i && SeenKey(lines[k]) == key
    {
      var a := lines[i];
      assert lines[..i + 1][..i] == lines[..i];
      FirstErrorStays(lines, i + 1);
      CheckedRequest(lines[..i]);
      if a.permission !in PROJECT_OPTIONS { return Some(BadPermission); }
      if a.subjectType != "user" && a.subjectType != "email" { return Some(BadSubject); }
      SeenBefore(lines, i);
      if SeenKey(a) in seen { return Some(Repeated); }
      seen := seen + {SeenKey(a)};
    }
    assert lines[..|lines|] == lines;
    error := None;
  }

  lemma {:induction false} FirstErrorStays(lines: seq<Assignment>, n: nat)
    requires n <= |lines|
    ensures RequestError(lines[..n]).Some? ==> RequestError(lines) == RequestError(lines[..n])
  {
    if n == |lines| {
      assert lines[..n] == lines;
    } else {
      FirstErrorStays(lines[..|lines| - 1], n);
      assert lines[..|lines| - 1][..n] == lines[..n];
    }
  }

  lemma SeenBefore(lines: seq<Assignment>, i: nat)
    requires i < |lines| && RequestError(lines[..i]).None?
    requires lines[i].subjectType == "user" || lines[i].subjectType == "email"
    ensures Assigned(lines[..i], lines[i].subjectType, lines[i].subjectId) <==> exists k :: 0 <= k < i && SeenKey(lines[k]) == SeenKey(lines[i])
  {
    CheckedRequest(lines[..i]);
    forall k | 0 <= k < i
      ensures SeenKey(lines[k]) == SeenKey(lines[i]) <==> lines[k].subjectType == lines[i].subjectType && lines[k].subjectId == lines[i].subjectId
    {
      assert lines[..i][k] == lines[k];
      SeenKeyIsExact(lines[k], lines[i]);
    }
    if Assigned(lines[..i], lines[i].subjectType, lines[i].subjectId) {
      var k :| 0 <= k < i && lines[..i][k].subjectType == lines[i].subjectType && lines[..i][k].subjectId == lines[i].subjectId;
      assert SeenKey(lines[k]) == SeenKey(lines[i]);
    }
    forall k | 0 <= k < i && SeenKey(lines[k]) == SeenKey(lines[i]) ensures Assigned(lines[..i], lines[i].subjectType, lines[i].subjectId) {
      assert lines[..i][k] == lines[k];
    }
  }

  method CheckEntries(entries: seq<Entry>, options: seq<string>) returns (error: Option<AccessError>)
    ensures error == EntryError(entries, options)
  {
    var seen: set<Id> := {};
    for i := 0 to |entries|
      invariant EntryError(entries[..i], options).None?
      invariant forall id :: id in seen <==> Listed(entries[..i], id)
    {
      assert entries[..i + 1][..i] == entries[..i];
      FirstEntryErrorStays(entries, options, i + 1);
      if entries[i].permission !in options { return Some(BadPermission); }
      if entries[i].id in seen { return Some(Repeated); }
      seen := seen + {entries[i].id};
      ListedNext(entries, i);
    }
    assert entries[..|entries|] == entries;
    error := None;
  }

  lemma ListedNext(entries: seq<Entry>, i: nat)
    requires i < |entries|
    ensures forall id :: Listed(entries[..i + 1], id) <==> Listed(entries[..i], id) || id == entries[i].id
  {
    var front, next := entries[..i], entries[..i + 1];
    assert next[i] == entries[i];
    forall id | Listed(front, id) ensures Listed(next, id) {
      var k :| 0 <= k < i && front[k].id == id;
      assert next[k].id == id;
    }
    forall k | 0 <= k < |next| ensures Listed(front, next[k].id) || next[k].id == entries[i].id {
      if k < i { assert front[k] == next[k]; }
    }
  }

  lemma {:induction false} FirstEntryErrorStays(entries: seq<Entry>, options: seq<string>, n: nat)
    requires n <= |entries|
    ensures EntryError(entries[..n], options).Some? ==> EntryError(entries, options) == EntryError(entries[..n], options)
  {
    if n == |entries| {
      assert entries[..n] == entries;
    } else {
      FirstEntryErrorStays(entries[..|entries| - 1], options, n);
      assert entries[..|entries| - 1][..n] == entries[..n];
    }
  }

  // ---------------------------------------------------------------- the rows a request becomes

  function OfScope(scope: Id): Key -> bool {
    (k: Key) => k.scope == scope
  }

  function OfSubject(subjectType: string, subjectId: string): Key -> bool {
    (k: Key) => k.subjectType == subjectType && k.subjectId == subjectId
  }

  function UsersOf(scope: Id): Key -> bool {
    (k: Key) => k.scope == scope && k.subjectType == "user"
  }

  function ProjectRows(project: Id, lines: seq<Assignment>): (rows: Table)
    ensures |rows| == |lines| && forall i :: 0 <= i < |lines| ==>
      rows[i] == Grant(project, lines[i].subjectType, lines[i].subjectId, lines[i].permission, "allow")
  {
    seq(|lines|, i requires 0 <= i < |lines| =>
      Grant(project, lines[i].subjectType, lines[i].subjectId, lines[i].permission, "allow"))
  }

  function UserRows(user: Id, entries: seq<Entry>): (rows: Table)
    ensures |rows| == |entries| && forall i :: 0 <= i < |entries| ==> rows[i] == Grant(entries[i].id, "user", user, entries[i].permission, "allow")
  {
    seq(|entries|, i requires 0 <= i < |entries| => Grant(entries[i].id, "user", user, entries[i].permission, "allow"))
  }

  function IssueRows(issue: Id, entries: seq<Entry>): (rows: Table)
    ensures |rows| == |entries| && forall i :: 0 <= i < |entries| ==> rows[i] == Grant(issue, "user", entries[i].id, entries[i].permission, "allow")
  {
    seq(|entries|, i requires 0 <= i < |entries| => Grant(issue, "user", entries[i].id, entries[i].permission, "allow"))
  }

  function SetProject(rows: Table, project: Id, lines: seq<Assignment>): Table {
    Without(rows, OfScope(project)) + ProjectRows(project, lines)
  }

  function SetUser(rows: Table, user: Id, entries: seq<Entry>): Table {
    Without(rows, OfSubject("user", user)) + UserRows(user, entries)
  }

  function SetIssue(rows: Table, issue: Id, entries: seq<Entry>): Table {
    Without(rows, UsersOf(issue)) + IssueRows(issue, entries)
  }

  /** The email's rows, rewritten to the new user. */
  function Copies(rows: Table, email: string, user: Id): Table {
    if rows == [] then []
    else
      var front, last := Copies(rows[..|rows| - 1], email, user), rows[|rows| - 1];
      if OfSubject("email", email)(KeyOf(last)) then front + [last.(subjectType := "user", subjectId := user)] else front
  }

  /** Project grants move to the user, merged with what the user already has. */
  function MoveProjects(rows: Table, email: string, user: Id): Table {
    Without(MergeAll(rows, Copies(rows, email, user)), OfSubject("email", email))
  }

  /** Issue grants move unless the user already has the very same one. */
  function NewCopies(rows: Table, all: Table, email: string, user: Id): Table {
    if rows == [] then []
    else
      var front, last := NewCopies(rows[..|rows| - 1], all, email, user), rows[|rows| - 1];
      var copy := last.(subjectType := "user", subjectId := user);
      if OfSubject("email", email)(KeyOf(last)) && copy !in all then front + [copy] else front
  }

  function MoveIssues(rows: Table, email: string, user: Id): Table {
    Without(rows + NewCopies(rows, rows, email, user), OfSubject("email", email))
  }

  function Ids(entries: seq<Entry>): set<Id> {
    set i | 0 <= i < |entries| :: entries[i].id
  }

  predicate AllIn(entries: seq<Entry>, known: set<Id>) {
    forall i :: 0 <= i < |entries| ==> entries[i].id in known
  }

  lemma {:induction false} DistinctIds(entries: seq<Entry>)
    requires forall i, k :: 0 <= i < k < |entries| ==> entries[i].id != entries[k].id
    ensures |Ids(entries)| == |entries|
  {
    if entries != [] {
      var front, last := entries[..|entries| - 1], entries[|entries| - 1];
      DistinctIds(front);
      assert Ids(entries) == Ids(front) + {last.id};
    }
  }

  /** Counting the rows found is enough to know that every id asked for exists. */
  lemma KnownByCount(entries: seq<Entry>, options: seq<string>, known: set<Id>)
    requires EntryError(entries, options).None?
    ensures |known * Ids(entries)| == |entries| <==> AllIn(entries, known)
  {
    CheckedEntries(entries, options);
    DistinctIds(entries);
    var found, asked := known * Ids(entries), Ids(entries);
    assert asked == found + (asked - known);
    assert |asked| == |found| + |asked - known|;
    if |found| == |entries| { assert asked - known == {}; }
    forall i | 0 <= i < |entries| ensures entries[i].id in asked {
    }
    if AllIn(entries, known) { assert found == asked; }
  }

  function UserRequestError(projectEntries: seq<Entry>, issueEntries: Option<seq<Entry>>, projects: set<Id>, issues: set<Id>): Option<AccessError> {
    if EntryError(projectEntries, PROJECT_OPTIONS).Some? then EntryError(projectEntries, PROJECT_OPTIONS)
    else if issueEntries.Some? && EntryError(issueEntries.value, ISSUE_OPTIONS).Some? then EntryError(issueEntries.value, ISSUE_OPTIONS)
    else if !AllIn(projectEntries, projects) then Some(UnknownScope)
    else if issueEntries.Some? && !AllIn(issueEntries.value, issues) then Some(UnknownScope)
    else None
  }

  ghost predicate GoodEntries(entries: seq<Entry>, permissions: set<string>, known: set<Id>) {
    && (forall i :: 0 <= i < |entries| ==> entries[i].permission in permissions && entries[i].id in known)
    && (forall i, k :: 0 <= i < k < |entries| ==> entries[i].id != entries[k].id)
  }

  /** An issue's or a user's request is accepted if and only if all its lines are good, known and different. */
  lemma UserRequestAccepted(entries: seq<Entry>, issueEntries: Option<seq<Entry>>, projects: set<Id>, issues: set<Id>)
    ensures UserRequestError(entries, issueEntries, projects, issues).None? <==>
      && GoodEntries(entries, {"view", "create_issue", "admin"}, projects)
      && (issueEntries.Some? ==> GoodEntries(issueEntries.value, {"read", "comment", "edit", "admin"}, issues))
    ensures EntryError(entries, ISSUE_OPTIONS).None? && AllIn(entries, projects) <==>
      GoodEntries(entries, {"read", "comment", "edit", "admin"}, projects)
  {
    forall permission: string
      ensures permission in PROJECT_OPTIONS <==> permission in {"view", "create_issue", "admin"}
      ensures permission in ISSUE_OPTIONS <==> permission in {"read", "comment", "edit", "admin"}
    {
      ProjectOptionsAre(permission);
    }
    EntriesAcceptedIfGood(entries, PROJECT_OPTIONS);
    EntriesAcceptedIfGood(entries, ISSUE_OPTIONS);
    if issueEntries.Some? { EntriesAcceptedIfGood(issueEntries.value, ISSUE_OPTIONS); }
  }

  /** Bad lines for projects come before bad lines for issues, and all of them before unknown ids. */
  lemma UserErrorsInOrder(entries: seq<Entry>, issueEntries: Option<seq<Entry>>, projects: set<Id>, issues: set<Id>)
    ensures var error := UserRequestError(entries, issueEntries, projects, issues);
      && (EntryError(entries, PROJECT_OPTIONS).Some? ==> error == EntryError(entries, PROJECT_OPTIONS))
      && (EntryError(entries, PROJECT_OPTIONS).None? && issueEntries.Some? && EntryError(issueEntries.value, ISSUE_OPTIONS).Some? ==>
            error == EntryError(issueEntries.value, ISSUE_OPTIONS))
      && (error == Some(UnknownScope) ==>
            && EntryError(entries, PROJECT_OPTIONS).None? && (issueEntries.Some? ==> EntryError(issueEntries.value, ISSUE_OPTIONS).None?)
            && ((exists i :: 0 <= i < |entries| && entries[i].id !in projects)
                || (issueEntries.Some? && exists i :: 0 <= i < |issueEntries.value| && issueEntries.value[i].id !in issues)))
      && error != Some(UnknownUser)
  {
    NoOtherEntryErrors(entries, PROJECT_OPTIONS);
    if issueEntries.Some? { NoOtherEntryErrors(issueEntries.value, ISSUE_OPTIONS); }
  }

  lemma {:induction false} NoOtherEntryErrors(entries: seq<Entry>, options: seq<string>)
    ensures EntryError(entries, options) in {None, Some(BadPermission), Some(Repeated)}
  {
    if entries != [] { NoOtherEntryErrors(entries[..|entries| - 1], options); }
  }

  // ---------------------------------------------------------------- what an update means, key by key

  /** Exactly the requested subjects hold the project, with the requested permission; other projects are as before. */
  lemma SetProjectLooksUp(rows: Table, project: Id, lines: seq<Assignment>)
    requires UniqueKeys(rows) && RequestError(lines).None?
    ensures UniqueKeys(SetProject(rows, project, lines))
    ensures forall i :: 0 <= i < |lines| ==>
      Lookup(SetProject(rows, project, lines), Key(project, lines[i].subjectType, lines[i].subjectId))
        == Some(Grant(project, lines[i].subjectType, lines[i].subjectId, lines[i].permission, "allow"))
    ensures forall key :: (
      Lookup(SetProject(rows, project, lines), key)
        == if key.scope != project then Lookup(rows, key) else Lookup(ProjectRows(project, lines), key))
    ensures forall key: Key :: key.scope == project && !Assigned(lines, key.subjectType, key.subjectId) ==>
      Lookup(ProjectRows(project, lines), key).None?
  {
    var kept, added := Without(rows, OfScope(project)), ProjectRows(project, lines);
    CheckedRequest(lines);
    WithoutUnique(rows, OfScope(project));
    WithoutLeaves(rows, OfScope(project));
    AppendUnique(kept, added);
    forall key ensures Lookup(kept + added, key) == if key.scope != project then Lookup(rows, key) else Lookup(added, key) {
      LookupAppend(kept, added, key);
      LookupWithout(rows, OfScope(project), key);
      LookupFinds(added, key);
    }
    forall i | 0 <= i < |lines| ensures Lookup(added, KeyOf(added[i])) == Some(added[i]) {
      LookupUnique(added, i);
    }
    forall key: Key | !Assigned(lines, key.subjectType, key.subjectId) ensures Lookup(added, key).None? {
      LookupFinds(added, key);
    }
  }

  /** Exactly the requested scopes are granted to the user; other subjects are as before. */
  lemma SetUserLooksUp(rows: Table, user: Id, entries: seq<Entry>, options: seq<string>)
    requires UniqueKeys(rows) && EntryError(entries, options).None?
    ensures UniqueKeys(SetUser(rows, user, entries))
    ensures forall i :: 0 <= i < |entries| ==>
      Lookup(SetUser(rows, user, entries), Key(entries[i].id, "user", user)) == Some(Grant(entries[i].id, "user", user, entries[i].permission, "allow"))
    ensures forall key :: (
      Lookup(SetUser(rows, user, entries), key)
        == if OfSubject("user", user)(key) then Lookup(UserRows(user, entries), key) else Lookup(rows, key))
    ensures forall key: Key :: !Listed(entries, key.scope) ==> Lookup(UserRows(user, entries), key).None?
  {
    var gone := OfSubject("user", user);
    var kept, added := Without(rows, gone), UserRows(user, entries);
    CheckedEntries(entries, options);
    WithoutUnique(rows, gone);
    WithoutLeaves(rows, gone);
    AppendUnique(kept, added);
    forall key ensures Lookup(kept + added, key) == if gone(key) then Lookup(added, key) else Lookup(rows, key) {
      LookupAppend(kept, added, key);
      LookupWithout(rows, gone, key);
      LookupFinds(added, key);
    }
    forall i | 0 <= i < |entries| ensures Lookup(added, KeyOf(added[i])) == Some(added[i]) {
      LookupUnique(added, i);
    }
    forall key: Key | !Listed(entries, key.scope) ensures Lookup(added, key).None? {
      LookupFinds(added, key);
    }
  }

  lemma {:induction false} CopiesAreMoved(rows: Table, email: string, user: Id)
    ensures forall i :: 0 <= i < |Copies(rows, email, user)| ==>
      var c := Copies(rows, email, user)[i]; OfSubject("user", user)(KeyOf(c)) && HasKey(rows, Key(c.scope, "email", email))
  {
    if rows != [] {
      var front := rows[..|rows| - 1];
      CopiesAreMoved(front, email, user);
      forall key | HasKey(front, key) ensures HasKey(rows, key) {
        var i :| 0 <= i < |front| && KeyOf(front[i]) == key;
        assert KeyOf(rows[i]) == key;
      }
      assert HasKey(rows, KeyOf(rows[|rows| - 1]));
    }
  }

  lemma {:induction false} CopiesUnique(rows: Table, email: string, user: Id)
    requires UniqueKeys(rows)
    ensures UniqueKeys(Copies(rows, email, user))
  {
    if rows != [] {
      var front, last := rows[..|rows| - 1], rows[|rows| - 1];
      CopiesUnique(front, email, user);
      CopiesAreMoved(front, email, user);
      assert !HasKey(front, KeyOf(last));
    }
  }

  lemma {:induction false} LookupCopies(rows: Table, email: string, user: Id, key: Key)
    ensures Lookup(Copies(rows, email, user), key) ==
      if !OfSubject("user", user)(key) then None
      else match Lookup(rows, Key(key.scope, "email", email))
        case None => None
        case Some(g) => Some(g.(subjectType := "user", subjectId := user))
  {
    if rows != [] {
      var front, last := Copies(rows[..|rows| - 1], email, user), rows[|rows| - 1];
      LookupCopies(rows[..|rows| - 1], email, user, key);
      if OfSubject("email", email)(KeyOf(last)) {
        assert (front + [last.(subjectType := "user", subjectId := user)])[..|front|] == front;
      }
    }
  }

  lemma MoveKeepsUnique(rows: Table, email: string, user: Id)
    requires UniqueKeys(rows)
    ensures UniqueKeys(MoveProjects(rows, email, user))
  {
    MergeAllUnique(rows, Copies(rows, email, user));
    WithoutUnique(MergeAll(rows, Copies(rows, email, user)), OfSubject("email", email));
  }

  /**
   * Acceptance, key by key: the user holds its own grants and the email's, the stronger
   * where both had one; the email holds nothing; everybody else is as before.
   */
  lemma MoveLooksUp(rows: Table, email: string, user: Id, key: Key)
    requires UniqueKeys(rows)
    ensures Lookup(MoveProjects(rows, email, user), key) ==
      if OfSubject("email", email)(key) then None
      else if !OfSubject("user", user)(key) then Lookup(rows, key)
      else match Lookup(rows, Key(key.scope, "email", email))
        case None => Lookup(rows, key)
        case Some(g) =>
          (match Lookup(rows, key)
           case None => Some(Grant(key.scope, "user", user, g.permission, g.effect))
           case Some(held) => Some(Grant(key.scope, "user", user, Stronger(held.permission, g.permission), "allow")))
  {
    var copies := Copies(rows, email, user);
    CopiesUnique(rows, email, user);
    LookupMergeAll(rows, copies, key);
    LookupCopies(rows, email, user, key);
    LookupWithout(MergeAll(rows, copies), OfSubject("email", email), key);
  }

  lemma MoveToFreshUser(rows: Table, email: string, user: Id, project: Id)
    requires UniqueKeys(rows) && forall scope :: !HasKey(rows, Key(scope, "user", user))
    ensures Lookup(MoveProjects(rows, email, user), Key(project, "user", user)) ==
      match Lookup(rows, Key(project, "email", email))
        case None => None
        case Some(g) => Some(Grant(project, "user", user, g.permission, g.effect))
  {
    MoveLooksUp(rows, email, user, Key(project, "user", user));
    LookupFinds(rows, Key(project, "user", user));
  }

  datatype Invitation = Invitation(email: string, status: string, expiresAt: int)

  datatype InvitationError = InvitationNotFound | NoLongerPending | Expired | UserExists

  /** Why an invitation cannot be accepted; `emails` are those of the users. */
  function AcceptError(invitations: map<string, Invitation>, emails: set<string>, token: string, now: int): Option<InvitationError> {
    if token !in invitations then Some(InvitationNotFound)
    else if invitations[token].status != "pending" then Some(NoLongerPending)
    else if invitations[token].expiresAt <= now then Some(Expired)
    else if invitations[token].email in emails then Some(UserExists)
    else None
  }

  /** An invitation is accepted if and only if it is there, pending and not expired and its email is free; else the first of these says why not. */
  lemma WhenInvitationsAreAccepted(invitations: map<string, Invitation>, emails: set<string>, token: string, now: int)
    ensures var error := AcceptError(invitations, emails, token, now);
      && (error.None? <==>
            token in invitations && invitations[token].status == "pending"
            && now < invitations[token].expiresAt && invitations[token].email !in emails)
      && (error == Some(InvitationNotFound) <==> token !in invitations)
      && (error == Some(NoLongerPending) <==> token in invitations && invitations[token].status != "pending")
      && (error == Some(Expired) <==> token in invitations && invitations[token].status == "pending" && now >= invitations[token].expiresAt)
  {
  }

  class AccessTables {
    var projectGrants: Table
    var issueGrants: Table
    var invitations: map<string, Invitation>
    var emails: set<string>

    constructor ()
      ensures projectGrants == [] && issueGrants == [] && invitations == map[] && emails == {}
    {
      projectGrants, issueGrants, invitations, emails := [], [], map[], {};
    }

    method UpdateProjectAccess(project: Id, lines: seq<Assignment>) returns (error: Option<AccessError>)
      modifies `projectGrants
      ensures error == RequestError(lines)
      ensures projectGrants == if error.Some? then old(projectGrants) else SetProject(old(projectGrants), project, lines)
      ensures old(UniqueKeys(projectGrants)) ==> UniqueKeys(projectGrants)
    {
      error := CheckRequest(lines);
      if error.Some? { return; }
      if UniqueKeys(projectGrants) { SetProjectLooksUp(projectGrants, project, lines); }
      projectGrants := ReplaceProject(projectGrants, project, lines);
    }

    static method ReplaceProject(rows: Table, project: Id, lines: seq<Assignment>) returns (after: Table)
      ensures after == SetProject(rows, project, lines)
    {
      after := Without(rows, OfScope(project));
      for i := 0 to |lines|
        invariant after == Without(rows, OfScope(project)) + ProjectRows(project, lines)[..i]
      {
        after := after + [Grant(project, lines[i].subjectType, lines[i].subjectId, lines[i].permission, "allow")];
      }
    }

    method UpdateIssueAccess(issue: Id, entries: seq<Entry>, activeUsers: set<Id>) returns (error: Option<AccessError>)
      modifies `issueGrants
      ensures error == if EntryError(entries, ISSUE_OPTIONS).Some? then EntryError(entries, ISSUE_OPTIONS)
        else if AllIn(entries, activeUsers) then None else Some(UnknownUser)
      ensures issueGrants == if error.Some? then old(issueGrants) else SetIssue(old(issueGrants), issue, entries)
    {
      error := CheckEntries(entries, ISSUE_OPTIONS);
      if error.Some? { return; }
      KnownByCount(entries, ISSUE_OPTIONS, activeUsers);
      if |activeUsers * Ids(entries)| != |entries| { return Some(UnknownUser); }
      issueGrants := ReplaceIssue(issueGrants, issue, entries);
    }

    static method ReplaceIssue(rows: Table, issue: Id, entries: seq<Entry>) returns (after: Table)
      ensures after == SetIssue(rows, issue, entries)
    {
      after := Without(rows, UsersOf(issue));
      for i := 0 to |entries|
        invariant after == Without(rows, UsersOf(issue)) + IssueRows(issue, entries)[..i]
      {
        after := after + [Grant(issue, "user", entries[i].id, entries[i].permission, "allow")];
      }
    }

    method UpdateUserAccess(user: Id, projectEntries: seq<Entry>, issueEntries: Option<seq<Entry>>, projects: set<Id>, issues: set<Id>)
      returns (error: Option<AccessError>)
      modifies `projectGrants, `issueGrants
      ensures error == UserRequestError(projectEntries, issueEntries, projects, issues)
      ensures projectGrants == if error.Some? then old(projectGrants) else SetUser(old(projectGrants), user, projectEntries)
      ensures issueGrants == if error.Some? || issueEntries.None? then old(issueGrants) else SetUser(old(issueGrants), user, issueEntries.value)
      ensures old(UniqueKeys(projectGrants)) ==> UniqueKeys(projectGrants)
    {
      error := CheckEntries(projectEntries, PROJECT_OPTIONS);
      if error.Some? { return; }
      if issueEntries.Some? {
        error := CheckEntries(issueEntries.value, ISSUE_OPTIONS);
        if error.Some? { return; }
      }
      KnownByCount(projectEntries, PROJECT_OPTIONS, projects);
      if |projects * Ids(projectEntries)| != |projectEntries| { return Some(UnknownScope); }
      if issueEntries.Some? {
        KnownByCount(issueEntries.value, ISSUE_OPTIONS, issues);
        if |issues * Ids(issueEntries.value)| != |issueEntries.value| { return Some(UnknownScope); }
      }
      if UniqueKeys(projectGrants) { SetUserLooksUp(projectGrants, user, projectEntries, PROJECT_OPTIONS); }
      projectGrants := ReplaceUser(projectGrants, user, projectEntries);
      if issueEntries.Some? { issueGrants := ReplaceUser(issueGrants, user, issueEntries.value); }
    }

    static method ReplaceUser(rows: Table, user: Id, entries: seq<Entry>) returns (after: Table)
      ensures after == SetUser(rows, user, entries)
    {
      after := Without(rows, OfSubject("user", user));
      for i := 0 to |entries|
        invariant after == Without(rows, OfSubject("user", user)) + UserRows(user, entries)[..i]
      {
        after := after + [Grant(entries[i].id, "user", user, entries[i].permission, "allow")];
      }
    }

    /** The acceptance transaction; `user` is the id the inserted user gets. A refusal changes nothing. */
    method AcceptInvitation(token: string, now: int, user: Id) returns (error: Option<InvitationError>)
      modifies this
      ensures error == AcceptError(old(invitations), old(emails), token, now)
      ensures error.Some? ==>
        && projectGrants == old(projectGrants) && issueGrants == old(issueGrants)
        && invitations == old(invitations) && emails == old(emails)
      ensures error.None? ==>
        var email := old(invitations)[token].email;
        && projectGrants == MoveProjects(old(projectGrants), email, user)
        && issueGrants == MoveIssues(old(issueGrants), email, user)
        && emails == old(emails) + {email}
        && invitations == old(invitations)[token := old(invitations)[token].(status := "accepted")]
      ensures error.None? ==> forall later :: AcceptError(invitations, emails, token, later) == Some(NoLongerPending)
      ensures old(UniqueKeys(projectGrants)) ==> UniqueKeys(projectGrants)
    {
      if token !in invitations { return Some(InvitationNotFound); }
      var invitation := invitations[token];
      if invitation.status != "pending" { return Some(NoLongerPending); }
      if invitation.expiresAt <= now { return Some(Expired); }
      if invitation.email in emails { return Some(UserExists); }
      emails := emails + {invitation.email};
      if UniqueKeys(projectGrants) { MoveKeepsUnique(projectGrants, invitation.email, user); }
      projectGrants := MergeAll(projectGrants, Copies(projectGrants, invitation.email, user));
      projectGrants := Without(projectGrants, OfSubject("email", invitation.email));
      issueGrants := issueGrants + NewCopies(issueGrants, issueGrants, invitation.email, user);
      issueGrants := Without(issueGrants, OfSubject("email", invitation.email));
      invitations := invitations[token := invitation.(status := "accepted")];
      error := None;
    }
  }

  // ---------------------------------------------------------------- reading back

  predicate Shown(a: Assignment, activeUsers: set<Id>) {
    a.subjectType == "email" || (a.subjectType == "user" && a.subjectId in activeUsers)
  }

  /** The assignments `get_project_access` lists: users only while they are active. */
  function ProjectAssignments(rows: Table, activeUsers: set<Id>, project: Id): seq<Assignment> {
    if rows == [] then []
    else
      var front, last := ProjectAssignments(rows[..|rows| - 1], activeUsers, project), rows[|rows| - 1];
      var a := Assignment(last.subjectType, last.subjectId, last.permission);
      if last.scope == project && last.effect == "allow" && Shown(a, activeUsers) then front + [a] else front
  }

  /** A project lists exactly its allow rows: those for emails, and those for users while they are active. */
  lemma {:induction false} ListedIfAllowed(rows: Table, activeUsers: set<Id>, project: Id, a: Assignment)
    ensures a in ProjectAssignments(rows, activeUsers, project) <==>
      && Grant(project, a.subjectType, a.subjectId, a.permission, "allow") in rows
      && (a.subjectType == "email" || (a.subjectType == "user" && a.subjectId in activeUsers))
  {
    if rows != [] {
      ListedIfAllowed(rows[..|rows| - 1], activeUsers, project, a);
      assert rows == rows[..|rows| - 1] + [rows[|rows| - 1]];
    }
  }

  function ShownOnly(lines: seq<Assignment>, activeUsers: set<Id>): (r: seq<Assignment>)
    ensures |r| <= |lines|
  {
    if lines == [] then []
    else
      var front, last := ShownOnly(lines[..|lines| - 1], activeUsers), lines[|lines| - 1];
      if Shown(last, activeUsers) then front + [last] else front
  }

  lemma {:induction false} AssignmentsSplit(a: Table, b: Table, activeUsers: set<Id>, project: Id)
    ensures ProjectAssignments(a + b, activeUsers, project)
      == ProjectAssignments(a, activeUsers, project) + ProjectAssignments(b, activeUsers, project)
    decreases |b|
  {
    if b == [] {
      assert a + b == a;
    } else {
      assert (a + b)[..|a + b| - 1] == a + b[..|b| - 1];
      AssignmentsSplit(a, b[..|b| - 1], activeUsers, project);
    }
  }

  lemma {:induction false} NoAssignments(rows: Table, activeUsers: set<Id>, project: Id)
    requires forall i :: 0 <= i < |rows| ==> rows[i].scope != project
    ensures ProjectAssignments(rows, activeUsers, project) == []
  {
    if rows != [] { NoAssignments(rows[..|rows| - 1], activeUsers, project); }
  }

  lemma {:induction false} LinesShown(project: Id, lines: seq<Assignment>, activeUsers: set<Id>)
    ensures ProjectAssignments(ProjectRows(project, lines), activeUsers, project) == ShownOnly(lines, activeUsers)
  {
    if lines != [] {
      LinesShown(project, lines[..|lines| - 1], activeUsers);
      assert ProjectRows(project, lines)[..|lines| - 1] == ProjectRows(project, lines[..|lines| - 1]);
    }
  }

  lemma {:induction false} AllShown(lines: seq<Assignment>, activeUsers: set<Id>)
    ensures ShownOnly(lines, activeUsers) == lines <==> forall i :: 0 <= i < |lines| ==> Shown(lines[i], activeUsers)
  {
    if lines != [] {
      var front, last := lines[..|lines| - 1], lines[|lines| - 1];
      AllShown(front, activeUsers);
      assert lines == front + [last];
      if Shown(last, activeUsers) { SameLast(ShownOnly(front, activeUsers), front, last); }
    }
  }

  lemma SameLast<T>(a: seq<T>, b: seq<T>, x: T)
    ensures a + [x] == b + [x] <==> a == b
  {
    assert (a + [x])[..|a|] == a && (b + [x])[..|b|] == b;
    if a + [x] == b + [x] { assert |a| == |a + [x]| - 1 == |b|; }
  }

  /**
   * What a project-wise update stored is read back exactly if and only if every user in
   * the request is active.
   */
  lemma ProjectReadsBack(rows: Table, project: Id, lines: seq<Assignment>, activeUsers: set<Id>)
    requires RequestError(lines).None?
    ensures ProjectAssignments(SetProject(rows, project, lines), activeUsers, project) == lines
      <==> forall i :: 0 <= i < |lines| && lines[i].subjectType == "user" ==> lines[i].subjectId in activeUsers
  {
    var kept := Without(rows, OfScope(project));
    CheckedRequest(lines);
    WithoutLeaves(rows, OfScope(project));
    NoAssignments(kept, activeUsers, project);
    AssignmentsSplit(kept, ProjectRows(project, lines), activeUsers, project);
    LinesShown(project, lines, activeUsers);
    AllShown(lines, activeUsers);
    assert [] + ShownOnly(lines, activeUsers) == ShownOnly(lines, activeUsers);
  }

  /** A request for one inactive user is stored and then not shown. */
  lemma InactiveUserNotReadBack(rows: Table, project: Id, user: Id)
    ensures var lines := [Assignment("user", user, "view")];
      RequestError(lines).None? && ProjectAssignments(SetProject(rows, project, lines), {}, project) != lines
  {
    var lines := [Assignment("user", user, "view")];
    assert lines[..0] == [] && lines[0].subjectType == "user";
    ProjectReadsBack(rows, project, lines, {});
  }

  /** The grants `get_user_access` lists; the scope must exist. */
  function UserEntries(rows: Table, scopes: set<Id>, user: Id): seq<Entry> {
    if rows == [] then []
    else
      var front, last := UserEntries(rows[..|rows| - 1], scopes, user), rows[|rows| - 1];
      if OfSubject("user", user)(KeyOf(last)) && last.effect == "allow" && last.scope in scopes
      then front + [Entry(last.scope, last.permission)] else front
  }

  /** A user's overview lists exactly the allow rows of the user whose project or issue exists. */
  lemma {:induction false} EntryIfAllowed(rows: Table, scopes: set<Id>, user: Id, e: Entry)
    ensures e in UserEntries(rows, scopes, user) <==> Grant(e.id, "user", user, e.permission, "allow") in rows && e.id in scopes
  {
    if rows != [] {
      EntryIfAllowed(rows[..|rows| - 1], scopes, user, e);
      assert rows == rows[..|rows| - 1] + [rows[|rows| - 1]];
    }
  }

  lemma {:induction false} EntriesSplit(a: Table, b: Table, scopes: set<Id>, user: Id)
    ensures UserEntries(a + b, scopes, user) == UserEntries(a, scopes, user) + UserEntries(b, scopes, user)
    decreases |b|
  {
    if b == [] {
      assert a + b == a;
    } else {
      assert (a + b)[..|a + b| - 1] == a + b[..|b| - 1];
      EntriesSplit(a, b[..|b| - 1], scopes, user);
    }
  }

  lemma {:induction false} NoEntries(rows: Table, scopes: set<Id>, user: Id)
    requires forall i :: 0 <= i < |rows| ==> !OfSubject("user", user)(KeyOf(rows[i]))
    ensures UserEntries(rows, scopes, user) == []
  {
    if rows != [] { NoEntries(rows[..|rows| - 1], scopes, user); }
  }

  lemma {:induction false} EntriesShown(user: Id, entries: seq<Entry>, scopes: set<Id>)
    requires AllIn(entries, scopes)
    ensures UserEntries(UserRows(user, entries), scopes, user) == entries
  {
    if entries != [] {
      EntriesShown(user, entries[..|entries| - 1], scopes);
      assert UserRows(user, entries)[..|entries| - 1] == UserRows(user, entries[..|entries| - 1]);
    }
  }

  /** What a user-wise update stored, in either table, is read back exactly. */
  lemma UserReadsBack(rows: Table, user: Id, entries: seq<Entry>, scopes: set<Id>)
    requires AllIn(entries, scopes)
    ensures UserEntries(SetUser(rows, user, entries), scopes, user) == entries
  {
    var kept := Without(rows, OfSubject("user", user));
    WithoutLeaves(rows, OfSubject("user", user));
    NoEntries(kept, scopes, user);
    EntriesSplit(kept, UserRows(user, entries), scopes, user);
    EntriesShown(user, entries, scopes);
    assert [] + entries == entries;
  }

  // ---------------------------------------------------------------- the issue table, which has no unique key

  function Not(p: Key -> bool): Key -> bool {
    (k: Key) => !p(k)
  }

  lemma {:induction false} WithoutSplits(a: Table, b: Table, gone: Key -> bool)
    ensures Without(a + b, gone) == Without(a, gone) + Without(b, gone)
    decreases |b|
  {
    if b == [] {
      assert a + b == a;
    } else {
      assert (a + b)[..|a + b| - 1] == a + b[..|b| - 1];
      WithoutSplits(a, b[..|b| - 1], gone);
    }
  }

  lemma {:induction false} WithoutNone(rows: Table, gone: Key -> bool)
    requires forall i :: 0 <= i < |rows| ==> !gone(KeyOf(rows[i]))
    ensures Without(rows, gone) == rows
  {
    if rows != [] { WithoutNone(rows[..|rows| - 1], gone); }
  }

  lemma {:induction false} WithoutAll(rows: Table, gone: Key -> bool)
    requires forall i :: 0 <= i < |rows| ==> gone(KeyOf(rows[i]))
    ensures Without(rows, gone) == []
  {
    if rows != [] { WithoutAll(rows[..|rows| - 1], gone); }
  }

  /** The users' rows of the issue become the requested ones; all other rows stay, in order. */
  lemma IssueIsSet(rows: Table, issue: Id, entries: seq<Entry>)
    ensures Without(SetIssue(rows, issue, entries), Not(UsersOf(issue))) == IssueRows(issue, entries)
    ensures Without(SetIssue(rows, issue, entries), UsersOf(issue)) == Without(rows, UsersOf(issue))
  {
    var p := UsersOf(issue);
    var kept, added := Without(rows, p), IssueRows(issue, entries);
    WithoutLeaves(rows, p);
    WithoutSplits(kept, added, p);
    WithoutSplits(kept, added, Not(p));
    WithoutNone(kept, p);
    WithoutAll(kept, Not(p));
    WithoutAll(added, p);
    WithoutNone(added, Not(p));
    assert kept + [] == kept && [] + added == added;
  }

  /** The first grant of the issue to the user, in the order of the rows. */
  function FirstGrant(rows: Table, issue: Id, user: Id): Option<string> {
    if rows == [] then None
    else if UsersOf(issue)(KeyOf(rows[0])) && rows[0].subjectId == user && rows[0].effect == "allow" then Some(rows[0].permission)
    else FirstGrant(rows[1..], issue, user)
  }

  /** What `get_issue_access` lists: the active users, in their order, with the grant found for each. */
  function IssueAssignments(rows: Table, users: seq<Id>, issue: Id): seq<Entry> {
    if users == [] then []
    else
      var front, found := IssueAssignments(rows, users[..|users| - 1], issue), FirstGrant(rows, issue, users[|users| - 1]);
      if found.Some? then front + [Entry(users[|users| - 1], found.value)] else front
  }

  /** An issue lists an active user if and only if an allow row of the issue names the user, with the first such row's permission. */
  lemma {:induction false} GrantIfAllowed(rows: Table, issue: Id, user: Id)
    ensures FirstGrant(rows, issue, user).None? <==> forall permission :: Grant(issue, "user", user, permission, "allow") !in rows
    ensures forall permission :: FirstGrant(rows, issue, user) == Some(permission) ==> Grant(issue, "user", user, permission, "allow") in rows
  {
    if rows != [] {
      GrantIfAllowed(rows[1..], issue, user);
      assert rows == [rows[0]] + rows[1..];
    }
  }

  lemma {:induction false} FirstGrantBehind(a: Table, b: Table, issue: Id, user: Id)
    requires forall i :: 0 <= i < |a| ==> !UsersOf(issue)(KeyOf(a[i]))
    ensures FirstGrant(a + b, issue, user) == FirstGrant(b, issue, user)
  {
    if a == [] {
      assert a + b == b;
    } else {
      assert (a + b)[1..] == a[1..] + b;
      FirstGrantBehind(a[1..], b, issue, user);
    }
  }

  lemma {:induction false} FirstGrantRequested(issue: Id, entries: seq<Entry>, user: Id)
    requires forall i, k :: 0 <= i < k < |entries| ==> entries[i].id != entries[k].id
    ensures !Listed(entries, user) ==> FirstGrant(IssueRows(issue, entries), issue, user).None?
    ensures forall i :: 0 <= i < |entries| && entries[i].id == user ==>
      FirstGrant(IssueRows(issue, entries), issue, user) == Some(entries[i].permission)
  {
    if entries != [] {
      assert IssueRows(issue, entries)[1..] == IssueRows(issue, entries[1..]);
      FirstGrantRequested(issue, entries[1..], user);
      assert entries[0].id == user ==> Listed(entries, user);
      forall k | 0 <= k < |entries[1..]| && entries[1..][k].id == user ensures Listed(entries, user) {
        assert entries[k + 1].id == user;
      }
    }
  }

  lemma {:induction false} AssignmentsOf(rows: Table, users: seq<Id>, issue: Id, e: Entry)
    ensures e in IssueAssignments(rows, users, issue) <==> e.id in users && FirstGrant(rows, issue, e.id) == Some(e.permission)
  {
    if users != [] {
      AssignmentsOf(rows, users[..|users| - 1], issue, e);
      assert users == users[..|users| - 1] + [users[|users| - 1]];
    }
  }

  /** What an issue-wise update stored is read back: the requested entries and no others. */
  lemma IssueReadsBack(rows: Table, issue: Id, entries: seq<Entry>, users: seq<Id>, e: Entry)
    requires EntryError(entries, ISSUE_OPTIONS).None? && forall i :: 0 <= i < |entries| ==> entries[i].id in users
    ensures e in IssueAssignments(SetIssue(rows, issue, entries), users, issue) <==> e in entries
  {
    var kept := Without(rows, UsersOf(issue));
    CheckedEntries(entries, ISSUE_OPTIONS);
    WithoutLeaves(rows, UsersOf(issue));
    FirstGrantBehind(kept, IssueRows(issue, entries), issue, e.id);
    FirstGrantRequested(issue, entries, e.id);
    AssignmentsOf(SetIssue(rows, issue, entries), users, issue, e);
    if Listed(entries, e.id) {
      var i :| 0 <= i < |entries| && entries[i].id == e.id;
    }
  }

  lemma {:induction false} NewCopiesOfFresh(rows: Table, all: Table, email: string, user: Id)
    requires forall i :: 0 <= i < |all| ==> !OfSubject("user", user)(KeyOf(all[i]))
    ensures NewCopies(rows, all, email, user) == Copies(rows, email, user)
  {
    if rows != [] { NewCopiesOfFresh(rows[..|rows| - 1], all, email, user); }
  }

  /** A fresh user gets the email's issue grants, each as often as the email held it; nobody else's change. */
  lemma FreshUserInheritsIssues(rows: Table, email: string, user: Id)
    requires forall i :: 0 <= i < |rows| ==> !OfSubject("user", user)(KeyOf(rows[i]))
    ensures Without(MoveIssues(rows, email, user), Not(OfSubject("user", user))) == Copies(rows, email, user)
    ensures Without(MoveIssues(rows, email, user), OfSubject("user", user)) == Without(rows, OfSubject("email", email))
  {
    var mine, old' := OfSubject("user", user), OfSubject("email", email);
    var copies, kept := Copies(rows, email, user), Without(rows, old');
    NewCopiesOfFresh(rows, rows, email, user);
    CopiesAreMoved(rows, email, user);
    WithoutSplits(rows, copies, old');
    WithoutNone(copies, old');
    assert MoveIssues(rows, email, user) == kept + copies;
    WithoutFrom(rows, old');
    WithoutSplits(kept, copies, Not(mine));
    WithoutAll(kept, Not(mine));
    WithoutNone(copies, Not(mine));
    WithoutSplits(kept, copies, mine);
    WithoutNone(kept, mine);
    WithoutAll(copies, mine);
    assert [] + copies == copies && kept + [] == kept;
  }

  lemma {:induction false} NewCopiesHold(rows: Table, all: Table, email: string, user: Id, g: Grant)
    ensures g in NewCopies(rows, all, email, user) <==>
      && g.subjectType == "user" && g.subjectId == user && g !in all
      && Grant(g.scope, "email", email, g.permission, g.effect) in rows
  {
    if rows != [] {
      NewCopiesHold(rows[..|rows| - 1], all, email, user, g);
      assert rows == rows[..|rows| - 1] + [rows[|rows| - 1]];
    }
  }

  /** After acceptance the user holds its own issue grants and the email's, the email holds none, and all others are as before. */
  lemma MoveIssuesHolds(rows: Table, email: string, user: Id, g: Grant)
    ensures g in MoveIssues(rows, email, user) <==>
      && !(g.subjectType == "email" && g.subjectId == email)
      && (g in rows || (g.subjectType == "user" && g.subjectId == user && Grant(g.scope, "email", email, g.permission, g.effect) in rows))
  {
    NewCopiesHold(rows, rows, email, user, g);
    KeptWithout(rows + NewCopies(rows, rows, email, user), OfSubject("email", email), g);
  }

  lemma {:induction false} KeptWithout(rows: Table, gone: Key -> bool, g: Grant)
    ensures g in Without(rows, gone) <==> g in rows && !gone(KeyOf(g))
  {
    if rows != [] {
      KeptWithout(rows[..|rows| - 1], gone, g);
      assert rows == rows[..|rows| - 1] + [rows[|rows| - 1]];
    }
  }

  lemma {:induction false} WithoutFrom(rows: Table, gone: Key -> bool)
    ensures forall i :: 0 <= i < |Without(rows, gone)| ==> Without(rows, gone)[i] in rows
  {
    if rows != [] {
      var front := rows[..|rows| - 1];
      WithoutFrom(front, gone);
      assert forall g :: g in front ==> g in rows;
      assert rows[|rows| - 1] in rows;
    }
  }

  // ---------------------------------------------------------------- every run of edits

  datatype Edit =
    | ProjectEdit(project: Id, lines: seq<Assignment>)
    | UserEdit(user: Id, entries: seq<Entry>, issueEntries: Option<seq<Entry>>, projects: set<Id>, issues: set<Id>)
    | Acceptance(email: string, user: Id)
    | ProjectDeletion(project: Id)

  /** The project table after one edit; a refused request changes nothing. */
  function Edited(rows: Table, e: Edit): Table {
    match e
    case ProjectEdit(project, lines) => if RequestError(lines).Some? then rows else SetProject(rows, project, lines)
    case UserEdit(user, entries, issueEntries, projects, issues) =>
      if UserRequestError(entries, issueEntries, projects, issues).Some? then rows else SetUser(rows, user, entries)
    case Acceptance(email, user) => MoveProjects(rows, email, user)
    case ProjectDeletion(project) => Without(rows, OfScope(project))
  }

  function AfterEdits(es: seq<Edit>): Table {
    if es == [] then [] else Edited(AfterEdits(es[..|es| - 1]), es[|es| - 1])
  }

  /** Every run keeps one row per project and subject. */
  lemma {:induction false} OneRowPerSubject(es: seq<Edit>)
    ensures UniqueKeys(AfterEdits(es))
  {
    if es != [] {
      var rows, e := AfterEdits(es[..|es| - 1]), es[|es| - 1];
      OneRowPerSubject(es[..|es| - 1]);
      match e
      case ProjectEdit(project, lines) => if RequestError(lines).None? { SetProjectLooksUp(rows, project, lines); }
      case UserEdit(user, entries, _, _, _) =>
        if EntryError(entries, PROJECT_OPTIONS).None? { SetUserLooksUp(rows, user, entries, PROJECT_OPTIONS); }
      case Acceptance(email, user) => MoveKeepsUnique(rows, email, user);
      case ProjectDeletion(project) => WithoutUnique(rows, OfScope(project));
    }
  }

  /** The edit makes the user a subject of some project. */
  predicate Names(e: Edit, user: Id) {
    match e
    case ProjectEdit(_, lines) => Assigned(lines, "user", user)
    case UserEdit(named, _, _, _, _) => named == user
    case Acceptance(_, named) => named == user
    case ProjectDeletion(_) => false
  }

  lemma {:induction false} NeverNamed(es: seq<Edit>, user: Id, project: Id)
    requires forall i :: 0 <= i < |es| ==> !Names(es[i], user)
    ensures Lookup(AfterEdits(es), Key(project, "user", user)).None?
  {
    if es != [] {
      var rows, e, key := AfterEdits(es[..|es| - 1]), es[|es| - 1], Key(project, "user", user);
      OneRowPerSubject(es[..|es| - 1]);
      NeverNamed(es[..|es| - 1], user, project);
      match e
      case ProjectEdit(edited, lines) => if RequestError(lines).None? { SetProjectLooksUp(rows, edited, lines); }
      case UserEdit(named, entries, _, _, _) =>
        if EntryError(entries, PROJECT_OPTIONS).None? { SetUserLooksUp(rows, named, entries, PROJECT_OPTIONS); }
      case Acceptance(email, named) => MoveLooksUp(rows, email, named, key);
      case ProjectDeletion(deleted) => LookupWithout(rows, OfScope(deleted), key);
    }
  }

  /**
   * After any run of edits that do not name the new user, acceptance gives it exactly the
   * project grants its email held, takes those from the email, and changes no other row.
   */
  lemma FreshUserInherits(es: seq<Edit>, email: string, user: Id, key: Key)
    requires forall i :: 0 <= i < |es| ==> !Names(es[i], user)
    ensures var before, after := AfterEdits(es), AfterEdits(es + [Acceptance(email, user)]);
      Lookup(after, key) ==
        if OfSubject("email", email)(key) then None
        else if !OfSubject("user", user)(key) then Lookup(before, key)
        else match Lookup(before, Key(key.scope, "email", email))
          case None => None
          case Some(g) => Some(Grant(key.scope, "user", user, g.permission, g.effect))
  {
    var rows := AfterEdits(es);
    OneRowPerSubject(es);
    assert (es + [Acceptance(email, user)])[..|es|] == es;
    if OfSubject("user", user)(key) { NeverNamed(es, user, key.scope); }
    MoveLooksUp(rows, email, user, key);
  }

  // ---------------------------------------------------------------- a user's edit in a project's listing

  /** The listed assignments of everybody else, in order. */
  function OfOthers(lines: seq<Assignment>, user: Id): seq<Assignment> {
    if lines == [] then []
    else
      var front, last := OfOthers(lines[..|lines| - 1], user), lines[|lines| - 1];
      if last.subjectType == "user" && last.subjectId == user then front else front + [last]
  }

  lemma {:induction false} OthersSplit(a: seq<Assignment>, b: seq<Assignment>, user: Id)
    ensures OfOthers(a + b, user) == OfOthers(a, user) + OfOthers(b, user)
    decreases |b|
  {
    if b == [] {
      assert a + b == a;
    } else {
      assert (a + b)[..|a + b| - 1] == a + b[..|b| - 1];
      OthersSplit(a, b[..|b| - 1], user);
    }
  }

  function OthersListed(rows: Table, user: Id, activeUsers: set<Id>, project: Id): seq<Assignment> {
    OfOthers(ProjectAssignments(rows, activeUsers, project), user)
  }

  lemma OthersListedSplit(a: Table, b: Table, user: Id, activeUsers: set<Id>, project: Id)
    ensures OthersListed(a + b, user, activeUsers, project)
      == OthersListed(a, user, activeUsers, project) + OthersListed(b, user, activeUsers, project)
  {
    AssignmentsSplit(a, b, activeUsers, project);
    OthersSplit(ProjectAssignments(a, activeUsers, project), ProjectAssignments(b, activeUsers, project), user);
  }

  lemma OwnRowIsNoOther(g: Grant, user: Id, activeUsers: set<Id>, project: Id)
    requires OfSubject("user", user)(KeyOf(g))
    ensures OthersListed([g], user, activeUsers, project) == []
  {
    var a := Assignment(g.subjectType, g.subjectId, g.permission);
    assert [g][..0] == [] && [a][..0] == [];
    assert ProjectAssignments([], activeUsers, project) == [] && OfOthers([], user) == [];
    assert OfOthers([a], user) == [];
    assert ProjectAssignments([g], activeUsers, project) == [] || ProjectAssignments([g], activeUsers, project) == [] + [a] == [a];
  }

  lemma {:induction false} OthersKept(rows: Table, user: Id, activeUsers: set<Id>, project: Id)
    ensures OthersListed(Without(rows, OfSubject("user", user)), user, activeUsers, project) == OthersListed(rows, user, activeUsers, project)
  {
    if rows != [] {
      var front, last := rows[..|rows| - 1], rows[|rows| - 1];
      var kept := Without(front, OfSubject("user", user));
      OthersKept(front, user, activeUsers, project);
      assert rows == front + [last];
      OthersListedSplit(front, [last], user, activeUsers, project);
      if OfSubject("user", user)(KeyOf(last)) {
        OwnRowIsNoOther(last, user, activeUsers, project);
        assert kept + [] == kept;
      } else {
        OthersListedSplit(kept, [last], user, activeUsers, project);
      }
    }
  }

  lemma {:induction false} OwnRowsAreNoOthers(user: Id, entries: seq<Entry>, activeUsers: set<Id>, project: Id)
    ensures OfOthers(ProjectAssignments(UserRows(user, entries), activeUsers, project), user) == []
  {
    if entries != [] {
      OwnRowsAreNoOthers(user, entries[..|entries| - 1], activeUsers, project);
      assert UserRows(user, entries)[..|entries| - 1] == UserRows(user, entries[..|entries| - 1]);
    }
  }

  lemma {:induction false} OwnRowsListed(user: Id, entries: seq<Entry>, activeUsers: set<Id>, project: Id, permission: string)
    ensures Assignment("user", user, permission) in ProjectAssignments(UserRows(user, entries), activeUsers, project)
      <==> user in activeUsers && Entry(project, permission) in entries
  {
    if entries != [] {
      OwnRowsListed(user, entries[..|entries| - 1], activeUsers, project, permission);
      assert UserRows(user, entries)[..|entries| - 1] == UserRows(user, entries[..|entries| - 1]);
      assert entries == entries[..|entries| - 1] + [entries[|entries| - 1]];
    }
  }

  lemma {:induction false} NotListed(rows: Table, user: Id, activeUsers: set<Id>, project: Id, permission: string)
    requires forall i :: 0 <= i < |rows| ==> !OfSubject("user", user)(KeyOf(rows[i]))
    ensures Assignment("user", user, permission) !in ProjectAssignments(rows, activeUsers, project)
  {
    if rows != [] { NotListed(rows[..|rows| - 1], user, activeUsers, project, permission); }
  }

  /** After a user's rows are set, a project lists the user by the request, if active, and everybody else as before. */
  lemma SetUserListed(rows: Table, user: Id, entries: seq<Entry>, activeUsers: set<Id>, project: Id, permission: string)
    ensures var before := ProjectAssignments(rows, activeUsers, project);
      var after := ProjectAssignments(SetUser(rows, user, entries), activeUsers, project);
      && (Assignment("user", user, permission) in after <==> user in activeUsers && Entry(project, permission) in entries)
      && OfOthers(after, user) == OfOthers(before, user)
  {
    var kept, added := Without(rows, OfSubject("user", user)), UserRows(user, entries);
    WithoutLeaves(rows, OfSubject("user", user));
    AssignmentsSplit(kept, added, activeUsers, project);
    NotListed(kept, user, activeUsers, project, permission);
    OwnRowsListed(user, entries, activeUsers, project, permission);
    OthersListedSplit(kept, added, user, activeUsers, project);
    OthersKept(rows, user, activeUsers, project);
    OwnRowsAreNoOthers(user, entries, activeUsers, project);
  }

  /**
   * The two views agree: after an accepted user-wise edit of any reachable table every
   * project lists the user with a permission if and only if the user is active and the
   * edit asked for it, and lists all other subjects as before, in order.
   */
  lemma UserEditSeenByProjects(es: seq<Edit>, e: Edit, activeUsers: set<Id>, project: Id, permission: string)
    requires e.UserEdit? && UserRequestError(e.entries, e.issueEntries, e.projects, e.issues).None?
    ensures var before := ProjectAssignments(AfterEdits(es), activeUsers, project);
      var after := ProjectAssignments(AfterEdits(es + [e]), activeUsers, project);
      && (Assignment("user", e.user, permission) in after <==> e.user in activeUsers && Entry(project, permission) in e.entries)
      && OfOthers(after, e.user) == OfOthers(before, e.user)
  {
    assert (es + [e])[..|es|] == es;
    SetUserListed(AfterEdits(es), e.user, e.entries, activeUsers, project, permission);
  }

  /** An edit that grants an inactive user a project is accepted, and the project does not list it. */
  lemma InactiveUserEditNotSeen(es: seq<Edit>, user: Id, project: Id)
    ensures var e := UserEdit(user, [Entry(project, "view")], None, {project}, {});
      && UserRequestError(e.entries, e.issueEntries, e.projects, e.issues).None?
      && Assignment("user", user, "view") !in ProjectAssignments(AfterEdits(es + [e]), {}, project)
  {
    var e := UserEdit(user, [Entry(project, "view")], None, {project}, {});
    assert e.entries[..0] == [] && PROJECT_OPTIONS[0] == "view" && e.entries[0] == Entry(project, "view");
    assert EntryError(e.entries, PROJECT_OPTIONS).None?;
    UserEditSeenByProjects(es, e, {}, project, "view");
  }

  /**
   * In the table itself the edit is exact: the requested projects with the requested
   * permission, no others, and every other subject's row as before.
   */
  lemma UserEditStored(es: seq<Edit>, e: Edit, project: Id)
    requires e.UserEdit? && UserRequestError(e.entries, e.issueEntries, e.projects, e.issues).None?
    ensures var before, after := AfterEdits(es), AfterEdits(es + [e]);
      && (forall i :: 0 <= i < |e.entries| && e.entries[i].id == project ==>
            Lookup(after, Key(project, "user", e.user)) == Some(Grant(project, "user", e.user, e.entries[i].permission, "allow")))
      && (!Listed(e.entries, project) ==> Lookup(after, Key(project, "user", e.user)).None?)
      && (forall key :: !OfSubject("user", e.user)(key) ==> Lookup(after, key) == Lookup(before, key))
  {
    OneRowPerSubject(es);
    assert (es + [e])[..|es|] == es;
    SetUserLooksUp(AfterEdits(es), e.user, e.entries, PROJECT_OPTIONS);
  }
}
