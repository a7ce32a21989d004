/** The queries agree: one rule for seeing an issue, one for each capability, one for projects. */
module AccessRules {
  import opened Wrappers
  import opened Queries
  import opened Access

  /** The rule itself. */
  ghost predicate CanView(db: Database, user: User, i: Issue) {
    MayProject(db, user, i.project, VIEW) || MayIssue(db, user, i.id, READ)
  }

  lemma KnownIssues(db: Database)
    requires Valid(db)
    ensures forall i :: i in WithProject(db) <==> i in db.issues
  {
    WhereRows(db.issues, InKnownProject(db));
    forall i | i in db.issues ensures HasProject(db, i.project) {
      var n :| 0 <= n < |db.issues| && db.issues[n] == i;
      assert exists k :: 0 <= k < |db.projects| && db.projects[k].id == db.issues[n].project;
    }
  }

  lemma IdNamesOneIssue(db: Database, a: Issue, b: Issue)
    requires Valid(db) && a in db.issues && b in db.issues && a.id == b.id
    ensures a == b
  {
    var m :| 0 <= m < |db.issues| && db.issues[m] == a;
    var n :| 0 <= n < |db.issues| && db.issues[n] == b;
  }

  /** The list of issues is the set of issues the user can view, each once. */
  lemma ListIsExact(db: Database, user: User)
    requires Valid(db) && !user.isAdmin
    ensures NoDuplicates(ListIssues(db, user))
    ensures forall i :: i in ListIssues(db, user) <==> i in db.issues && IssueCapabilities(db, user, i).canView
  {
    KnownIssues(db);
    Surviving(WithProject(db), db, user, VIEW, READ);
    DistinctRows(Select(IssueRows(WithProject(db), db, user, VIEW, READ), IssueOf));
    forall i ensures IssueCapabilities(db, user, i).canView <==> CanView(db, user, i) {
      Probes(db, user, i.project, i.id, VIEW);
      Probes(db, user, i.project, i.id, READ);
    }
  }

  /** A query for one issue finds it exactly if the issue's own rule admits the user. */
  lemma FetchOne(db: Database, user: User, id: Id, onProject: seq<string>, onIssue: seq<string>)
    requires Valid(db)
    ensures var rows := Distinct(Select(IssueRows(ById(WithProject(db), id), db, user, onProject, onIssue), IssueOf));
      forall i :: First(rows) == Some(i) <==>
        i in db.issues && i.id == id && (MayProject(db, user, i.project, onProject) || MayIssue(db, user, i.id, onIssue))
  {
    var named := ById(WithProject(db), id);
    var rows := Distinct(Select(IssueRows(named, db, user, onProject, onIssue), IssueOf));
    KnownIssues(db);
    WhereRows(WithProject(db), WithId(id));
    Surviving(named, db, user, onProject, onIssue);
    DistinctRows(Select(IssueRows(named, db, user, onProject, onIssue), IssueOf));
    if rows != [] { assert rows[0] in rows; }
    forall i | i in db.issues && i.id == id && (MayProject(db, user, i.project, onProject) || MayIssue(db, user, i.id, onIssue))
      ensures First(rows) == Some(i)
    {
      assert i in rows;
      IdNamesOneIssue(db, i, rows[0]);
    }
  }

  /** Opening an issue admits exactly the issues that are listed. */
  lemma FetchAgreesWithList(db: Database, user: User, id: Id)
    requires Valid(db) && !user.isAdmin
    ensures forall i :: FetchAuthorizedIssue(db, user, id) == Some(i) <==> i in ListIssues(db, user) && i.id == id
  {
    ListIsExact(db, user);
    FetchOne(db, user, id, VIEW, READ);
    forall i ensures IssueCapabilities(db, user, i).canView <==> CanView(db, user, i) {
      Probes(db, user, i.project, i.id, VIEW);
      Probes(db, user, i.project, i.id, READ);
    }
  }

  /** So does downloading an attachment of an issue. */
  lemma DownloadAgreesWithList(db: Database, user: User, id: Id)
    requires Valid(db) && !user.isAdmin
    ensures DownloadAllowed(db, user, id) <==> exists i :: i in ListIssues(db, user) && i.id == id
  {
    var named := ById(db.issues, id);
    var rows := IssueRows(named, db, user, VIEW, READ);
    WhereRows(db.issues, WithId(id));
    Surviving(named, db, user, VIEW, READ);
    SelectRows(rows, IssueOf);
    ListIsExact(db, user);
    forall i ensures IssueCapabilities(db, user, i).canView <==> CanView(db, user, i) {
      Probes(db, user, i.project, i.id, VIEW);
      Probes(db, user, i.project, i.id, READ);
    }
    if rows != [] {
      assert rows[0] in rows;
      assert IssueOf(rows[0]) in Select(rows, IssueOf);
    }
    if i :| i in ListIssues(db, user) && i.id == id {
      assert i in Select(rows, IssueOf);
    }
  }

  ghost function IdOf(i: Issue): Id {
    i.id
  }

  lemma IssueIdsCounted(db: Database, user: User)
    requires Valid(db)
    ensures var rows := IssueRows(db.issues, db, user, VIEW, READ);
      |Distinct(Select(rows, IssueIdOf))| == |Distinct(Select(rows, IssueOf))|
  {
    var rows := IssueRows(db.issues, db, user, VIEW, READ);
    forall a, b | a in rows && b in rows && IdOf(IssueOf(a)) == IdOf(IssueOf(b)) ensures IssueOf(a) == IssueOf(b) {
      GrantedIfSurvives(db.issues, db, user, VIEW, READ, a);
      GrantedIfSurvives(db.issues, db, user, VIEW, READ, b);
      IdNamesOneIssue(db, IssueOf(a), IssueOf(b));
    }
    CountByKey(rows, IssueOf, IdOf, IssueIdOf);
  }

  /** Leaving out the join on projects changes nothing: every issue has a project. */
  lemma ProjectJoinRedundant(db: Database, user: User)
    requires Valid(db)
    ensures |Distinct(Select(IssueRows(db.issues, db, user, VIEW, READ), IssueOf))|
         == |Distinct(Select(IssueRows(WithProject(db), db, user, VIEW, READ), IssueOf))|
  {
    var counted := Select(IssueRows(db.issues, db, user, VIEW, READ), IssueOf);
    var listed := Select(IssueRows(WithProject(db), db, user, VIEW, READ), IssueOf);
    KnownIssues(db);
    Surviving(db.issues, db, user, VIEW, READ);
    Surviving(WithProject(db), db, user, VIEW, READ);
    assert forall i :: i in counted <==> i in listed;
    DistinctRows(counted);
    DistinctRows(listed);
    SameRowsSameLength(Distinct(counted), Distinct(listed));
  }

  /** The overview counts the listed issues. */
  lemma CountAgreesWithList(db: Database, user: User)
    requires Valid(db)
    ensures OverviewIssueCount(db, user) == |ListIssues(db, user)|
  {
    if user.isAdmin {
      AllIssuesKept(db, db.issues);
    } else {
      IssueIdsCounted(db, user);
      ProjectJoinRedundant(db, user);
    }
  }

  lemma {:induction false} AllIssuesKept(db: Database, issues: seq<Issue>)
    requires Valid(db) && forall i :: i in issues ==> i in db.issues
    ensures Where(issues, InKnownProject(db)) == issues
  {
    if issues != [] {
      KnownIssues(db);
      WhereRows(db.issues, InKnownProject(db));
      assert issues[0] in issues;
      AllIssuesKept(db, issues[1..]);
    }
  }

  // ---------------------------------------------------------------- capabilities

  /** Each guard admits the user exactly when the matching capability flag is set. */
  lemma GuardsMatchFlags(db: Database, user: User, i: Issue)
    requires Valid(db) && i in db.issues
    ensures var flags := IssueCapabilities(db, user, i);
      && (FetchAuthorizedIssue(db, user, i.id) == Some(i) <==> flags.canView)
      && (FetchAuthorizedIssueForComment(db, user, i.id) == Some(i) <==> flags.canComment)
      && (EnsureIssueEditAccess(db, user, i.id).Ok? <==> flags.canEdit)
      && (EnsureIssueManageAccess(db, user, i.id).Ok? <==> flags.canManageAccess)
  {
    KnownIssues(db);
    WhereRows(WithProject(db), WithId(i.id));
    var named := ById(WithProject(db), i.id);
    assert i in named;
    IdNamesOneIssue(db, named[0], i);
    if !user.isAdmin {
      FetchOne(db, user, i.id, VIEW, READ);
      FetchOne(db, user, i.id, ADMIN, COMMENT);
      Probes(db, user, i.project, i.id, VIEW);
      Probes(db, user, i.project, i.id, READ);
      Probes(db, user, i.project, i.id, ADMIN);
      Probes(db, user, i.project, i.id, COMMENT);
    }
  }

  /** Managing implies editing, editing implies commenting, commenting implies viewing. */
  lemma CapabilitiesAreNested(db: Database, user: User, i: Issue)
    ensures var flags := IssueCapabilities(db, user, i);
      && (flags.canManageAccess ==> flags.canEdit)
      && (flags.canEdit <==> flags.canChangeState)
      && (flags.canEdit ==> flags.canComment)
      && (flags.canComment ==> flags.canView)
      && (flags.canSyncComments ==> flags.canManageAccess)
  {
    if !user.isAdmin {
      Probes(db, user, i.project, i.id, VIEW);
      Probes(db, user, i.project, i.id, READ);
      Probes(db, user, i.project, i.id, ADMIN);
      Probes(db, user, i.project, i.id, COMMENT);
      Probes(db, user, i.project, i.id, EDIT);
    }
  }

  // ---------------------------------------------------------------- projects

  ghost predicate ReadsIn(db: Database, user: User, project: Id) {
    exists i :: i in db.issues && i.project == project && MayIssue(db, user, i.id, READ)
  }

  /** A project row survives the three joins with some match or with NULL in each. */
  lemma JoinedWith(projects: seq<Project>, db: Database, user: User, left: GrantedProject, mid: WithIssue, row: ProjectJoin)
    requires left.0 in projects && mid.0 == left && row.0 == mid
    requires if left.1.Some? then left.1.value in db.projectGrants && ListedOn(user)(left.0, left.1.value)
      else Alone(left.0, db.projectGrants, ListedOn(user))
    requires if mid.1.Some? then mid.1.value in db.issues && IssueOn()(left, mid.1.value) else Alone(left, db.issues, IssueOn())
    requires if row.1.Some? then row.1.value in db.issueGrants && ReadableOn(user)(mid, row.1.value)
      else Alone(mid, db.issueGrants, ReadableOn(user))
    requires SomeProjectGrant(row)
    ensures ProjectOf(row) in Select(ProjectRows(projects, db, user), ProjectOf)
  {
    var granted := LeftJoin(projects, db.projectGrants, ListedOn(user));
    var issues := LeftJoin(granted, db.issues, IssueOn());
    LeftJoinRows(projects, db.projectGrants, ListedOn(user));
    LeftJoinRows(granted, db.issues, IssueOn());
    LeftJoinRows(issues, db.issueGrants, ReadableOn(user));
    WhereRows(LeftJoin(issues, db.issueGrants, ReadableOn(user)), SomeProjectGrant);
    SelectRows(ProjectRows(projects, db, user), ProjectOf);
  }

  lemma MatchOrAlone<L, R>(l: L, rs: seq<R>, on: (L, R) -> bool) returns (r: Option<R>)
    ensures if r.Some? then r.value in rs && on(l, r.value) else Alone(l, rs, on)
  {
    if k :| 0 <= k < |rs| && on(l, rs[k]) { r := Some(rs[k]); } else { r := None; }
  }

  lemma ListedIfGranted(projects: seq<Project>, db: Database, user: User, p: Project)
    requires p in projects && (MayProject(db, user, p.id, LIST_PROJECT) || ReadsIn(db, user, p.id))
    ensures p in Select(ProjectRows(projects, db, user), ProjectOf)
  {
    var g := MatchOrAlone(p, db.projectGrants, ListedOn(user));
    var left: GrantedProject := (p, g);
    var mid: WithIssue;
    if i :| i in db.issues && i.project == p.id && MayIssue(db, user, i.id, READ) {
      mid := (left, Some(i));
    } else {
      var j := MatchOrAlone(left, db.issues, IssueOn());
      mid := (left, j);
    }
    var h := MatchOrAlone(mid, db.issueGrants, ReadableOn(user));
    JoinedWith(projects, db, user, left, mid, (mid, h));
  }

  lemma GrantedIfListed(projects: seq<Project>, db: Database, user: User, row: ProjectJoin)
    requires row in ProjectRows(projects, db, user)
    ensures ProjectOf(row) in projects
    ensures MayProject(db, user, ProjectIdOf(row), LIST_PROJECT) || ReadsIn(db, user, ProjectIdOf(row))
  {
    var granted := LeftJoin(projects, db.projectGrants, ListedOn(user));
    var issues := LeftJoin(granted, db.issues, IssueOn());
    var all := LeftJoin(issues, db.issueGrants, ReadableOn(user));
    LeftJoinRows(projects, db.projectGrants, ListedOn(user));
    LeftJoinRows(granted, db.issues, IssueOn());
    LeftJoinRows(issues, db.issueGrants, ReadableOn(user));
    WhereRows(all, SomeProjectGrant);
    var k :| 0 <= k < |all| && all[k] == row;
    var l :| 0 <= l < |issues| && issues[l] == row.0;
    var m :| 0 <= m < |granted| && granted[m] == row.0.0;
  }

  lemma ProjectsSurviving(projects: seq<Project>, db: Database, user: User)
    ensures forall p :: p in Select(ProjectRows(projects, db, user), ProjectOf) <==>
      p in projects && (MayProject(db, user, p.id, LIST_PROJECT) || ReadsIn(db, user, p.id))
  {
    var rows := ProjectRows(projects, db, user);
    SelectRows(rows, ProjectOf);
    forall p | p in projects && (MayProject(db, user, p.id, LIST_PROJECT) || ReadsIn(db, user, p.id))
      ensures p in Select(rows, ProjectOf)
    {
      ListedIfGranted(projects, db, user, p);
    }
    forall p | p in Select(rows, ProjectOf)
      ensures p in projects && (MayProject(db, user, p.id, LIST_PROJECT) || ReadsIn(db, user, p.id))
    {
      var row :| row in rows && ProjectOf(row) == p;
      GrantedIfListed(projects, db, user, row);
    }
  }

  ghost function ProjectKey(p: Project): Id {
    p.id
  }

  /** Counting distinct ids of the joined rows counts the distinct projects in them. */
  lemma ProjectIdsCounted(projects: seq<Project>, db: Database, user: User)
    requires Valid(db) && forall p :: p in projects ==> p in db.projects
    ensures var rows := ProjectRows(projects, db, user);
      |Distinct(Select(rows, ProjectIdOf))| == |Distinct(Select(rows, ProjectOf))|
  {
    var rows := ProjectRows(projects, db, user);
    forall a, b | a in rows && b in rows && ProjectKey(ProjectOf(a)) == ProjectKey(ProjectOf(b)) ensures ProjectOf(a) == ProjectOf(b) {
      GrantedIfListed(projects, db, user, a);
      GrantedIfListed(projects, db, user, b);
      var m :| 0 <= m < |db.projects| && db.projects[m] == ProjectOf(a);
      var n :| 0 <= n < |db.projects| && db.projects[n] == ProjectOf(b);
    }
    CountByKey(rows, ProjectOf, ProjectKey, ProjectIdOf);
  }

  lemma ProjectOfListedIssue(db: Database, user: User, i: Issue)
    requires Valid(db) && !user.isAdmin && i in ListIssues(db, user)
    ensures exists p :: p in ListProjects(db, user) && p.id == i.project
  {
    ListIsExact(db, user);
    Probes(db, user, i.project, i.id, VIEW);
    Probes(db, user, i.project, i.id, READ);
    ProjectsSurviving(db.projects, db, user);
    DistinctRows(Select(ProjectRows(db.projects, db, user), ProjectOf));
    var n :| 0 <= n < |db.issues| && db.issues[n] == i;
    var k :| 0 <= k < |db.projects| && db.projects[k].id == db.issues[n].project;
    var p := db.projects[k];
    if MayProject(db, user, i.project, VIEW) {
      var g :| g in db.projectGrants && GrantsProject(g, i.project, user, VIEW);
      assert GrantsProject(g, p.id, user, LIST_PROJECT);
    }
    assert p in ListProjects(db, user);
  }

  /** The projects listed from the synced ones only are the synced ones of the list. */
  lemma SyncedRows(db: Database, user: User)
    ensures var some, all := Distinct(Select(ProjectRows(Integrated(db), db, user), ProjectOf)),
                             Distinct(Select(ProjectRows(db.projects, db, user), ProjectOf));
      forall p :: p in some <==> p in Where(all, SyncedProject(db))
  {
    var some, all := Select(ProjectRows(Integrated(db), db, user), ProjectOf), Select(ProjectRows(db.projects, db, user), ProjectOf);
    WhereRows(db.projects, SyncedProject(db));
    ProjectsSurviving(Integrated(db), db, user);
    ProjectsSurviving(db.projects, db, user);
    DistinctRows(some);
    DistinctRows(all);
    WhereRows(Distinct(all), SyncedProject(db));
  }

  lemma {:induction false} WhereKeepsDistinct<T>(rows: seq<T>, keep: T -> bool)
    requires NoDuplicates(rows)
    ensures NoDuplicates(Where(rows, keep))
  {
    if rows != [] {
      WhereKeepsDistinct(rows[1..], keep);
      WhereRows(rows[1..], keep);
      assert rows[0] !in rows[1..];
      assert rows[0] !in Where(rows[1..], keep);
    }
  }

  lemma SyncedCounted(db: Database, user: User)
    requires Valid(db)
    ensures |Distinct(Select(ProjectRows(Integrated(db), db, user), ProjectIdOf))|
         == |Where(Distinct(Select(ProjectRows(db.projects, db, user), ProjectOf)), SyncedProject(db))|
  {
    var some, all := Select(ProjectRows(Integrated(db), db, user), ProjectOf), Select(ProjectRows(db.projects, db, user), ProjectOf);
    WhereRows(db.projects, SyncedProject(db));
    ProjectIdsCounted(Integrated(db), db, user);
    SyncedRows(db, user);
    DistinctRows(some);
    DistinctRows(all);
    WhereKeepsDistinct(Distinct(all), SyncedProject(db));
    SameRowsSameLength(Distinct(some), Where(Distinct(all), SyncedProject(db)));
  }

  /**
   * The overview counts the listed projects and, of them, those with sync enabled; the
   * list has no duplicates and holds the project of every listed issue.
   */
  lemma ProjectsAgree(db: Database, user: User)
    requires Valid(db) && !user.isAdmin
    ensures OverviewProjectCount(db, user) == |ListProjects(db, user)|
    ensures OverviewIntegratedCount(db, user) == |Where(ListProjects(db, user), SyncedProject(db))|
    ensures NoDuplicates(ListProjects(db, user))
    ensures forall i :: i in ListIssues(db, user) ==> exists p :: p in ListProjects(db, user) && p.id == i.project
  {
    ProjectIdsCounted(db.projects, db, user);
    SyncedCounted(db, user);
    DistinctRows(Select(ProjectRows(db.projects, db, user), ProjectOf));
    forall i | i in ListIssues(db, user) ensures exists p :: p in ListProjects(db, user) && p.id == i.project {
      ProjectOfListedIssue(db, user, i);
    }
  }

  // ---------------------------------------------------------------- which rows admit whom

  /** An allow row on the project, for the user's id or email, with one of these permissions. */
  ghost predicate HoldsProject(db: Database, user: User, project: Id, permissions: set<string>) {
    exists permission :: permission in permissions
      && (ProjectGrant(project, "user", user.id, permission, "allow") in db.projectGrants
          || ProjectGrant(project, "email", user.email, permission, "allow") in db.projectGrants)
  }

  /** An allow row on the issue, for the user's id, with one of these permissions. */
  ghost predicate HoldsIssue(db: Database, user: User, issue: Id, permissions: set<string>) {
    exists permission :: permission in permissions && IssueGrant(issue, "user", user.id, permission, "allow") in db.issueGrants
  }

  lemma HoldsIfMay(db: Database, user: User, project: Id, issue: Id, options: seq<string>, permissions: set<string>)
    requires forall permission :: permission in options <==> permission in permissions
    ensures MayProject(db, user, project, options) <==> HoldsProject(db, user, project, permissions)
    ensures MayIssue(db, user, issue, options) <==> HoldsIssue(db, user, issue, permissions)
  {
    if g :| g in db.projectGrants && GrantsProject(g, project, user, options) {
      assert g == ProjectGrant(project, g.subjectType, g.subjectId, g.permission, "allow");
      assert g.permission in permissions;
    }
    if permission :| permission in permissions && ProjectGrant(project, "user", user.id, permission, "allow") in db.projectGrants {
      assert GrantsProject(ProjectGrant(project, "user", user.id, permission, "allow"), project, user, options);
    }
    if permission :| permission in permissions && ProjectGrant(project, "email", user.email, permission, "allow") in db.projectGrants {
      assert GrantsProject(ProjectGrant(project, "email", user.email, permission, "allow"), project, user, options);
    }
    if g :| g in db.issueGrants && GrantsIssue(g, issue, user, options) {
      assert g == IssueGrant(issue, "user", user.id, g.permission, "allow");
    }
    if permission :| permission in permissions && IssueGrant(issue, "user", user.id, permission, "allow") in db.issueGrants {
      assert GrantsIssue(IssueGrant(issue, "user", user.id, permission, "allow"), issue, user, options);
    }
  }

  /** The list holds an issue exactly if a row on its project or on itself says so. */
  lemma WhoIsShownAnIssue(db: Database, user: User, i: Issue)
    requires Valid(db)
    ensures i in ListIssues(db, user) <==>
      && i in db.issues
      && (user.isAdmin || HoldsProject(db, user, i.project, {"view", "admin"})
          || HoldsIssue(db, user, i.id, {"read", "comment", "edit", "admin"}))
  {
    if user.isAdmin {
      KnownIssues(db);
    } else {
      ListIsExact(db, user);
      Probes(db, user, i.project, i.id, VIEW);
      Probes(db, user, i.project, i.id, READ);
      HoldsIfMay(db, user, i.project, i.id, VIEW, {"view", "admin"});
      HoldsIfMay(db, user, i.project, i.id, READ, {"read", "comment", "edit", "admin"});
    }
  }

  lemma SyncIsActive(db: Database, project: Id)
    requires Valid(db)
    ensures HasActiveSync(db, project) <==> Integration(project, true) in db.integrations
  {
    var ofProject := (n: Integration) => n.project == project;
    var rows := Where(db.integrations, ofProject);
    WhereRows(db.integrations, ofProject);
    assert HasActiveSync(db, project) == (First(rows).Some? && First(rows).value.syncEnabled);
    if rows != [] {
      assert rows[0] in rows;
      assert rows[0] == Integration(project, rows[0].syncEnabled);
    }
    if Integration(project, true) in db.integrations {
      assert Integration(project, true) in rows;
      var m :| 0 <= m < |db.integrations| && db.integrations[m] == Integration(project, true);
      var n :| 0 <= n < |db.integrations| && db.integrations[n] == rows[0];
    }
  }

  /** What a user may do with an issue, by the rows on it and on its project. */
  lemma WhoMayDoWhat(db: Database, user: User, i: Issue)
    requires Valid(db)
    ensures var flags, onProject := IssueCapabilities(db, user, i), user.isAdmin || HoldsProject(db, user, i.project, {"admin"});
      && (flags.canView <==>
            onProject || HoldsProject(db, user, i.project, {"view"}) || HoldsIssue(db, user, i.id, {"read", "comment", "edit", "admin"}))
      && (flags.canComment <==> onProject || HoldsIssue(db, user, i.id, {"comment", "edit", "admin"}))
      && (flags.canEdit <==> onProject || HoldsIssue(db, user, i.id, {"edit", "admin"}))
      && flags.canChangeState == flags.canEdit
      && (flags.canManageAccess <==> onProject || HoldsIssue(db, user, i.id, {"admin"}))
      && (flags.canSyncComments <==> flags.canManageAccess && Integration(i.project, true) in db.integrations)
  {
    SyncIsActive(db, i.project);
    if !user.isAdmin {
      Probes(db, user, i.project, i.id, VIEW);
      Probes(db, user, i.project, i.id, READ);
      Probes(db, user, i.project, i.id, COMMENT);
      Probes(db, user, i.project, i.id, EDIT);
      Probes(db, user, i.project, i.id, ADMIN);
      HoldsIfMay(db, user, i.project, i.id, VIEW, {"view", "admin"});
      HoldsIfMay(db, user, i.project, i.id, READ, {"read", "comment", "edit", "admin"});
      HoldsIfMay(db, user, i.project, i.id, COMMENT, {"comment", "edit", "admin"});
      HoldsIfMay(db, user, i.project, i.id, EDIT, {"edit", "admin"});
      HoldsIfMay(db, user, i.project, i.id, ADMIN, {"admin"});
    }
  }

  /** The list holds a project exactly if a row on it or on one of its issues says so. */
  lemma WhoIsShownAProject(db: Database, user: User, p: Project)
    ensures p in ListProjects(db, user) <==>
      && p in db.projects
      && (user.isAdmin || HoldsProject(db, user, p.id, {"view", "create_issue", "admin"})
          || exists i :: i in db.issues && i.project == p.id && HoldsIssue(db, user, i.id, {"read", "comment", "edit", "admin"}))
  {
    if !user.isAdmin {
      ProjectsSurviving(db.projects, db, user);
      DistinctRows(Select(ProjectRows(db.projects, db, user), ProjectOf));
      HoldsIfMay(db, user, p.id, p.id, LIST_PROJECT, {"view", "create_issue", "admin"});
      forall i: Issue ensures MayIssue(db, user, i.id, READ) <==> HoldsIssue(db, user, i.id, {"read", "comment", "edit", "admin"}) {
        HoldsIfMay(db, user, p.id, i.id, READ, {"read", "comment", "edit", "admin"});
      }
    }
  }

  /** The guards tell an unknown issue from one that may not be touched; admins pass either way. */
  lemma GuardsNameTheReason(db: Database, user: User, id: Id)
    requires Valid(db)
    ensures EnsureIssueEditAccess(db, user, id) == Err(NotFound) <==> !user.isAdmin && forall i :: i in db.issues ==> i.id != id
    ensures EnsureIssueManageAccess(db, user, id) == Err(NotFound) <==> !user.isAdmin && forall i :: i in db.issues ==> i.id != id
    ensures user.isAdmin ==> EnsureIssueEditAccess(db, user, id).Ok? && EnsureIssueManageAccess(db, user, id).Ok?
  {
    KnownIssues(db);
    WhereRows(WithProject(db), WithId(id));
    var named := ById(WithProject(db), id);
    if named != [] { assert named[0] in named; }
  }
}
