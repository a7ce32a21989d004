/**
 * Who may see and do what.  The same rule is written as listings, counts, probes and
 * capability flags; here each is the query the code sends.
 */
module Access {
  import opened Wrappers
  import opened Queries

  type Id = string

  datatype Project = Project(id: Id, name: string)
  datatype Issue = Issue(id: Id, project: Id, title: string)
  datatype ProjectGrant = ProjectGrant(project: Id, subjectType: string, subjectId: string, permission: string, effect: string)
  datatype IssueGrant = IssueGrant(issue: Id, subjectType: string, subjectId: string, permission: string, effect: string)
  datatype Integration = Integration(project: Id, syncEnabled: bool)
  datatype User = User(id: Id, email: string, isAdmin: bool)

  /** The grant tables are bags: any rows, repeated or contradictory ones included. */
  datatype Database = Database(
    projects: seq<Project>,
    issues: seq<Issue>,
    projectGrants: seq<ProjectGrant>,
    issueGrants: seq<IssueGrant>,
    integrations: seq<Integration>)

  const VIEW := ["view", "admin"]
  const LIST_PROJECT := ["view", "create_issue", "admin"]
  const READ := ["read", "comment", "edit", "admin"]
  const COMMENT := ["comment", "edit", "admin"]
  const EDIT := ["edit", "admin"]
  const ADMIN := ["admin"]

  /** Primary keys and foreign keys. */
  ghost predicate Valid(db: Database) {
    && (forall i, k :: 0 <= i < k < |db.projects| ==> db.projects[i].id != db.projects[k].id)
    && (forall i, k :: 0 <= i < k < |db.issues| ==> db.issues[i].id != db.issues[k].id)
    && (forall i, k :: 0 <= i < k < |db.integrations| ==> db.integrations[i].project != db.integrations[k].project)
    && (forall i :: 0 <= i < |db.issues| ==> exists k :: 0 <= k < |db.projects| && db.projects[k].id == db.issues[i].project)
  }

  // ---------------------------------------------------------------- join conditions

  predicate GrantsProject(g: ProjectGrant, project: Id, user: User, permissions: seq<string>) {
    && g.project == project && g.effect == "allow"
    && ((g.subjectType == "user" && g.subjectId == user.id) || (g.subjectType == "email" && g.subjectId == user.email))
    && g.permission in permissions
  }

  predicate GrantsIssue(g: IssueGrant, issue: Id, user: User, permissions: seq<string>) {
    && g.issue == issue && g.subjectType == "user" && g.subjectId == user.id
    && g.effect == "allow" && g.permission in permissions
  }

  type IssueJoin = ((Issue, Option<ProjectGrant>), Option<IssueGrant>)

  type Granted = (Issue, Option<ProjectGrant>)

  function ProjectGrantOn(user: User, permissions: seq<string>): (Issue, ProjectGrant) -> bool {
    (i: Issue, g: ProjectGrant) => GrantsProject(g, i.project, user, permissions)
  }

  function IssueGrantOn(user: User, permissions: seq<string>): (Granted, IssueGrant) -> bool {
    (r: Granted, g: IssueGrant) => GrantsIssue(g, r.0.id, user, permissions)
  }

  predicate SomeGrant(r: IssueJoin) {
    r.0.1.Some? || r.1.Some?
  }

  /** issues LEFT JOIN project_permissions LEFT JOIN issue_permissions WHERE one of them matched */
  function IssueRows(issues: seq<Issue>, db: Database, user: User, onProject: seq<string>, onIssue: seq<string>): seq<IssueJoin> {
    var granted := LeftJoin(issues, db.projectGrants, ProjectGrantOn(user, onProject));
    Where(LeftJoin(granted, db.issueGrants, IssueGrantOn(user, onIssue)), SomeGrant)
  }

  function IssueOf(r: IssueJoin): Issue {
    r.0.0
  }

  function IssueIdOf(r: IssueJoin): Id {
    r.0.0.id
  }

  /** issues JOIN projects */
  function WithProject(db: Database): seq<Issue> {
    Where(db.issues, InKnownProject(db))
  }

  function InKnownProject(db: Database): Issue -> bool {
    (i: Issue) => HasProject(db, i.project)
  }

  predicate HasProject(db: Database, id: Id) {
    exists k :: 0 <= k < |db.projects| && db.projects[k].id == id
  }

  // ---------------------------------------------------------------- the queries

  function ListIssues(db: Database, user: User): seq<Issue> {
    if user.isAdmin then WithProject(db)
    else Distinct(Select(IssueRows(WithProject(db), db, user, VIEW, READ), IssueOf))
  }

  function First<T>(rows: seq<T>): Option<T> {
    if rows == [] then None else Some(rows[0])
  }

  function WithId(id: Id): Issue -> bool {
    (i: Issue) => i.id == id
  }

  function ById(issues: seq<Issue>, id: Id): seq<Issue> {
    Where(issues, WithId(id))
  }

  function FetchAuthorizedIssue(db: Database, user: User, id: Id): Option<Issue> {
    if user.isAdmin then First(ById(WithProject(db), id))
    else First(Distinct(Select(IssueRows(ById(WithProject(db), id), db, user, VIEW, READ), IssueOf)))
  }

  function FetchAuthorizedIssueForComment(db: Database, user: User, id: Id): Option<Issue> {
    if user.isAdmin then First(ById(WithProject(db), id))
    else First(Distinct(Select(IssueRows(ById(WithProject(db), id), db, user, ADMIN, COMMENT), IssueOf)))
  }

  /** The probe before an attachment of the issue is served. */
  function DownloadAllowed(db: Database, user: User, issue: Id): bool {
    user.isAdmin || First(IssueRows(ById(db.issues, issue), db, user, VIEW, READ)).Some?
  }

  /** COUNT(DISTINCT issues.id), without the join on projects. */
  function OverviewIssueCount(db: Database, user: User): nat {
    if user.isAdmin then |db.issues|
    else |Distinct(Select(IssueRows(db.issues, db, user, VIEW, READ), IssueIdOf))|
  }

  predicate HasProjectPermission(db: Database, user: User, project: Id, permissions: seq<string>) {
    First(Where(db.projectGrants, (g: ProjectGrant) => GrantsProject(g, project, user, permissions))).Some?
  }

  predicate HasIssuePermission(db: Database, user: User, issue: Id, permissions: seq<string>) {
    First(Where(db.issueGrants, (g: IssueGrant) => GrantsIssue(g, issue, user, permissions))).Some?
  }

  function HasActiveSync(db: Database, project: Id): bool {
    var row := First(Where(db.integrations, (n: Integration) => n.project == project));
    row.Some? && row.value.syncEnabled
  }

  datatype Capabilities = Capabilities(
    canView: bool, canComment: bool, canEdit: bool, canChangeState: bool, canManageAccess: bool, canSyncComments: bool)

  function IssueCapabilities(db: Database, user: User, issue: Issue): Capabilities {
    if user.isAdmin then Capabilities(true, true, true, true, true, HasActiveSync(db, issue.project))
    else
      var projectAdmin := HasProjectPermission(db, user, issue.project, ADMIN);
      var canEdit := HasIssuePermission(db, user, issue.id, EDIT) || projectAdmin;
      var canManage := HasIssuePermission(db, user, issue.id, ADMIN) || projectAdmin;
      Capabilities(
        HasProjectPermission(db, user, issue.project, VIEW) || HasIssuePermission(db, user, issue.id, READ),
        HasIssuePermission(db, user, issue.id, COMMENT) || projectAdmin,
        canEdit, canEdit, canManage, canManage && HasActiveSync(db, issue.project))
  }

  datatype Refusal = NotFound | Forbidden

  function FetchIssueById(db: Database, id: Id): Option<Issue> {
    First(ById(WithProject(db), id))
  }

  function EnsureIssueManageAccess(db: Database, user: User, id: Id): Result<(), Refusal> {
    if user.isAdmin then Ok(())
    else
      var issue := FetchIssueById(db, id);
      if issue.None? then Err(NotFound)
      else if HasIssuePermission(db, user, id, ADMIN) || HasProjectPermission(db, user, issue.value.project, ADMIN) then Ok(())
      else Err(Forbidden)
  }

  function EnsureIssueEditAccess(db: Database, user: User, id: Id): Result<(), Refusal> {
    if user.isAdmin then Ok(())
    else
      var issue := FetchIssueById(db, id);
      if issue.None? then Err(NotFound)
      else if HasIssuePermission(db, user, id, EDIT) || HasProjectPermission(db, user, issue.value.project, ADMIN) then Ok(())
      else Err(Forbidden)
  }

  // ---------------------------------------------------------------- projects

  type GrantedProject = (Project, Option<ProjectGrant>)
  type WithIssue = (GrantedProject, Option<Issue>)
  type ProjectJoin = (WithIssue, Option<IssueGrant>)

  function ListedOn(user: User): (Project, ProjectGrant) -> bool {
    (p: Project, g: ProjectGrant) => GrantsProject(g, p.id, user, LIST_PROJECT)
  }

  function IssueOn(): (GrantedProject, Issue) -> bool {
    (r: GrantedProject, i: Issue) => i.project == r.0.id
  }

  function ReadableOn(user: User): (WithIssue, IssueGrant) -> bool {
    (r: WithIssue, g: IssueGrant) => r.1.Some? && GrantsIssue(g, r.1.value.id, user, READ)
  }

  predicate SomeProjectGrant(r: ProjectJoin) {
    r.0.0.1.Some? || r.1.Some?
  }

  function ProjectRows(projects: seq<Project>, db: Database, user: User): seq<ProjectJoin> {
    var granted := LeftJoin(projects, db.projectGrants, ListedOn(user));
    var issues := LeftJoin(granted, db.issues, IssueOn());
    Where(LeftJoin(issues, db.issueGrants, ReadableOn(user)), SomeProjectGrant)
  }

  function ProjectOf(r: ProjectJoin): Project {
    r.0.0.0
  }

  function ProjectIdOf(r: ProjectJoin): Id {
    r.0.0.0.id
  }

  function ListProjects(db: Database, user: User): seq<Project> {
    if user.isAdmin then db.projects
    else Distinct(Select(ProjectRows(db.projects, db, user), ProjectOf))
  }

  function OverviewProjectCount(db: Database, user: User): nat {
    if user.isAdmin then |db.projects|
    else |Distinct(Select(ProjectRows(db.projects, db, user), ProjectIdOf))|
  }

  function SyncedProject(db: Database): Project -> bool {
    (p: Project) => exists k :: 0 <= k < |db.integrations| && db.integrations[k] == Integration(p.id, true)
  }

  /** projects JOIN project_gitlab_integrations with sync enabled */
  function Integrated(db: Database): seq<Project> {
    Where(db.projects, SyncedProject(db))
  }

  function OverviewIntegratedCount(db: Database, user: User): nat {
    if user.isAdmin then |Where(db.integrations, (n: Integration) => n.syncEnabled)|
    else |Distinct(Select(ProjectRows(Integrated(db), db, user), ProjectIdOf))|
  }

  // ---------------------------------------------------------------- what the queries mean

  /** Some grant row lets the user do one of these things. */
  ghost predicate MayProject(db: Database, user: User, project: Id, permissions: seq<string>) {
    exists g :: g in db.projectGrants && GrantsProject(g, project, user, permissions)
  }

  ghost predicate MayIssue(db: Database, user: User, issue: Id, permissions: seq<string>) {
    exists g :: g in db.issueGrants && GrantsIssue(g, issue, user, permissions)
  }

  lemma Probes(db: Database, user: User, project: Id, issue: Id, permissions: seq<string>)
    ensures HasProjectPermission(db, user, project, permissions) <==> MayProject(db, user, project, permissions)
    ensures HasIssuePermission(db, user, issue, permissions) <==> MayIssue(db, user, issue, permissions)
  {
    var onProject := (g: ProjectGrant) => GrantsProject(g, project, user, permissions);
    var onIssue := (g: IssueGrant) => GrantsIssue(g, issue, user, permissions);
    WhereRows(db.projectGrants, onProject);
    WhereRows(db.issueGrants, onIssue);
    var ps, gs := Where(db.projectGrants, onProject), Where(db.issueGrants, onIssue);
    assert ps != [] ==> ps[0] in ps;
    assert gs != [] ==> gs[0] in gs;
  }

  /** Any match of the second join on top of any match of the first. */
  lemma SurvivesIfGranted(issues: seq<Issue>, db: Database, user: User, onProject: seq<string>, onIssue: seq<string>, i: Issue)
    requires i in issues && (MayProject(db, user, i.project, onProject) || MayIssue(db, user, i.id, onIssue))
    ensures i in Select(IssueRows(issues, db, user, onProject, onIssue), IssueOf)
  {
    var p, q := ProjectGrantOn(user, onProject), IssueGrantOn(user, onIssue);
    var granted := LeftJoin(issues, db.projectGrants, p);
    var both := LeftJoin(granted, db.issueGrants, q);
    LeftJoinRows(issues, db.projectGrants, p);
    LeftJoinRows(granted, db.issueGrants, q);
    var left: Granted := (i, None);
    if g :| g in db.projectGrants && p(i, g) { left := (i, Some(g)); }
    assert left in granted;
    var row: IssueJoin := (left, None);
    if h :| h in db.issueGrants && q(left, h) { row := (left, Some(h)); }
    assert row in both;
    WhereRows(both, SomeGrant);
    SelectRows(IssueRows(issues, db, user, onProject, onIssue), IssueOf);
    assert IssueOf(row) == i;
  }

  lemma GrantedIfSurvives(issues: seq<Issue>, db: Database, user: User, onProject: seq<string>, onIssue: seq<string>, row: IssueJoin)
    requires row in IssueRows(issues, db, user, onProject, onIssue)
    ensures row.0.0 in issues
    ensures MayProject(db, user, row.0.0.project, onProject) || MayIssue(db, user, row.0.0.id, onIssue)
  {
    var p, q := ProjectGrantOn(user, onProject), IssueGrantOn(user, onIssue);
    var granted := LeftJoin(issues, db.projectGrants, p);
    var both := LeftJoin(granted, db.issueGrants, q);
    LeftJoinRows(issues, db.projectGrants, p);
    LeftJoinRows(granted, db.issueGrants, q);
    WhereRows(both, SomeGrant);
    var k :| 0 <= k < |both| && both[k] == row;
    var l :| 0 <= l < |granted| && granted[l] == both[k].0;
  }

  /** An issue survives the two left joins exactly if some grant matches. */
  lemma Surviving(issues: seq<Issue>, db: Database, user: User, onProject: seq<string>, onIssue: seq<string>)
    ensures forall i :: i in Select(IssueRows(issues, db, user, onProject, onIssue), IssueOf) <==>
      i in issues && (MayProject(db, user, i.project, onProject) || MayIssue(db, user, i.id, onIssue))
  {
    var rows := IssueRows(issues, db, user, onProject, onIssue);
    SelectRows(rows, IssueOf);
    forall i | i in issues && (MayProject(db, user, i.project, onProject) || MayIssue(db, user, i.id, onIssue))
      ensures i in Select(rows, IssueOf)
    {
      SurvivesIfGranted(issues, db, user, onProject, onIssue, i);
    }
    forall i | i in Select(rows, IssueOf)
      ensures i in issues && (MayProject(db, user, i.project, onProject) || MayIssue(db, user, i.id, onIssue))
    {
      var row :| row in rows && IssueOf(row) == i;
      GrantedIfSurvives(issues, db, user, onProject, onIssue, row);
    }
  }
}
