# Issue bridge: a verified model

The repository is an issue tracker in front of GitLab: an API and a worker written in
Rust that share PostgreSQL tables, and a TypeScript front end. This project models the
parts whose behaviour spans several statements, several processes or several tables, and
proves what they promise.

How the system is modelled:

- A table is a sequence of rows, an SQL statement is one atomic step, the clock is an
  integer that does not run backwards. Where several processes share a table the model is
  a state machine whose events are single statements, and theorems hold for every
  interleaving; where one process works through a table or an object the model is a class
  whose methods are proved against the same functions the state machine uses.
- `JobQueue`: any number of workers claim, finish, reschedule and recover jobs while
  the API enqueues, re-enqueues, touches and deletes them. A worker keeps the job it was
  given apart from the row, because finishing matches on the id alone. `JobStore` has the
  same statements as methods, on tables that are at every moment those of a run of the
  machine, so the theorems about runs hold of the calls. Worker ids are positions in the list of workers and job ids
  positions in the table, deleted rows leaving a gap. `Abort` is a worker that stops, or
  goes back to polling after any database error, with whatever it had not inserted lost.
- `JobQueueLaws`: when a lock counts as stale and when a job is finished for good, over whole runs.
- `Forest`, `ReplyMarker`, `CommentThreads`, `CommentRuns`, `CommentStore`: building
  comment threads, and the creation and import of the comments they are built from.
- `Queries`, `Access`, `AccessRules`: who sees what, as the joins, counts and probes
  that are sent, over every bag of permission rows.
- `Text`, `AttachmentLinks`, `AttachmentText`, `AttachmentSync`, `AttachmentCache`, `AttachmentStore`:
  finding uploads in a text, replacing an issue's or a comment's attachment rows, and the
  file cache that downloads fill. Here the steps of a sync interleave with downloads and
  with other syncs.
- `UploadLinks`: moving temporary uploads into attachments by rewriting links.
- `RateLimit`, `Heartbeat`: the two small shared counters.
- `Grants`, `PermissionMatrix`: editing the permission tables and accepting invitations.

Results that differ from what a reader might expect:

- A job is claimed at most 31 times for its insertion and for each re-enqueue, resent
  invitations included. Five claims are not promised: workers that outlive their locks
  reach 31 (`JobQueueTight.ThirtyOneClaimsReached`). If every lock is respected, five is
  the bound (`JobQueueLocks.FiveClaims`).
- A worker that outlived its lock can put a job that is already done back to pending by reporting
  a failure (`JobQueueLaws.LateFailureRevives`); a finished job stays finished if locks are respected.
- The rate limiter lets through at most `2 * limit - 1` calls in an interval as long as
  its window, and that many can happen.
- `normalize_upload_path` undoes the prefixing of an upload path by the base url except
  for a base url that itself begins like an upload path; the lemma gives the exact condition.
- Stored reply edges never form a cycle, but a marker in the text of an imported comment
  can make one, and that comment is then shown nowhere (`CommentRuns.MarkerCanHideAComment`).
- `extract_local_upload_ids` finds a link if and only if no marker is left open in front of
  it (`UploadLinks.LinkFoundExactly`); a marker without an id hides the good link behind it.
- A link whose id is spelled otherwise than the server spells it is extracted, but the
  rewriting does not touch it: its upload is moved away and the link stays
  (`UploadLinks.OtherSpellingStays`). Extraction returns a moved upload again exactly for
  texts that had such a link (`UploadLinks.MovedIdExtractedIff`).
- A project lists a user only while active, so a user-wise edit of an inactive user is
  stored but not shown (`PermissionMatrix.UserEditSeenByProjects`).
- A project's access list reads back what was stored if and only if all users in the
  request are active: the update does not check it and the listing drops the others.

## Model

| member | source | states |
|---|---|---|
| JobQueue.RetryDelaySchedule | services/worker/src/queue.rs:202-205 | the back-off is 10 s for the first attempt, doubles up to the fifth and is 300 s from the sixth on |
| JobQueueBounds.PotentialStep | services/worker/src/queue.rs:33-172 | every statement of any worker or the API lowers the number of claims still possible by the claims it makes, except that a re-enqueue adds at most 31 |
| JobQueueBounds.ClaimsBounded | services/worker/src/queue.rs:33-172 | in every interleaving, late finishers included, a job is claimed at most 31 times per insertion and re-enqueue, invitations included |
| JobQueueBounds.AttemptsBounded | services/worker/src/queue.rs:97-158 | pending and processing rows and all snapshots have an attempt count of at most 4, all rows at most 5, each plus the job's resent invitations; dead rows have at least 5 |
| JobQueueTight.ThirtyOneClaimsReached | services/worker/src/queue.rs:26-200 | for every stale limit some run whose recoveries all work by that limit claims a job that is never re-enqueued exactly 31 times |
| JobQueueWaiting.ClaimsTakeTheOldest | services/worker/src/queue.rs:35-50 | while a job is pending and available a claim takes a job created no later than it |
| JobQueueWaiting.WaitBounded | services/worker/src/queue.rs:35-50 | the claims made while a job waits are at most 31 for each job created no later and for each re-enqueue of those |
| JobQueueWaiting.WaitBoundedWithoutRequeues | services/worker/src/queue.rs:35-50 | without re-enqueues at most 31 claims per job created no later pass before the waiting job is claimed |
| JobQueueLocks.LocksAreExclusive | services/worker/src/queue.rs:44-200 | if locks are respected, whoever holds a job whose row exists holds a processing row locked by itself with its own attempt count |
| JobQueueLocks.AtMostOneHolder | services/worker/src/queue.rs:44-50 | if locks are respected, a row has at most one live holder |
| JobQueueLocks.FiveClaims | services/worker/src/queue.rs:97-172 | if locks are respected, a job is claimed at most 5 times per insertion and re-enqueue |
| JobQueueLocks.AccountStep | services/worker/src/queue.rs:61-200 | each statement adds to the recorded, unrecorded and lost failures of a job exactly the failure it causes |
| JobQueueLocks.AttemptsAreAudited | services/worker/src/queue.rs:101-197 | if locks are respected and no webhook resets the job, its attempt count is its failed, dead and stale audit rows, plus those still to be inserted, plus those lost |
| JobQueueBackoff.ClaimsTenSecondsApart | services/worker/src/queue.rs:38-159 | in every interleaving two claims of a job with no re-enqueue in between are at least 10 s apart |
| JobQueueBackoff.DeathTakesFiveSpreadFailures | services/worker/src/queue.rs:97-107 | if locks are respected, a job that dies without stale recovery or re-enqueue failed exactly five times, the first and the last at least 150 s apart |
| JobQueueLaws.RecoveredIffClaimIsOld | services/worker/src/queue.rs:145-167 | in every run a recovery changes a job's row if and only if the job is processing and its last claim lies more than the stale limit, in seconds, back |
| JobQueueLaws.FinishedStaysFinished | services/worker/src/queue.rs:61-158 | if locks are respected, a done or dead job stays so and is not claimed until it is re-enqueued |
| JobQueueLaws.LateFailureRevives | services/worker/src/queue.rs:97-124 | without that a late failure puts a job that is done back to pending |
| JobQueueLaws.WebhookStartsOver | services/api/src/routes/webhooks.rs:164-180 | right after a webhook for its key a job is pending, available, unlocked and has all five attempts, whatever it was |
| JobStore.RecoveredColumns | services/worker/src/queue.rs:145-167 | exactly the processing rows locked longer than the limit change: unlocked, one attempt more, dead from the fifth on, else available in 10 s |
| JobStore.RecoveryAudited | services/worker/src/queue.rs:170-197 | each changed row gets one audit row, which says dead or recovered by what became of it |
| JobStore.KeysStayUnique | services/api/src/routes/webhooks.rs:164-180 | rows keep their dedupe keys and a row is inserted only under a key no row has, which the conflict clauses arrange, so no run breaks the unique index |
| JobStore.PickOldest | services/worker/src/queue.rs:35-43 | the row picked is eligible and no eligible row is older; none is picked only if none is eligible |
| JobStore.Queue.RecoverStaleProcessingJobs | services/worker/src/queue.rs:145-200 | exactly the processing rows locked before now minus the limit are put back or declared dead, column by column, and each gets one audit row |
| JobStore.Queue.FetchNextJob | services/worker/src/queue.rs:24-59 | recovery first; then nothing exactly if no row is pending and available, else the oldest such row, locked for the worker, with the attempt count of the row; as events these are a recovery, its audit inserts and a claim |
| JobStore.Queue.HandOutsBounded | services/worker/src/queue.rs:24-200 | through whatever sequence of calls, the calls hand a job out at most 31 times per insertion and re-enqueue |
| JobStore.Queue.MarkDone | services/worker/src/queue.rs:61-89 | the row with that id is done, whoever holds it, and the audit row is added |
| JobStore.Queue.RescheduleFailed | services/worker/src/queue.rs:91-143 | the row gets the worker's own count plus one, pending or dead by it, and the matching audit row |
| JobStore.Queue.EnqueueJob | services/api/src/routes/jobs.rs:42-72 | a known key is only touched, an unknown or missing one inserted |
| JobStore.Queue.EnqueueWebhookJob | services/api/src/routes/webhooks.rs:150-226 | a known key starts its job over with count 0 and no lock; the audit entry names the job, and if it cannot be written the job stays queued and the call fails |
| JobStore.WebhookKeyIsExact | services/api/src/routes/webhooks.rs:159-162 | webhooks share a job exactly if they are for the same project, issue and kind |
| JobStore.Queue.EnqueueInvitationEmail | services/api/src/routes/users.rs:570-609 | a known key is made pending without resetting its count or its lock |
| Forest.AllRootedIffAcyclic | frontend/src/components/IssueDetail.tsx:1042-1053 | in finite parent pointers every node reaches a root if and only if there is no cycle |
| Forest.FlattenCompleteIffAcyclic | frontend/src/components/IssueDetail.tsx:1042-1055 | walking the forest from its roots visits every node exactly once if and only if there is no cycle |
| ReplyMarker.MarkerReadsBack | frontend/src/components/IssueDetail.tsx:998-1001 | a written marker is read back as its number whatever follows it and whatever precedes it without `<` |
| ReplyMarker.NoMarker | frontend/src/components/IssueDetail.tsx:998-1001 | text without `<` names no parent |
| ReplyMarker.FirstMarkerIsRead | frontend/src/components/IssueDetail.tsx:998-1001 | of the markers in a text, blanks and letter case as the expression allows, the first is read |
| ReplyMarker.TargetIffMarker | frontend/src/components/IssueDetail.tsx:998-1001 | a text names a parent if and only if a marker stands in it |
| ReplyMarker.BlanksOfTheRegex | frontend/src/components/IssueDetail.tsx:999 | the blanks are those of `\s` |
| CommentThreads.SortIsStable | frontend/src/components/IssueDetail.tsx:1025-1027 | the sort is a permutation, chronological, and keeps simultaneous comments in list order |
| CommentThreads.FallbackKeepsCycles | frontend/src/components/IssueDetail.tsx:1043-1052 | the discussion fallback neither makes nor breaks cycles of the reply relation |
| CommentThreads.IndexByNote | frontend/src/components/IssueDetail.tsx:1035-1038 | the map sends each note id to the node of its last comment and has no other ids |
| CommentThreads.HangsWhereSaid | frontend/src/components/IssueDetail.tsx:1040-1053 | a comment hangs under the last comment with the note id it answers, by its column or else its marker; answering nobody, under the first comment of its discussion that answers nobody if one comes before it; else it is a root |
| CommentThreads.BuildCommentThreads | frontend/src/components/IssueDetail.tsx:1024-1056 | each node is a child of exactly the comment it answers or whose discussion it joins, and a root if it does neither; roots and every list of children are in created_at order, and the forest shows each comment exactly once if and only if the replies form no cycle |
| CommentRuns.RunsKeepEdgesAcyclic | services/api/src/routes/issues.rs:643-771 | every run of creations and imports keeps note ids unique, reply targets present and reply edges acyclic, and the local ids are exactly -1 to -k |
| CommentRuns.LocalCommentsStay | crates/bridge-core/src/issue_sync.rs:219-247 | a local comment is never overwritten by anything later in the run |
| CommentRuns.NextLocalContinues | services/api/src/routes/issues.rs:2126-2143 | the next local id continues -1, -2, ... without a gap |
| CommentRuns.StoredRepliesAcyclicIff | frontend/src/components/IssueDetail.tsx:1030-1045 | any visible part of what a run stored has acyclic replies if and only if no comment without a stored target is reached again from the comment its marker names |
| CommentRuns.StoredCommentsThread | frontend/src/components/IssueDetail.tsx:135-136 | in particular it threads without a cycle when no comment without a stored target carries a marker |
| CommentRuns.MarkerCanHideAComment | frontend/src/components/IssueDetail.tsx:1030 | for every note id an import of one note whose text names itself gives a cycle |
| CommentStore.ImportIssueComments | crates/bridge-core/src/gitlab.rs:481-551 | over all pages, the first note of a discussion has no target and the others answer the first, in order |
| CommentRuns.DiscussionImported | crates/bridge-core/src/gitlab.rs:516-540 | one more discussion adds its notes behind the others, the first without a target, every other one answering the first |
| CommentStore.JoinedInOrder | crates/bridge-core/src/gitlab.rs:489-548 | the discussions of all pages are taken page after page, in the order of each page |
| CommentRuns.UpsertIsExact | crates/bridge-core/src/issue_sync.rs:219-247 | a known note id takes over the row but for its creation time, an unknown one is appended, no other row changes |
| CommentStore.IssueComments.PersistGitLabComment | crates/bridge-core/src/issue_sync.rs:219-247 | a known note id is updated in place keeping its creation time, an unknown one appended |
| CommentStore.IssueComments.CreateIssueComment | services/api/src/routes/issues.rs:598-800 | refused with the first check that fails: the right to comment, an empty body, the token, its decryption, the upload rows, their move, the reply target, GitLab, the write, in the order of each of the two paths; a refusal changes no comment, else the table is the run's next step and stays so if a later statement makes the call fail |
| CommentStore.WrittenIfAllHolds | services/api/src/routes/issues.rs:598-800 | the comment is written if and only if every check holds, and each refusal names the first that does not |
| CommentStore.IssueComments.SyncIssueComments | services/api/src/routes/issues.rs:1323-1379 | every imported comment is upserted in order, and created counts exactly those whose note id was unknown before |
| CommentStore.NewAreCounted | services/api/src/routes/issues.rs:1323-1379 | a comment counts as created if no row before the import has its note id |
| AccessRules.ListIsExact | services/api/src/routes/issues.rs:88-132 | the list is exactly the issues whose capability flags say can_view, each once, for every bag of grants |
| AccessRules.WhoIsShownAnIssue | services/api/src/routes/issues.rs:88-132 | the list holds an issue if and only if the user is an admin, or an allow row on its project for the user's id or email says view or admin, or one on the issue for the user says read, comment, edit or admin |
| AccessRules.WhoMayDoWhat | services/api/src/routes/issues.rs:1607-1723 | each flag in terms of the rows: commenting, editing and managing need admin on the project or the right permission on the issue; syncing needs managing and an enabled integration |
| AccessRules.WhoIsShownAProject | services/api/src/routes/projects.rs:43-75 | the list holds a project if and only if a row on it says view, create_issue or admin or the user may read one of its issues |
| AccessRules.GuardsNameTheReason | services/api/src/routes/issues.rs:1551-1592 | the guards answer not found exactly to non-admins for unknown issues; admins pass |
| AccessRules.FetchAgreesWithList | services/api/src/routes/issues.rs:1413-1461 | fetching an issue succeeds exactly for the issues listed |
| AccessRules.DownloadAgreesWithList | services/api/src/routes/attachments.rs:62-101 | downloads are allowed exactly for attachments of listed issues |
| AccessRules.CountAgreesWithList | services/api/src/routes/health.rs:669-697 | the overview's issue count is the length of the list, for admins too |
| AccessRules.GuardsMatchFlags | services/api/src/routes/issues.rs:1551-1723 | the guards for viewing, commenting, editing and managing admit exactly whom the flags promise |
| AccessRules.CapabilitiesAreNested | services/api/src/routes/issues.rs:1607-1646 | managing implies editing, editing commenting, commenting viewing; changing the state is editing |
| AccessRules.ProjectsAgree | services/api/src/routes/health.rs:604-667 | both project counts agree with the project list, which has no duplicates and holds the project of every listed issue |
| AccessRules.ListedIfGranted | services/api/src/routes/projects.rs:43-75 | a project with a grant on it or on one of its issues survives the three joins |
| AttachmentLinks.ExtractMarkdownTargets | crates/bridge-core/src/issue_sync.rs:455-476 | the loop ends and gives the recursive left-to-right scan of the text |
| AttachmentLinks.ParseCommentAttachments | crates/bridge-core/src/issue_sync.rs:400-453 | the loops give the upload links, link targets before bare words, each url once |
| AttachmentLinks.DistinctUrlsExact | crates/bridge-core/src/issue_sync.rs:418-436 | a url is kept exactly if some candidate resolves to it, and kept once |
| AttachmentLinks.LinkedUrls | crates/bridge-core/src/issue_sync.rs:400-453 | urls are distinct, contain /uploads/, and are absolute or hang off the base url |
| AttachmentText.LinkedExactly | crates/bridge-core/src/issue_sync.rs:400-453 | a url is found if and only if the text of a link taken from the left, or a whole word, trimmed of blanks or punctuation contains `/uploads/` and is absolute or, starting with a slash, goes behind the base url |
| AttachmentText.LinksComeFirst | crates/bridge-core/src/issue_sync.rs:404-416 | the urls of links come first, those only words give behind them |
| AttachmentText.FilenameIsLastPart | crates/bridge-core/src/issue_sync.rs:433-438 | the file name is the part behind the last slash, `attachment` if nothing is there |
| AttachmentText.TypeGoesByExtension | crates/bridge-core/src/issue_sync.rs:439-443 | content type and inline display go by what stands behind the last dot of the name, in any case |
| AttachmentText.TypeByTable | crates/bridge-core/src/issue_sync.rs:478-498 | the content type of each extension |
| Text.WhitespaceOfUnicode | crates/bridge-core/src/issue_sync.rs:410 | words end at the blanks of Unicode |
| AttachmentLinks.NormalizeUndoesPrefix | services/api/src/routes/attachments.rs:467-478 | prefixing an upload path with the base url is undone if and only if the base is empty or does not begin like an upload path |
| AttachmentLinks.NormalizeFinds | services/api/src/routes/attachments.rs:467-490 | an upload path is kept, the base url is cut off, and of any other absolute url the path is taken from its first `/uploads/` on |
| AttachmentLinks.UploadsBaseIsKept | services/api/src/routes/attachments.rs:467-478 | with the base url `/uploads` every prefixed path stays prefixed |
| AttachmentSync.AttachmentTable.LoadExisting | crates/bridge-core/src/issue_sync.rs:351-391 | the map holds exactly the urls of the scope, each with its last row |
| AttachmentSync.ExistingIsLast | crates/bridge-core/src/issue_sync.rs:351-391 | of several rows with one url the last is kept in the map |
| AttachmentSync.SyncedRowsKeepOrStart | crates/bridge-core/src/issue_sync.rs:155-207 | row by row: a url that was in the scope keeps the identity and cache of a row with it, any other gets a new id with nothing cached |
| AttachmentSync.AttachmentTable.PersistGitLabAttachments | crates/bridge-core/src/issue_sync.rs:133-211 | the statements amount to the sync of the scope with the links of the text |
| AttachmentSync.SyncSetsTheScope | crates/bridge-core/src/issue_sync.rs:265-334 | afterwards the scope's urls are exactly the linked ones, in order and once each, and all other rows are as before |
| AttachmentSync.WhatASyncTouches | crates/bridge-core/src/issue_sync.rs:142-152 | a sync leaves all local rows, the rows of other issues' texts and those of other comments; of its own only linked urls are left |
| AttachmentSync.SurvivorsKeepTheirCache | crates/bridge-core/src/issue_sync.rs:155-170 | a url that stays linked keeps its id, proxy path and all cache columns |
| AttachmentSync.SyncIsIdempotent | crates/bridge-core/src/issue_sync.rs:139-207 | syncing the same text again changes only creation times |
| AttachmentCache.CacheFilesApart | services/api/src/routes/attachments.rs:359-380 | attachments with different ids share neither a cache file nor a temporary file, whatever their names |
| AttachmentCache.CacheFilesStayInFolder | services/api/src/routes/attachments.rs:382-399 | no file name leads out of the cache folder |
| AttachmentCache.SanitizeIsExact | services/api/src/routes/attachments.rs:382-399 | names keep letters, digits, dots, hyphens and underscores, have an underscore for anything else, and become `attachment` without a letter or digit |
| AttachmentCache.StepKeeps | services/api/src/routes/attachments.rs:217-341 | every statement, file operation and fetch keeps: a row names only its own cache file, and that file, if there, holds its remote bytes |
| AttachmentCache.CacheIsTransparent | services/api/src/routes/attachments.rs:125-202 | in every interleaving of syncs, downloads, losses and errors a download that succeeds gives the remote bytes of its row's url |
| AttachmentCache.CachedIsServed | services/api/src/routes/attachments.rs:125-132 | in every reachable state a download of a row that names a file which is there ends with the remote bytes without asking the remote, and changes nothing |
| AttachmentCache.SavedIsCached | services/api/src/routes/attachments.rs:271-293 | after the metadata is saved the row names its cache file, its size and no error |
| AttachmentCache.DownloadsKeepApart | services/api/src/routes/attachments.rs:243-294 | a download's steps create, change or remove only files named after its own id and change only its own row |
| AttachmentCache.RequestedById | services/api/src/routes/attachments.rs:49-54 | a requested name matches exactly the row with that id |
| AttachmentCache.RequestsPickOne | services/api/src/routes/attachments.rs:49-54 | a requested name matches at most one row, the one with that id |
| AttachmentCache.SyncInOneGo | crates/bridge-core/src/issue_sync.rs:133-211 | left alone, the separate statements of a sync amount to the sync as a whole |
| AttachmentStore.CacheStore.ReadCached | services/api/src/routes/attachments.rs:217-241 | a file that is named, there and readable is returned and nothing changes; otherwise nothing is returned and a missing or unreadable file is recorded, as steps of the machine |
| AttachmentStore.CacheStore.PersistCache | services/api/src/routes/attachments.rs:243-294 | if write, rename and update succeed the file and the row have the bytes, otherwise the row says that caching failed; whatever fails, the download ends with the fetched bytes |
| AttachmentStore.CacheStore.DownloadGitLab | services/api/src/routes/attachments.rs:121-203 | a file that is there and readable is served whatever the remote does; otherwise the remote's answer if the token is configured; any success is the remote bytes |
| UploadLinks.RewriteIsAtOnce | services/api/src/routes/issues.rs:2166-2174 | replacing the links of different uploads one after the other is one simultaneous rewrite |
| UploadLinks.LinkBecomesAttachment | services/api/src/routes/issues.rs:2166-2174 | every link of a moved upload becomes the path of its attachment, and what stands before and behind it is rewritten on its own |
| UploadLinks.OtherTextStays | services/api/src/routes/issues.rs:2166-2174 | a text without such links stays as it is |
| UploadLinks.RewriteIsConfluent | services/api/src/routes/issues.rs:2248-2256 | the order in which the uploads are fetched does not matter to the text |
| UploadLinks.NoMovedLinkLeft | services/api/src/routes/issues.rs:2166-2174 | no link of a moved upload is left in the text |
| UploadLinks.PersistLocalAttachments | services/api/src/routes/issues.rs:2145-2226 | the loop rewrites all links at once, leaves none, and inserts one local row per upload |
| UploadLinks.MovedUploadsOutliveSyncs | services/api/src/routes/issues.rs:2176-2206 | the row of a moved upload is local, so no sync with GitLab deletes it |
| UploadLinks.ExtractLocalUploadIds | services/api/src/routes/issues.rs:2076-2097 | the loop gives the sorted ids of the links found from left to right, whatever spellings the id parser reads |
| UploadLinks.SortedOnce | services/api/src/routes/issues.rs:2094-2096 | the result is strictly increasing and has exactly the ids found |
| UploadLinks.BeforeIsLexical | services/api/src/routes/issues.rs:2094 | the order is that of the characters from the left |
| UploadLinks.FoundIsContained | services/api/src/routes/issues.rs:2081-2092 | every id found is well formed, and a link that is read as it stands in the text |
| UploadLinks.LinkFoundExactly | services/api/src/routes/issues.rs:2081-2092 | a link is found if and only if no marker is left open in front of it; what is found before and behind it does not depend on it |
| UploadLinks.AllLinksFoundIff | services/api/src/routes/issues.rs:2081-2092 | of a text with many links all are found, in order, if and only if no text in front of a link leaves a marker open |
| UploadLinks.PlainLinksAreFound | services/api/src/routes/issues.rs:2081-2092 | in particular all are found where the text between them holds no marker |
| UploadLinks.BrokenLinkHidesTheNext | services/api/src/routes/issues.rs:2081-2092 | a marker without an id in front of a good link makes the link go unnoticed |
| UploadLinks.ExtractedAfterRewrite | services/api/src/routes/issues.rs:2076-2174 | extraction on the rewritten text finds exactly what it found before without the links that were moved: no link is lost, none is formed where one was replaced, and a moved link behind an open marker changes nothing |
| UploadLinks.UnmovedIfRead | services/api/src/routes/issues.rs:2081-2092 | an id is among those if and only if the text before the rewriting had a link read as it whose spelling is not that of a moved upload |
| UploadLinks.MovedIdExtractedIff | services/api/src/routes/issues.rs:2076-2174 | extraction on the rewritten text returns a moved upload if and only if the text before the rewriting had a link read as its id but spelled otherwise |
| UploadLinks.NoMovedIdExtracted | services/api/src/routes/issues.rs:2076-2097 | with ids in canonical form it returns no moved upload |
| UploadLinks.OtherSpellingStays | services/api/src/routes/issues.rs:2166-2174 | a link in another spelling the parser reads is extracted, but rewriting leaves it in the text |
| UploadLinks.OtherCaseStays | services/api/src/routes/issues.rs:2086 | with a parser of either case this happens to every link whose id has a letter in upper case |
| RateLimit.RateLimiter.Check | services/api/src/services/rate_limit.rs:22-66 | the answer and the new buckets for every call, the disabled, pruning, expiring, rejecting and counting cases |
| RateLimit.PruningIsInvisible | services/api/src/services/rate_limit.rs:42-44 | for calls in clock order with one window pruning changes no answer, whatever the limits |
| RateLimit.AcceptedBounded | services/api/src/services/rate_limit.rs:34-64 | a key's calls let through in any half-open interval as long as the window are at most 2 * limit - 1 |
| RateLimit.BoundReached | services/api/src/services/rate_limit.rs:34-64 | for every limit and window that many calls can be let through |
| Heartbeat.WorkerHeartbeat.RecordSuccess | services/worker/src/heartbeat.rs:55-61 | the snapshot becomes idle, names the job and counts it as processed |
| Heartbeat.WorkerHeartbeat.RecordFailure | services/worker/src/heartbeat.rs:63-70 | the snapshot becomes idle, names the job and the error and counts it as failed |
| Heartbeat.WorkerHeartbeat.Take | services/worker/src/heartbeat.rs:72-87 | the flusher gets the whole snapshot and only the counters are zeroed |
| Heartbeat.CountsConserved | services/worker/src/heartbeat.rs:55-101 | in every interleaving stored, in flight, in memory and lost counts make exactly the recorded events and none is negative |
| Heartbeat.StoredCountsAreTrue | services/worker/src/heartbeat.rs:133-174 | stored counters never exceed the events, and while no write fails nothing is lost |
| Heartbeat.RowsGrow | services/worker/src/heartbeat.rs:149-160 | from any moment to any later one stored counters do not fall and a known job or error is not forgotten |
| Heartbeat.RowsShowTheLastWrite | services/worker/src/heartbeat.rs:72-160 | a stored row shows exactly the status, last job and last error its worker had when the snapshot last written was taken |
| Heartbeat.HeartbeatIsLastWrite | services/worker/src/heartbeat.rs:149-152 | a row's heartbeat is the time of its last write |
| Heartbeat.RowsKeepApart | services/worker/src/heartbeat.rs:133-160 | as long as a worker's own flusher writes nothing its row stays as it is, whatever the other workers do |
| Grants.LookupMergeAll | services/api/src/routes/invitations.rs:122-144 | inserting many rows with the conflict clause gives, key by key, the new row, the old row or the stronger of both |
| Grants.StrongerIsOneOfThem | services/api/src/routes/invitations.rs:135-139 | of two project permissions the stronger one is kept |
| PermissionMatrix.SeenKeyIsExact | services/api/src/routes/projects.rs:770-773 | the joined key of type and id tells subjects apart |
| PermissionMatrix.CheckRequest | services/api/src/routes/projects.rs:762-774 | the first bad line decides the error: permission, then subject type, then repetition |
| PermissionMatrix.AcceptedIfGood | services/api/src/routes/projects.rs:762-774 | a project's request is accepted if and only if every permission and subject type is one of those offered and no subject comes twice |
| PermissionMatrix.FirstBadLine | services/api/src/routes/projects.rs:762-774 | what is wrong with the first bad line is the answer |
| PermissionMatrix.UserRequestAccepted | services/api/src/routes/users.rs:415-504 | a user's request is accepted if and only if its permissions are of those offered, no project or issue comes twice, and all exist |
| PermissionMatrix.UserErrorsInOrder | services/api/src/routes/users.rs:415-504 | bad project lines are reported before bad issue lines, and both before unknown ids |
| PermissionMatrix.FirstBadEntry | services/api/src/routes/issues.rs:1145-1160 | of a user's or an issue's lines the first bad one decides, its permission before a repetition |
| PermissionMatrix.KnownByCount | services/api/src/routes/users.rs:458-504 | comparing the number of rows found with the number asked for decides whether all exist |
| PermissionMatrix.AccessTables.UpdateProjectAccess | services/api/src/routes/projects.rs:752-806 | a bad request changes nothing; a good one replaces the project's rows by the requested ones |
| PermissionMatrix.AccessTables.UpdateIssueAccess | services/api/src/routes/issues.rs:1134-1222 | refused for a bad permission, a repeated or an unknown user; else the users' rows of the issue are replaced |
| PermissionMatrix.AccessTables.UpdateUserAccess | services/api/src/routes/users.rs:396-568 | all checks come before any change; then the user's project rows, and the issue rows if given, are replaced |
| PermissionMatrix.AccessTables.AcceptInvitation | services/api/src/routes/invitations.rs:45-230 | refused exactly for an unknown, used or expired invitation or a known email; else all grants move and the invitation cannot be accepted again |
| PermissionMatrix.WhenInvitationsAreAccepted | services/api/src/routes/invitations.rs:52-99 | accepted if and only if known, pending, not expired and for an email no user has; refusals in that order |
| PermissionMatrix.MoveIssuesHolds | services/api/src/routes/invitations.rs:162-201 | afterwards the user holds its own issue grants and the email's, the email none, all others as before |
| PermissionMatrix.SetProjectLooksUp | services/api/src/routes/projects.rs:776-804 | key by key: the requested subjects hold the project as requested, nobody else does, other projects are as before, and keys stay unique |
| PermissionMatrix.SetUserLooksUp | services/api/src/routes/users.rs:506-535 | key by key: the user holds exactly the requested projects, every other subject is as before, and keys stay unique |
| PermissionMatrix.MoveLooksUp | services/api/src/routes/invitations.rs:122-160 | key by key: the user holds its own and the email's grants, the stronger of two; the email holds none; others are as before |
| PermissionMatrix.FreshUserInherits | services/api/src/routes/invitations.rs:122-160 | after any run of edits that do not name the new user, acceptance gives it exactly the project grants its email held, leaves the email none, and changes no other subject's row |
| PermissionMatrix.FreshUserInheritsIssues | services/api/src/routes/invitations.rs:162-201 | a fresh user gets the email's issue grants, each as often as the email held it, and no other row changes |
| PermissionMatrix.ProjectReadsBack | services/api/src/routes/projects.rs:621-690 | what was stored for a project is read back exactly if and only if every user in the request is active |
| PermissionMatrix.ListedIfAllowed | services/api/src/routes/projects.rs:630-690 | a project lists exactly its allow rows, those of users while they are active |
| PermissionMatrix.EntryIfAllowed | services/api/src/routes/users.rs:287-345 | a user's overview lists exactly the user's allow rows whose project or issue exists |
| PermissionMatrix.GrantIfAllowed | services/api/src/routes/issues.rs:1063-1112 | an issue lists a user if and only if an allow row of the issue names the user |
| PermissionMatrix.InactiveUserNotReadBack | services/api/src/routes/projects.rs:645-691 | a request that names one inactive user is accepted and not read back |
| PermissionMatrix.UserReadsBack | services/api/src/routes/users.rs:287-345 | what was stored for a user, in either table, is read back exactly |
| PermissionMatrix.IssueIsSet | services/api/src/routes/issues.rs:1192-1219 | the users' rows of the issue become the requested ones and all other rows stay, in order |
| PermissionMatrix.IssueReadsBack | services/api/src/routes/issues.rs:1063-1112 | what was stored for an issue is read back: the requested entries and no others |
| PermissionMatrix.OneRowPerSubject | migrations/005_add_project_permissions.sql:9 | every run of edits and acceptances keeps one row per project and subject |
| PermissionMatrix.UserEditSeenByProjects | services/api/src/routes/projects.rs:621-690 | after an accepted user-wise edit of any reachable table every project lists the user with a permission if and only if the user is active and the edit asked for it, and all other subjects as before, in order |
| PermissionMatrix.InactiveUserEditNotSeen | services/api/src/routes/users.rs:404-413 | in every reachable table a user-wise edit that grants an inactive user a project is accepted and the project does not list the user |
| PermissionMatrix.UserEditStored | services/api/src/routes/users.rs:506-535 | in the table itself the user holds exactly the requested projects and every other subject's row is as before |

## Left out

- HTTP, authentication, SMTP, encryption, id generation and the GitLab protocol: their outcomes are parameters, ids are fresh and in canonical form, remote uploads do not change.
- Job topics and payloads, and what handlers do: to the queue a job succeeds or fails. The worker's upload cleanup and its sleeps do not touch the queue.
- The worker's endless loop is an event order, not a method: polling, claiming, handling and finishing follow one another per worker.
- JobQueueLocks.AttemptsAreAudited: counts audit rows that a failed insert or a stopped worker never wrote as lost, because the job row is updated before its audit row.
- JobQueueWaiting.WaitBounded: depends on statements being atomic. `FOR UPDATE SKIP LOCKED` passes over a row another open transaction holds, and a claim whose commit fails gives its row back after a later row was taken; neither is an event here.
- JobQueueLocks.FiveClaims: needs every lock to be respected, because JobQueueTight.ThirtyOneClaimsReached shows a run without that.
- Comment creation and import run one after the other; the handlers are not transactional and concurrent creations could draw the same local id.
- Note ids in a marker are unbounded numbers here; the front end reads them as floating point, exact up to 2^53. Authors, system notes, update times and the rewriting of comment texts are not modelled.
- CommentStore.IssueComments.CreateIssueComment: does not tell apart which statement fails among those after the comment row, and a read that fails counts with the check it is made for. Attachments, the upload's clean-up and the issue's update time are not part of that table.
- Comment texts are trimmed before they reach the model, so an empty text stands for a blank one.
- GitLab's ids are taken to be positive, new when created and different within a discussion.
- The order of listings is not modelled: neither ORDER BY nor the order among rows with equal creation times.
- `AttachmentSync` runs one sync at a time; interleaved syncs are in `AttachmentCache`, whose rows then need not be one per url.
- The cache folder is written with its closing slash, and nothing else in the system writes files of the shape `<folder><id>_...` there. Content types of cached downloads are not compared: a sync sets them from the file name again.
- Messages of cache errors are taken as stored, at most 1000 characters long.
- The url parser is a parameter of `NormalizeUploadPath`, and building the GitLab API url from the path is not modelled.
- The id parser of the upload links is a parameter: it yields canonical ids, reads those as themselves and reads nothing with a slash in it. Which other spellings it reads is left open.
- Replacing links of uploads sent to GitLab: the urls come from GitLab and could contain anything.
- Rate limiting with different windows on one limiter: pruning is then noticeable, and no caller does it.
- Counters are unbounded: the limiter's 32-bit count stays below its limit, the heartbeat's 64-bit deltas would take more jobs than can run.
- Invitations are created and expire outside the model; password, language and session columns are not modelled.
