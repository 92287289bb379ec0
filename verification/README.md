# Thesis-management pages: a verified model of their decision logic

The thesis-management application is a React front end over a hosted
document store. Four of its pages hold the pure decision logic behind the
buttons. This project models that logic in Dafny, with each handler as a
function from the page state and the store's answer to the new state and a
toast:

- **Proposal management** (module `Proposals`): a teacher's proposals
  bucketed by group; approve, reject and request-revision; which action
  buttons are live; the status badge; the download file name.
- **Account provisioning** (module `Provisioning`): the scan for the highest
  Teacher and Adviser sequence IDs; the new user document and the counter
  update; deletion; the file-container backfill.
- **My students** (module `Roster`): the roster and the pool of available
  students; the two selection toggles; grouping and enrollment; the
  grouping picker; the group colour.
- **Group details** (module `GroupView`): the live-query callbacks for the
  member list, the accepted proposal and the adviser request; the adviser
  picker; the adviser panel; request submission.

The supporting modules are:

- `Wrappers`: `Option`, JavaScript truthiness of an optional string, toasts.
- `Seqs`: `filter`, `new Set` de-duplication, `indexOf`.
- `Text`: decimal rendering and parsing, `trim`, string order.
- `Directory`: the `users` record and the teacher lookup.

Conventions:

- A document field that may be absent is an `Option`. JavaScript's `null`
  and `undefined` are both `None`.
- A string field is truthy when it is present and non-empty.
- A role string other than the four role names is `NoRole`.
- Whether the store calls of a handler succeeded is the parameter `ok`, and
  the error text is the parameter `error`.
- Clock readings are parameters. So are the uid the auth provider assigns
  and the query results the listeners deliver.

A new Student's `fileContainer` is the object `{file: null, uploadedAt:
null}` (`createAccount.jsx:135-138`), the same value the backfill writes
(`Directory.EmptyFileContainer`).

## Model

| member | source | states |
|---|---|---|
| Directory.FindTeacher | src/views/pages/teacher/proposalManagement.jsx:50-53 | None exactly when no record is a Teacher with the signed-in uid; otherwise the first such record |
| Proposals.TeacherGroups | src/views/pages/teacher/proposalManagement.jsx:59-64 | the teacher's groups are duplicate-free and non-empty, and are exactly the group IDs of Students whose `myTeacher` is the teacher's ID |
| Proposals.TeacherGroupsFollowFirstAppearance | src/views/pages/teacher/proposalManagement.jsx:59-64 | the groups come in order of first appearance among the teacher's students, so the group the page opens (`groups[0]`, line 82) is the first one to appear |
| Proposals.BucketByGroup | src/views/pages/teacher/proposalManagement.jsx:76-79 | one entry per teacher group; each entry holds exactly the fetched proposals of that group, each with its multiplicity, in fetch order (an order-preserving subsequence of the fetch) |
| Proposals.Load | src/views/pages/teacher/proposalManagement.jsx:50-83 | no Teacher record leaves the page empty; with no groups no board is built; otherwise the board is the grouping of the fetched proposals over the teacher's groups and selects the first group |
| Proposals.LoadedBoardHoldsFetched | src/views/pages/teacher/proposalManagement.jsx:66-83 | on the loaded board a group's entry holds a proposal exactly when it was fetched and belongs to that group, and every entry is one of the teacher's groups |
| Proposals.ApproveAll | src/views/pages/teacher/proposalManagement.jsx:181-190 | position by position, a proposal is accepted iff it is the approved one and rejected iff it is not; content and comment are kept |
| Proposals.Approve | src/views/pages/teacher/proposalManagement.jsx:162-202 | success rewrites only the selected group (accept one, reject the rest) with the success toast; failure changes nothing and raises the failure toast |
| Proposals.ApproveAcceptsExactlyOne | src/views/pages/teacher/proposalManagement.jsx:181-190 | in a group with unique ids, approving one proposal leaves exactly one accepted proposal, the approved one |
| Proposals.Reject | src/views/pages/teacher/proposalManagement.jsx:204-229 | success sets only the target to rejected; every other proposal and every other group is unchanged; failure changes nothing |
| Proposals.RequestRevision | src/views/pages/teacher/proposalManagement.jsx:237-282 | a blank comment (only characters `trim` removes) changes nothing and raises the warning; otherwise success marks the target needs-revision with the comment and touches nothing else |
| Proposals.HandlersPreserveSingleAcceptance | src/views/pages/teacher/proposalManagement.jsx:162-282 | in every group, at most one proposal is accepted; each of the three handlers preserves this, on success and on failure |
| Proposals.ButtonsLiveIff | src/views/pages/teacher/proposalManagement.jsx:299-309 | a proposal's buttons are live exactly when it needs revision, or it is pending and no proposal of its group is accepted |
| Proposals.IsButtonDisabled | src/views/pages/teacher/proposalManagement.jsx:299-309 | the buttons of a proposal are disabled when it is accepted or rejected, or when its group has an accepted proposal and it is not awaiting revision |
| Proposals.ApproveDisablesGroup | src/views/pages/teacher/proposalManagement.jsx:299-309 | after a successful approve every button of the group is disabled |
| Proposals.BadgeColorDistinguishesStatus | src/views/pages/teacher/proposalManagement.jsx:285-296 | the four statuses get four different badge colours |
| Proposals.StatusBadgeColor | src/views/pages/teacher/proposalManagement.jsx:285-296 | accepted, rejected and needs-revision map to success, danger and warning; every other status (`Pending`) to secondary |
| Proposals.ApproveWrites | src/views/pages/teacher/proposalManagement.jsx:163-179 | the store writes of approve: first the accepting write for the target, then a rejecting write for every sibling and for nothing else |
| Proposals.RejectWrites | src/views/pages/teacher/proposalManagement.jsx:206-210 | reject issues one write: the target becomes rejected, stamped with the time |
| Proposals.RevisionWrites | src/views/pages/teacher/proposalManagement.jsx:248-252 | revise issues one write: the target becomes needs-revision with the comment, stamped with the time |
| Proposals.ApplyWrites | src/views/pages/teacher/proposalManagement.jsx:163-179 | the stored document after a list of `updateDoc` calls: only status and comment change, a document no write addresses is untouched, and the last write addressed to it decides its status |
| Proposals.ApplyRejections | src/views/pages/teacher/proposalManagement.jsx:170-179 | applying a list of rejecting writes rejects exactly the proposals it names |
| Proposals.ApproveStoreAgrees | src/views/pages/teacher/proposalManagement.jsx:163-190 | the stored group after approve's writes equals the page's own update of the group |
| Proposals.RejectAndReviseStoreAgree | src/views/pages/teacher/proposalManagement.jsx:206-266 | for reject and for revision, the stored statuses and comment after the write equal the page's own update |
| Proposals.AfterLastSlash | src/views/pages/teacher/proposalManagement.jsx:134 | `split('/').pop()`: a suffix of the path with no `/`, which is the whole path or follows a `/` |
| Proposals.BeforeFirstQuery | src/views/pages/teacher/proposalManagement.jsx:134 | `split('?')[0]`: a prefix with no `?`, which is the whole text or is followed by a `?` |
| Proposals.DownloadName | src/views/pages/teacher/proposalManagement.jsx:134 | the file name is non-empty and has no `/` or `?`; it is the text after the last `/` cut at the first `?` whenever that is non-empty, and `abstract.pdf` otherwise |
| Proposals.BeforeFirstQueryUnique | src/views/pages/teacher/proposalManagement.jsx:134 | any prefix with no `?` that is the whole text or stops at a `?` is `split('?')[0]` |
| Proposals.CutIsOnlyName | src/views/pages/teacher/proposalManagement.jsx:134 | a path has one candidate name: whatever starts right after the last `/` and stops at a `?` or the end is the cut segment |
| Proposals.DownloadNameFallback | src/views/pages/teacher/proposalManagement.jsx:134 | when the cut text is empty the name is `abstract.pdf` |
| Provisioning.FetchUsers | src/views/pages/admin/createAccount.jsx:85-109 | the two counters are the maxima of the Teacher and Adviser IDs of the records that have one, or 0 when none has |
| Provisioning.NewUserDocument | src/views/pages/admin/createAccount.jsx:120-140 | only a Teacher gets `teacherID` and only an Adviser gets `adviserID`, each the decimal digits of max+1 with no leading zero, as `toString` writes them; a Student gets empty group, teacher and adviser and an empty file container; other roles get no role field |
| Provisioning.AddUser | src/views/pages/admin/createAccount.jsx:111-171 | success appends the listed entry, writes the document and advances only the counter of the created role; failure leaves list and counters unchanged with the error toast |
| Provisioning.ListedUser | src/views/pages/admin/createAccount.jsx:142 | the row appended to the page's list carries only id, name, email, role and photo |
| Provisioning.ListedRowIsDocumentHead | src/views/pages/admin/createAccount.jsx:120-142 | the listed row is the written document with every role field dropped |
| Provisioning.FirstAndNextIds | src/views/pages/admin/createAccount.jsx:120-130 | an empty directory yields ID "1", and a max of 5 yields "6" |
| Provisioning.SuccessiveIdsIncrease | src/views/pages/admin/createAccount.jsx:150-155 | two successive creations of the same sequenced role get different IDs, the second one more than the first |
| Provisioning.CreatedIdIsFresh | src/views/pages/admin/createAccount.jsx:91-130 | when the counters cover the directory, the new ID differs from every ID of that role already listed |
| Provisioning.CountersCoverKept | src/views/pages/admin/createAccount.jsx:142-155 | the counters from the scan cover the directory, and a creation keeps them covering it |
| Provisioning.DeleteUser | src/views/pages/admin/createAccount.jsx:185-191 | success keeps exactly the records whose id differs from the deleted one; failure keeps the list |
| Provisioning.DeleteToast | src/views/pages/admin/createAccount.jsx:192-201 | success raises a warning toast, failure the error toast |
| Provisioning.DeleteRemovesExactlyOne | src/views/pages/admin/createAccount.jsx:189 | with unique ids, deleting the record at position k is the list with position k cut out, the rest in order |
| Provisioning.Backfill | src/views/pages/admin/createAccount.jsx:61-82 | only Students without a file container change, and only in that field, which becomes `{file: null, uploadedAt: null}`; afterwards every Student has one |
| Provisioning.BackfillIdempotent | src/views/pages/admin/createAccount.jsx:63-77 | running the backfill twice is the same as once |
| Text.NatToDecimal | src/views/pages/admin/createAccount.jsx:129-130 | `toString` of a natural number gives decimal digits without a leading zero |
| Text.ParseDecimal | src/views/pages/admin/createAccount.jsx:96-99 | `parseInt(s, 10)` of a digit string; one without a leading zero parses to a positive number |
| Text.RenderParsed | src/views/pages/admin/createAccount.jsx:96-130 | a digit string without a leading zero is the `toString` of what it parses to |
| Text.ParseRendered | src/views/pages/admin/createAccount.jsx:96-99 | `parseInt(n.toString(), 10) == n` |
| Text.RenderInjective | src/views/pages/admin/createAccount.jsx:129-130 | different numbers render to different ID strings |
| Text.TrimEmptyIffBlank | src/views/pages/teacher/proposalManagement.jsx:238 | `trim()` is empty exactly when every character is one `trim` removes |
| Text.Trim | src/views/pages/teacher/proposalManagement.jsx:238 | `trim()` is a slice of the text, everything around it is white space, and it neither starts nor ends with white space |
| Text.LexLeTotal | src/views/pages/teacher/myStudents.jsx:57 | any two group keys are comparable |
| Text.LexLeTransitive | src/views/pages/teacher/myStudents.jsx:57 | the key order is transitive |
| Roster.SortBySortsStably | src/views/pages/teacher/myStudents.jsx:57 | the sort's result is ordered by key, and students with equal keys keep their relative order |
| Roster.SortBy | src/views/pages/teacher/myStudents.jsx:57 | the sort returns a permutation of its input |
| Roster.SortByGroup | src/views/pages/teacher/myStudents.jsx:57 | a stable permutation ordered by group ID, a missing ID counting as `''` |
| Roster.RosterOf | src/views/pages/teacher/myStudents.jsx:52-59 | the roster is exactly the Students of the teacher, each with its multiplicity, sorted by group |
| Roster.AvailableStudents | src/views/pages/teacher/myStudents.jsx:61-67 | the pool is exactly the Students with a falsy `myTeacher`, each as often as in the directory and in directory order (an order-preserving selection) |
| Roster.UngroupedStudents | src/views/pages/teacher/myStudents.jsx:272-273 | the grouping picker lists exactly the roster's students with a falsy group ID, each as often as on the roster and in roster order |
| Roster.ToggleGroupSelection | src/views/pages/teacher/myStudents.jsx:73-79 | removes a present id; adds an absent one only below 3; never exceeds 3 or repeats; other ids unaffected |
| Roster.CheckboxDisabled | src/views/pages/teacher/myStudents.jsx:280-282 | a checkbox is disabled when three students are selected and it is not one of them |
| Roster.DisabledCheckboxIsInert | src/views/pages/teacher/myStudents.jsx:277-282 | a checkbox disabled at 3 selections would not change the selection if clicked |
| Roster.ToggleEnrollSelection | src/views/pages/teacher/myStudents.jsx:81-87 | flips the membership of one id, uncapped, keeping the rest and uniqueness |
| Roster.ToggleEnrollTwice | src/views/pages/teacher/myStudents.jsx:81-87 | toggling twice restores the selection as a set, and the exact sequence when the id was absent |
| Roster.AssignGroup | src/views/pages/teacher/myStudents.jsx:105-111 | exactly the selected students get the new group ID; nothing else in any record changes |
| Roster.NewGroupID | src/views/pages/teacher/myStudents.jsx:98 | a new group ID is `group-` followed by the decimal digits of the clock reading |
| Roster.NewGroupIdsDiffer | src/views/pages/teacher/myStudents.jsx:98 | groups created at different clock readings get different IDs |
| Roster.GroupStudents | src/views/pages/teacher/myStudents.jsx:89-125 | an empty selection is refused with the warning; failure changes nothing; success regroups, re-sorts stably (students with the same group key keep their order) and clears the selection |
| Roster.Enrolled | src/views/pages/teacher/myStudents.jsx:142-147 | the appended students are the selected available ones with `myTeacher` set, each once and in pool order: an order-preserving selection from the pool as long as the number of selected pool records |
| Roster.EnrollStudents | src/views/pages/teacher/myStudents.jsx:127-161 | an empty selection is refused; failure changes nothing; success keeps the roster as a prefix, appends each selected available student once, in pool order, and clears the selection |
| Roster.LoadedListsDisjoint | src/views/pages/teacher/myStudents.jsx:52-67 | with unique record ids and a truthy teacher ID, no student is both on the roster and in the pool |
| Roster.GroupingKeepsListsDisjoint | src/views/pages/teacher/myStudents.jsx:105-111 | grouping keeps the roster and the pool apart |
| Roster.EnrollTwiceListsStudentTwice | src/views/pages/teacher/myStudents.jsx:142-147 | as written, enrolling the same student twice lists it twice on the roster |
| Roster.EnrollStudentsCorrected | src/views/pages/teacher/myStudents.jsx:127-161 | the same roster update and toast, and the enrolled students leave the pool |
| Roster.CorrectedEnrollKeepsListsDisjoint | src/views/pages/teacher/myStudents.jsx:142-147 | the corrected enrollment keeps the lists apart and never appends a student already on the roster |
| Roster.GroupOrder | src/views/pages/teacher/myStudents.jsx:164 | the roster's group IDs, each once |
| Seqs.Dedup | src/views/pages/teacher/myStudents.jsx:164 | `[...new Set(s)]`: the elements of `s`, each once |
| Seqs.IndexOf | src/views/pages/teacher/myStudents.jsx:164 | `indexOf`: -1 exactly when absent, otherwise the first position holding the element |
| Seqs.DedupKeepsFirstAppearanceOrder | src/views/pages/teacher/myStudents.jsx:164 | `new Set` keeps the order of first appearance |
| Roster.SlotsFollowFirstAppearance | src/views/pages/teacher/myStudents.jsx:164 | a group whose first student comes earlier gets the earlier palette slot |
| Roster.GroupColor | src/views/pages/teacher/myStudents.jsx:163-166 | a group on the roster gets the palette entry at its first-appearance index mod 7; a group not on it gets no colour |
| Roster.FirstSevenGroupsDistinct | src/views/pages/teacher/myStudents.jsx:163-166 | the first seven groups get seven different colours |
| Roster.PaletteUnique | src/views/pages/teacher/myStudents.jsx:25 | the palette's seven colours differ |
| GroupView.OnUserSnapshot | src/views/pages/student/groupDetails.jsx:61-67 | only the group field can change; afterwards the page has a truthy group exactly when it had one or the result's first document carries one, and a changed group is that document's |
| GroupView.GroupStaysOnceArrived | src/views/pages/student/groupDetails.jsx:61-67 | once any result carried a group, later empty or group-less results never clear it, so with an adviser selected a submission passes the group half of its guard |
| GroupView.ToMember | src/views/pages/student/groupDetails.jsx:73-78 | a present name, email or picture is shown as is; a missing one becomes 'Unknown Name', 'No Email' or the default picture, so none is empty |
| GroupView.MembersOf | src/views/pages/student/groupDetails.jsx:71-79 | the members are the Student documents one for one and in result order, each shown with defaults |
| GroupView.OnMembersSnapshot | src/views/pages/student/groupDetails.jsx:71-85 | replaces the member list with the Student documents of the result, one for one and in order, and changes nothing else |
| GroupView.OnProposalSnapshot | src/views/pages/student/groupDetails.jsx:95-108 | an empty result blanks title, description, client and field; otherwise the first result's fields, `''` when missing; nothing else changes |
| GroupView.SnapshotsCommuteAndSettle | src/views/pages/student/groupDetails.jsx:81-108 | the members and proposal callbacks commute, and replaying either is a no-op |
| GroupView.OnRequestSnapshot | src/views/pages/student/groupDetails.jsx:115-127 | an empty result changes nothing; otherwise the first request's adviser and status are shown; a rejected one records that adviser and the rejection message; no other field changes |
| GroupView.ClickAdviser | src/views/pages/student/groupDetails.jsx:340-345 | a rejected adviser's click changes nothing; any other selects it and clears the message |
| GroupView.ShowsAdviserName | src/views/pages/student/groupDetails.jsx:304 | the adviser's name is shown while one is selected and its request is not rejected |
| GroupView.RejectedAdviserStaysExcluded | src/views/pages/student/groupDetails.jsx:115-127 | after a rejection the name is hidden, the message is up, and clicking that adviser again does nothing |
| GroupView.SubmitRequest | src/views/pages/student/groupDetails.jsx:178-216 | without an adviser or a group: no request and the error toast; failure: no change and the failure toast; success: a pending request with the adviser and copies of members and proposal, and the page shows pending |
| GroupView.ResetPicker | src/views/pages/student/groupDetails.jsx:323-329 | opening or closing the picker clears the selection and nothing else |
| GroupView.OpenPickerNeedsAClick | src/views/pages/student/groupDetails.jsx:323-329 | submitting from a freshly opened picker is refused |
| GroupView.AdviserPanel | src/views/pages/student/groupDetails.jsx:296-316 | the alert shows the rejection message; the name shows exactly when an adviser is selected and not rejected; the pending tag exactly when pending; a pick button exactly when a message is up or nothing is selected |
| GroupView.PanelFollowsRequest | src/views/pages/student/groupDetails.jsx:178-216 | right after a successful submission the closed picker shows no name; once the created request is reported first the adviser's name shows as pending; a rejection reported first hides it and offers the picker |
| GroupView.SettleSubmission | src/views/pages/student/groupDetails.jsx:178-206 | a refused submission (no adviser or no group) leaves the view as it was; after a successful one the listener reports the group's requests with the created one at some position: when it is first, the same adviser is selected, the status is pending and nothing else has changed; when an earlier request is first, that request's adviser and status are shown; the result does not depend on whether the close clears the selection |
| GroupView.ReportWith | src/views/pages/student/groupDetails.jsx:113-115 | the listener's report is the group's earlier requests with the created one inserted at the given position, the rest in their order |
| GroupView.ResubmitAfterRejection | src/views/pages/student/groupDetails.jsx:178-216 | after a rejection, picking another adviser and submitting creates that adviser's request; when it is reported first, its name shows as pending and the rejection alert is gone |
| GroupView.ResubmitCanShowOldRejection | src/views/pages/student/groupDetails.jsx:113-127 | as written, when the listener lists the rejected request before the new one, the resubmission is followed by the rejected adviser being selected again, the rejection alert and the picker button, with no pending name |
| GroupView.NewestFirstReport | src/views/pages/student/groupDetails.jsx:113-115 | the intended report puts the created request first and the earlier ones after it |
| GroupView.NewestFirstResubmitShowsNewAdviser | src/views/pages/student/groupDetails.jsx:113-127 | with the report ordered newest first, a resubmission after a rejection shows the new adviser as pending with no rejection alert, whatever earlier requests the group has |

## Left out

- All store, auth and file-storage I/O. Query results are inputs; writes are returned values; success is the parameter `ok`.
- Listener registration and teardown, and the order in which concurrent callbacks fire: event-loop plumbing.
- Races between concurrent handlers, including two approvals at once and two creations reading the same maximum ID. Each handler is one atomic step.
- Partial store failure: a handler whose writes fail part-way (for example, approve after the accepting write but during the sibling writes) is modelled as failing entirely.
- Timestamps (`Date.now()`, `toISOString()`, `serverTimestamp()`) are parameters. The adviser request's timestamp field is not modelled.
- The admin re-sign-in inside `handleAddUser` and the credential creation are foreign calls; the new uid is a parameter.
- `src/backend/firebase.js` (SDK setup and thin read/update wrappers) is not part of this model.
- Rendering, styling, modals' visibility, loading flags, `handleGroupSelect`, `handleRevise`, the download anchor and toast display.
- The advisers query in `groupDetails.jsx` (152-176): the picker's entries are the argument of `ClickAdviser`.
- Roster.SortByGroup: orders group IDs by code-point lexicographic order, not by the locale collation of `localeCompare`.
- Provisioning.FetchUsers: requires every Teacher and Adviser ID to be a decimal digit string; `parseInt` on other text gives `NaN`, which `Math.max` would propagate, and that path is not modelled.
- Text.NatToDecimal: renders every natural number in plain digits; JavaScript switches to exponent notation from 10^21 on.
- Text.ParseDecimal: parses into an unbounded natural number. JavaScript numbers are doubles, so `parseInt` rounds a digit string above 2^53 and `maxTeacherID + 1` stops growing there; above that bound the claims of `Text.ParseRendered`, `Provisioning.SuccessiveIdsIncrease` and `Provisioning.CreatedIdIsFresh` do not hold for the program.
- Proposals.Approve: requires a selected group that has an entry, as do `Reject` and `RequestRevision`; the page renders the action buttons only in that case (`proposalManagement.jsx:390`).
- GroupView.ClickAdviser: an adviser's `uid` and `name` are taken as present strings; a record lacking them is not modelled.
- Proposals.Load: the failure path of the initial fetch (`proposalManagement.jsx:87-93`: error toast, page left empty) is not modelled; `Load` has no `ok` parameter.
- Proposals.Status: a status string other than the three the page compares with is `Pending`; the page treats all of them alike, so nothing is lost.
- Roster.GroupColor: a `null` and a missing (`undefined`) group ID are both `None`; `new Set` keeps them as two entries, so on a roster holding both, the palette slots of the groups after the second one shift by one, which the model does not show.
- GroupView.SettleSubmission: assumes the picker's `onClose` handler (which clears the selection) runs when the successful submission hides the picker (`groupDetails.jsx:204`, 323-326); if it does not, the selection simply stays, and the settled view is the same. The listener's report is modelled as one snapshot holding every request of the group; intermediate snapshots are not.
- GroupView.OnRequestSnapshot: a request's status is one of the three names the page writes or compares with; other status strings are not modelled.

## Findings

| source | as written | input that shows it | evidently intended | confidence | as-written member | corrected member |
|---|---|---|---|---|---|---|
| src/views/pages/teacher/myStudents.jsx:142-147 | a successful enrollment appends the students to the roster but leaves them in the pool of available students, which the enroll list shows unfiltered | enroll student `s1`, then tick `s1` again in the same list and enroll: the roster lists `s1` twice | enrolled students leave the pool, as a fresh load would show (the pool is the Students without a teacher) | medium, not executed | Roster.EnrollTwiceListsStudentTwice | Roster.CorrectedEnrollKeepsListsDisjoint |
| src/views/pages/student/groupDetails.jsx:113-127 | the request listener queries the group's requests with no ordering and shows the first document | a group whose request to adviser `A` was rejected, and whose request document's ID sorts before the new one's, picks adviser `B` and submits: the listener lists the rejected request first, so `A` is selected again with the rejection alert and `B`'s pending request is not shown | the newest request decides (e.g. ordered by `timestamp`, descending) | medium, not executed | GroupView.ResubmitCanShowOldRejection | GroupView.NewestFirstResubmitShowsNewAdviser |
