/** The teacher's proposal management page: proposals bucketed by group, the
    approve / reject / request-revision transitions, the rule that decides
    which action buttons are live, and the download file name of an
    abstract form. Store writes are returned as data; whether the store
    calls succeeded is the parameter `ok`. */
module Proposals {
  import opened Wrappers
  import opened Seqs
  import opened Text
  import opened Directory

  /** A proposal's status. The page compares only with `accepted`,
      `rejected` and `needs_revision`, so `Pending` stands for every other
      status string, `pending` included: all of them behave alike. */
  datatype Status = Pending | Accepted | Rejected | NeedsRevision

  /** A proposal document with its document id. */
  datatype Proposal = Proposal(
    id: string,
    groupID: Option<string>,
    title: Option<string>,
    description: Option<string>,
    client: Option<string>,
    field: Option<string>,
    status: Status,
    teacherComment: Option<string>,
    abstractForm: Option<string>)

  /** The page state: each of the teacher's groups with its proposals, and
      the group on screen (`selectedGroup`). */
  datatype Board = Board(byGroup: map<string, seq<Proposal>>, selected: Option<string>)

  /** What the page holds once loaded: the teacher's ID, their groups and the board. */
  datatype TeacherPage = TeacherPage(teacherID: Option<string>, groups: seq<string>, board: Board)

  /** The state of the page before anything is fetched. */
  const InitialPage := TeacherPage(None, [], Board(map[], None))

  /** The result of one handler: the new board and the toast it raises. */
  datatype Step = Step(board: Board, toast: Toast)

  const ApprovedToast := Toast(SuccessToast, "Proposal Approved")
  const ApproveFailedToast := Toast(DangerToast, "Failed to approve")
  const RejectedToast := Toast(SuccessToast, "Proposal Rejected")
  const RejectFailedToast := Toast(DangerToast, "Failed to reject")
  const BlankCommentToast := Toast(DangerToast, "Please add comments for revision")
  const RevisionToast := Toast(SuccessToast, "Revision requested")
  const RevisionFailedToast := Toast(DangerToast, "Error requesting revision")

  /** The file name used when the abstract form's path yields none. */
  const DefaultAbstractName: string := "abstract.pdf"

  // ---------------------------------------------------------------------
  // Loading: the teacher's groups and the proposals bucketed by group

  /** The group IDs of the teacher's students, one per student, in directory order. */
  function StudentGroupIds(users: seq<User>, teacherID: Option<string>): (ids: seq<Option<string>>)
    ensures forall g :: Some(g) in ids <==>
      exists u :: u in users && IsStudentOf(u, teacherID) && u.groupID == Some(g)
  {
    var mine := (u: User) => IsStudentOf(u, teacherID);
    var students := Filter(users, mine);
    var ids := seq(|students|, i requires 0 <= i < |students| => students[i].groupID);
    forall g ensures Some(g) in ids <==>
      exists u :: u in users && IsStudentOf(u, teacherID) && u.groupID == Some(g)
    {
      if Some(g) in ids {
        var i :| 0 <= i < |students| && ids[i] == Some(g);
        FilterMembership(users, mine, students[i]);
      }
      if exists u :: u in users && IsStudentOf(u, teacherID) && u.groupID == Some(g) {
        var u :| u in users && IsStudentOf(u, teacherID) && u.groupID == Some(g);
        FilterMembership(users, mine, u);
        var i :| 0 <= i < |students| && students[i] == u;
        assert ids[i] == Some(g);
      }
    }
    ids
  }

  /** The strings inside a sequence of present values. */
  function Unwrap(s: seq<Option<string>>): (r: seq<string>)
    requires forall i :: 0 <= i < |s| ==> s[i].Some?
    ensures |r| == |s|
    ensures forall i :: 0 <= i < |r| ==> s[i] == Some(r[i])
  {
    seq(|s|, i requires 0 <= i < |s| => s[i].value)
  }

  lemma UnwrapFacts(s: seq<Option<string>>)
    requires forall i :: 0 <= i < |s| ==> s[i].Some?
    ensures Unique(s) ==> Unique(Unwrap(s))
    ensures forall g :: g in Unwrap(s) <==> Some(g) in s
  {
    var r := Unwrap(s);
    forall g ensures g in r <==> Some(g) in s {
      if Some(g) in s {
        var i :| 0 <= i < |s| && s[i] == Some(g);
        assert r[i] == g;
      }
    }
  }

  /** The distinct, non-empty group IDs of the teacher's students, in order of
      first appearance: `[...new Set(students.map(s => s.groupID))].filter(Boolean)`. */
  function TeacherGroups(users: seq<User>, teacherID: Option<string>): (r: seq<string>)
    ensures Unique(r)
    ensures forall i :: 0 <= i < |r| ==> r[i] != ""
    ensures forall g :: g in r <==>
      g != "" && exists u :: u in users && IsStudentOf(u, teacherID) && u.groupID == Some(g)
  {
    var ids := StudentGroupIds(users, teacherID);
    var present := Filter(Dedup(ids), Truthy);
    FilterUnique(Dedup(ids), Truthy);
    UnwrapFacts(present);
    forall g ensures Some(g) in present <==> Some(g) in ids && g != "" {
      FilterMembership(Dedup(ids), Truthy, Some(g));
    }
    Unwrap(present)
  }

  /** The groups come in order of first appearance among the teacher's
      students, so `groups[0]`, the group the page opens, is the group of
      the first such student with a non-empty group ID. */
  lemma TeacherGroupsFollowFirstAppearance(users: seq<User>, teacherID: Option<string>, i: nat, j: nat)
    requires i < j < |TeacherGroups(users, teacherID)|
    ensures var r, ids := TeacherGroups(users, teacherID), StudentGroupIds(users, teacherID);
      IndexOf(ids, Some(r[i])) < IndexOf(ids, Some(r[j]))
  {
    var ids := StudentGroupIds(users, teacherID);
    var d := Dedup(ids);
    var present := Filter(d, Truthy);
    FilterKeepsOrder(d, Truthy, i, j);
    FilterMembership(d, Truthy, present[i]);
    FilterMembership(d, Truthy, present[j]);
    DedupKeepsFirstAppearanceOrder(ids, present[i], present[j]);
  }

  predicate InGroup(p: Proposal, g: string) {
    p.groupID == Some(g)
  }

  /** The filter the grouping reduce applies for group `g`. */
  function OfGroup(g: string): Proposal -> bool {
    p => InGroup(p, g)
  }

  /** The grouping reduce: each of `groups` mapped to the fetched proposals of
      that group, in fetch order. */
  function BucketByGroup(groups: seq<string>, fetched: seq<Proposal>): (r: map<string, seq<Proposal>>)
    ensures r.Keys == set g | g in groups
    ensures forall g, p :: g in r ==> multiset(r[g])[p] == if InGroup(p, g) then multiset(fetched)[p] else 0
    ensures forall g :: g in r ==> IsSubsequence(r[g], fetched)
  {
    forall g, p | g in groups
      ensures multiset(Filter(fetched, OfGroup(g)))[p] == if InGroup(p, g) then multiset(fetched)[p] else 0
    {
      FilterCount(fetched, OfGroup(g), p);
    }
    forall g | g in groups ensures IsSubsequence(Filter(fetched, OfGroup(g)), fetched) {
      FilterIsSubsequence(fetched, OfGroup(g));
    }
    map g | g in groups :: Filter(fetched, OfGroup(g))
  }

  /** The initial fetch: find the signed-in Teacher, derive their groups and,
      when there is at least one, bucket the proposals and select the first
      group. */
  function Load(users: seq<User>, uid: string, fetched: seq<Proposal>): (r: TeacherPage)
    ensures FindTeacher(users, uid).None? ==> r == InitialPage
    ensures FindTeacher(users, uid).Some? ==>
      var t := FindTeacher(users, uid).value;
      && r.teacherID == t.teacherID
      && r.groups == TeacherGroups(users, t.teacherID)
      && (r.groups == [] ==> r.board == InitialPage.board)
      && (r.groups != [] ==> r.board.selected == Some(r.groups[0]) && HasSelection(r.board))
      && r.board.byGroup.Keys == set g | g in r.groups
      && (r.groups != [] ==> r.board.byGroup == BucketByGroup(r.groups, fetched))
  {
    match FindTeacher(users, uid)
    case None => InitialPage
    case Some(t) =>
      var groups := TeacherGroups(users, t.teacherID);
      if groups == [] then TeacherPage(t.teacherID, groups, InitialPage.board)
      else TeacherPage(t.teacherID, groups, Board(BucketByGroup(groups, fetched), Some(groups[0])))
  }

  /** Once loaded, every fetched proposal of one of the teacher's groups is
      on the board under that group, and the board holds nothing else. */
  lemma LoadedBoardHoldsFetched(users: seq<User>, uid: string, fetched: seq<Proposal>, g: string, p: Proposal)
    ensures var r := Load(users, uid, fetched);
      g in r.board.byGroup ==>
        && g in r.groups
        && (p in r.board.byGroup[g] <==> p in fetched && p.groupID == Some(g))
  {
    var r := Load(users, uid, fetched);
    if g in r.board.byGroup {
      assert multiset(r.board.byGroup[g])[p] == if InGroup(p, g) then multiset(fetched)[p] else 0;
    }
  }

  // ---------------------------------------------------------------------
  // The group on screen and the single-acceptance invariant

  /** The handlers act on the selected group's list, which must exist. */
  predicate HasSelection(b: Board) {
    b.selected.Some? && b.selected.value in b.byGroup
  }

  function Selected(b: Board): seq<Proposal>
    requires HasSelection(b)
  {
    b.byGroup[b.selected.value]
  }

  /** Proposal ids are document ids, so no two proposals share one. */
  ghost predicate UniqueIds(s: seq<Proposal>) {
    forall i, j :: 0 <= i < j < |s| ==> s[i].id != s[j].id
  }

  ghost predicate AtMostOneAccepted(s: seq<Proposal>) {
    forall i, j :: 0 <= i < j < |s| && s[i].status == Accepted ==> s[j].status != Accepted
  }

  /** Every group of the board has at most one accepted proposal. */
  ghost predicate SingleAcceptance(b: Board) {
    forall g :: g in b.byGroup ==> AtMostOneAccepted(b.byGroup[g])
  }

  /** `q` is `p` with at most its status and teacher comment changed. */
  predicate SameProposal(p: Proposal, q: Proposal) {
    q.(status := p.status, teacherComment := p.teacherComment) == p
  }

  /** The board with the selected group's list replaced. */
  function WithSelected(b: Board, s: seq<Proposal>): (r: Board)
    requires HasSelection(b)
    ensures HasSelection(r) && Selected(r) == s
    ensures r.selected == b.selected && r.byGroup.Keys == b.byGroup.Keys
    ensures forall g :: g in b.byGroup && Some(g) != b.selected ==> r.byGroup[g] == b.byGroup[g]
  {
    b.(byGroup := b.byGroup[b.selected.value := s])
  }

  // ---------------------------------------------------------------------
  // Transitions

  /** Approve `pid` within `s`: it becomes accepted and every sibling rejected. */
  function ApproveAll(s: seq<Proposal>, pid: string): (r: seq<Proposal>)
    ensures |r| == |s|
    ensures forall i :: 0 <= i < |r| ==> (r[i].status == Accepted <==> s[i].id == pid)
    ensures forall i :: 0 <= i < |r| ==> (r[i].status == Rejected <==> s[i].id != pid)
    ensures forall i :: 0 <= i < |r| ==> SameProposal(s[i], r[i]) && r[i].teacherComment == s[i].teacherComment
  {
    seq(|s|, i requires 0 <= i < |s| =>
      s[i].(status := if s[i].id == pid then Accepted else Rejected))
  }

  /** `handleApprove`: when the store writes succeed, the selected group's
      list is rewritten by `ApproveAll`; otherwise nothing changes. */
  function Approve(b: Board, pid: string, ok: bool): (r: Step)
    requires HasSelection(b)
    ensures HasSelection(r.board) && r.board.selected == b.selected
    ensures r.board.byGroup.Keys == b.byGroup.Keys
    ensures forall g :: g in b.byGroup && Some(g) != b.selected ==> r.board.byGroup[g] == b.byGroup[g]
    ensures ok ==> r.toast == ApprovedToast && Selected(r.board) == ApproveAll(Selected(b), pid)
    ensures !ok ==> r == Step(b, ApproveFailedToast)
  {
    if ok then Step(WithSelected(b, ApproveAll(Selected(b), pid)), ApprovedToast)
    else Step(b, ApproveFailedToast)
  }

  /** After approving a proposal of the selected group, exactly that proposal
      is accepted and every other one in the group is rejected. */
  lemma ApproveAcceptsExactlyOne(b: Board, k: nat)
    requires HasSelection(b) && UniqueIds(Selected(b)) && k < |Selected(b)|
    ensures var s := Selected(Approve(b, Selected(b)[k].id, true).board);
      && |s| == |Selected(b)|
      && s[k].status == Accepted
      && forall j :: 0 <= j < |s| && j != k ==> s[j].status == Rejected
  {
  }

  /** `handleReject`: only the target proposal becomes rejected. */
  function Reject(b: Board, pid: string, ok: bool): (r: Step)
    requires HasSelection(b)
    ensures HasSelection(r.board) && r.board.selected == b.selected
    ensures r.board.byGroup.Keys == b.byGroup.Keys
    ensures forall g :: g in b.byGroup && Some(g) != b.selected ==> r.board.byGroup[g] == b.byGroup[g]
    ensures ok ==> r.toast == RejectedToast && |Selected(r.board)| == |Selected(b)|
    ensures ok ==> forall i :: 0 <= i < |Selected(b)| ==>
      var p, q := Selected(b)[i], Selected(r.board)[i];
      && SameProposal(p, q) && q.teacherComment == p.teacherComment
      && q.status == (if p.id == pid then Rejected else p.status)
    ensures !ok ==> r == Step(b, RejectFailedToast)
  {
    if ok then
      var s := Selected(b);
      Step(WithSelected(b, seq(|s|, i requires 0 <= i < |s| =>
        if s[i].id == pid then s[i].(status := Rejected) else s[i])), RejectedToast)
    else Step(b, RejectFailedToast)
  }

  /** `handleRevisionSubmit`: a blank comment is refused before anything is
      written; otherwise the target proposal needs revision and carries the
      comment. */
  function RequestRevision(b: Board, pid: string, comment: string, ok: bool): (r: Step)
    requires HasSelection(b)
    ensures HasSelection(r.board) && r.board.selected == b.selected
    ensures r.board.byGroup.Keys == b.byGroup.Keys
    ensures forall g :: g in b.byGroup && Some(g) != b.selected ==> r.board.byGroup[g] == b.byGroup[g]
    ensures (forall i :: 0 <= i < |comment| ==> IsWhitespace(comment[i])) ==>
      r == Step(b, BlankCommentToast)
    ensures (exists i :: 0 <= i < |comment| && !IsWhitespace(comment[i])) && ok ==>
      && r.toast == RevisionToast
      && |Selected(r.board)| == |Selected(b)|
      && forall i :: 0 <= i < |Selected(b)| ==>
        var p, q := Selected(b)[i], Selected(r.board)[i];
        && SameProposal(p, q)
        && (p.id == pid ==> q.status == NeedsRevision && q.teacherComment == Some(comment))
        && (p.id != pid ==> q == p)
    ensures (exists i :: 0 <= i < |comment| && !IsWhitespace(comment[i])) && !ok ==>
      r == Step(b, RevisionFailedToast)
  {
    if IsBlankComment(comment) then Step(b, BlankCommentToast)
    else if ok then Step(WithSelected(b, MarkForRevision(Selected(b), pid, comment)), RevisionToast)
    else Step(b, RevisionFailedToast)
  }

  /** `!revisionComment.trim()`. */
  function IsBlankComment(comment: string): (blank: bool)
    ensures blank <==> forall i :: 0 <= i < |comment| ==> IsWhitespace(comment[i])
  {
    TrimEmptyIffBlank(comment);
    Trim(comment) == []
  }

  /** The revision update of the group's list. */
  function MarkForRevision(s: seq<Proposal>, pid: string, comment: string): (r: seq<Proposal>)
    ensures |r| == |s|
    ensures forall i :: 0 <= i < |s| ==>
      && SameProposal(s[i], r[i])
      && (s[i].id == pid ==> r[i].status == NeedsRevision && r[i].teacherComment == Some(comment))
      && (s[i].id != pid ==> r[i] == s[i])
  {
    seq(|s|, i requires 0 <= i < |s| =>
      if s[i].id == pid then s[i].(status := NeedsRevision, teacherComment := Some(comment))
      else s[i])
  }

  /** Approve establishes single acceptance in the selected group; reject and
      request-revision never create an accepted proposal; every other group
      is untouched. So all three handlers preserve `SingleAcceptance`. */
  lemma {:induction false} HandlersPreserveSingleAcceptance(b: Board, pid: string, comment: string, ok: bool)
    requires HasSelection(b) && SingleAcceptance(b) && UniqueIds(Selected(b))
    ensures SingleAcceptance(Approve(b, pid, ok).board)
    ensures SingleAcceptance(Reject(b, pid, ok).board)
    ensures SingleAcceptance(RequestRevision(b, pid, comment, ok).board)
  {
    var g := b.selected.value;
    var s := Selected(b);
    var approved := Approve(b, pid, ok).board;
    forall h | h in approved.byGroup ensures AtMostOneAccepted(approved.byGroup[h]) {
      if h == g && ok {
        var t := approved.byGroup[h];
        forall i, j | 0 <= i < j < |t| && t[i].status == Accepted ensures t[j].status != Accepted {
          assert s[i].id == pid;
        }
      } else {
        assert approved.byGroup[h] == b.byGroup[h];
      }
    }
    var rejected := Reject(b, pid, ok).board;
    forall h | h in rejected.byGroup ensures AtMostOneAccepted(rejected.byGroup[h]) {
      if h == g && ok {
        var t := rejected.byGroup[h];
        forall i, j | 0 <= i < j < |t| && t[i].status == Accepted ensures t[j].status != Accepted {
          assert t[i].status == s[i].status;
        }
      } else {
        assert rejected.byGroup[h] == b.byGroup[h];
      }
    }
    var revised := RequestRevision(b, pid, comment, ok).board;
    forall h | h in revised.byGroup ensures AtMostOneAccepted(revised.byGroup[h]) {
      if h == g {
        var t := revised.byGroup[h];
        forall i, j | 0 <= i < j < |t| && t[i].status == Accepted ensures t[j].status != Accepted {
          assert |t| == |s|;
          assert t[i].status == s[i].status;
        }
      } else {
        assert revised.byGroup[h] == b.byGroup[h];
      }
    }
  }

  // ---------------------------------------------------------------------
  // Action enablement and badge colour

  /** `proposals.some(p => p.status === 'accepted')`. */
  predicate HasAccepted(s: seq<Proposal>) {
    exists i :: 0 <= i < |s| && s[i].status == Accepted
  }

  /** `isButtonDisabled`: approve, reject and revise are disabled for `p`
      when it is already decided, or when its group has an accepted
      proposal and `p` is not awaiting revision. */
  predicate IsButtonDisabled(group: seq<Proposal>, p: Proposal) {
    || p.status == Accepted
    || p.status == Rejected
    || (HasAccepted(group) && p.status != NeedsRevision)
  }

  /** The buttons are live exactly for a proposal awaiting revision, or a
      pending one in a group with nothing accepted. */
  lemma ButtonsLiveIff(group: seq<Proposal>, p: Proposal)
    ensures !IsButtonDisabled(group, p) <==>
      p.status == NeedsRevision || (p.status == Pending && !HasAccepted(group))
  {
  }

  /** After a successful approve every proposal of the group has its buttons
      disabled. */
  lemma {:induction false} ApproveDisablesGroup(b: Board, pid: string)
    requires HasSelection(b)
    ensures var s := Selected(Approve(b, pid, true).board);
      forall i :: 0 <= i < |s| ==> IsButtonDisabled(s, s[i])
  {
    var s := Selected(Approve(b, pid, true).board);
    forall i | 0 <= i < |s| ensures IsButtonDisabled(s, s[i]) {
      assert s[i].status == Accepted || s[i].status == Rejected;
    }
  }

  datatype BadgeColor = SuccessBadge | DangerBadge | WarningBadge | SecondaryBadge

  /** `getStatusBadgeColor`. */
  function StatusBadgeColor(s: Status): BadgeColor {
    match s
    case Accepted => SuccessBadge
    case Rejected => DangerBadge
    case NeedsRevision => WarningBadge
    case Pending => SecondaryBadge
  }

  /** Each status has its own badge colour. */
  lemma BadgeColorDistinguishesStatus(s: Status, t: Status)
    ensures StatusBadgeColor(s) == StatusBadgeColor(t) <==> s == t
  {
  }

  // ---------------------------------------------------------------------
  // Store writes and their agreement with the page state

  /** One `updateDoc` on a proposal. `stampedAt` is the `rejectedAt` or
      `lastUpdated` time the write records, which the page state does not keep. */
  datatype ProposalWrite = ProposalWrite(id: string, status: Status, teacherComment: Option<string>, stampedAt: Option<string>)

  /** The writes `handleApprove` issues: the approved proposal, then every sibling. */
  function ApproveWrites(s: seq<Proposal>, pid: string): (ws: seq<ProposalWrite>)
    ensures |ws| >= 1 && ws[0] == ProposalWrite(pid, Accepted, None, None)
    ensures forall i :: 1 <= i < |ws| ==> ws[i].id != pid && ws[i].status == Rejected && ws[i].teacherComment.None?
    ensures forall q :: q in s && q.id != pid ==> ProposalWrite(q.id, Rejected, None, None) in ws[1..]
    ensures forall i :: 1 <= i < |ws| ==> exists q :: q in s && q.id == ws[i].id
  {
    var siblings := Filter(s, NotProposal(pid));
    var rest := RejectingWrites(siblings);
    forall q | q in s && q.id != pid ensures ProposalWrite(q.id, Rejected, None, None) in rest {
      FilterMembership(s, NotProposal(pid), q);
      var i :| 0 <= i < |siblings| && siblings[i] == q;
      assert rest[i] == ProposalWrite(q.id, Rejected, None, None);
    }
    forall i | 0 <= i < |rest| ensures siblings[i] in s && siblings[i].id == rest[i].id {
      FilterMembership(s, NotProposal(pid), siblings[i]);
    }
    var ws := [ProposalWrite(pid, Accepted, None, None)] + rest;
    assert ws[1..] == rest;
    ws
  }

  /** The sibling test of `handleApprove`'s filter. */
  function NotProposal(pid: string): Proposal -> bool {
    (q: Proposal) => q.id != pid
  }

  /** One rejecting write per proposal, in order. */
  function RejectingWrites(qs: seq<Proposal>): (ws: seq<ProposalWrite>)
    ensures |ws| == |qs|
    ensures forall i :: 0 <= i < |qs| ==> ws[i] == ProposalWrite(qs[i].id, Rejected, None, None)
  {
    seq(|qs|, i requires 0 <= i < |qs| => ProposalWrite(qs[i].id, Rejected, None, None))
  }

  /** The writes `handleReject` and `handleRevisionSubmit` issue. */
  function RejectWrites(pid: string, now: string): seq<ProposalWrite> {
    [ProposalWrite(pid, Rejected, None, Some(now))]
  }

  function RevisionWrites(pid: string, comment: string, now: string): seq<ProposalWrite> {
    [ProposalWrite(pid, NeedsRevision, Some(comment), Some(now))]
  }

  /** The position of the last write addressed to `id`, or -1 when none is. */
  function LastWriteTo(ws: seq<ProposalWrite>, id: string): (k: int)
    ensures -1 <= k < |ws|
    ensures k == -1 <==> forall i :: 0 <= i < |ws| ==> ws[i].id != id
    ensures 0 <= k ==> ws[k].id == id && forall i :: k < i < |ws| ==> ws[i].id != id
    decreases |ws|
  {
    if ws == [] then -1
    else
      var k := LastWriteTo(ws[1..], id);
      if 0 <= k then k + 1
      else if ws[0].id == id then 0
      else -1
  }

  /** The stored document after the writes, in order: each write addressed to
      its id sets the status and, when it carries one, the comment. Only
      status and comment change, and the last write addressed to the
      document decides its status. */
  function ApplyWrites(p: Proposal, ws: seq<ProposalWrite>): (r: Proposal)
    ensures SameProposal(p, r)
    ensures (forall i :: 0 <= i < |ws| ==> ws[i].id != p.id) ==> r == p
    ensures (exists i :: 0 <= i < |ws| && ws[i].id == p.id) ==> r.status == ws[LastWriteTo(ws, p.id)].status
    decreases |ws|
  {
    if ws == [] then p
    else
      var p' := if ws[0].id == p.id then
        p.(status := ws[0].status, teacherComment := if ws[0].teacherComment.Some? then ws[0].teacherComment else p.teacherComment)
      else p;
      ApplyWrites(p', ws[1..])
  }

  /** Writes addressed elsewhere leave a document alone; writes of
      `Rejected` without a comment, at least one of them addressed to it,
      leave it rejected with its comment. */
  lemma {:induction false} ApplyRejections(p: Proposal, ws: seq<ProposalWrite>)
    requires forall i :: 0 <= i < |ws| ==> ws[i].status == Rejected && ws[i].teacherComment.None?
    ensures (exists i :: 0 <= i < |ws| && ws[i].id == p.id) ==> ApplyWrites(p, ws) == p.(status := Rejected)
    ensures (forall i :: 0 <= i < |ws| ==> ws[i].id != p.id) ==> ApplyWrites(p, ws) == p
    decreases |ws|
  {
    if ws != [] {
      if ws[0].id == p.id {
        ApplyRejections(p.(status := Rejected), ws[1..]);
      } else {
        ApplyRejections(p, ws[1..]);
        if exists i :: 0 <= i < |ws| && ws[i].id == p.id {
          var i :| 0 <= i < |ws| && ws[i].id == p.id;
          assert ws[1..][i - 1].id == p.id;
        }
      }
    }
  }

  /** The store and the page agree after an approve: applying the issued
      writes to each stored proposal of the group gives the page's list. */
  lemma ApproveStoreAgrees(b: Board, pid: string)
    requires HasSelection(b)
    ensures var s := Selected(b);
      var ws := ApproveWrites(s, pid);
      var local := Selected(Approve(b, pid, true).board);
      forall i :: 0 <= i < |s| ==> ApplyWrites(s[i], ws) == local[i]
  {
    var s := Selected(b);
    var ws := ApproveWrites(s, pid);
    var local := Selected(Approve(b, pid, true).board);
    forall i | 0 <= i < |s| ensures ApplyWrites(s[i], ws) == local[i] {
      var p := s[i];
      assert ApplyWrites(p, ws) == ApplyWrites(if pid == p.id then p.(status := Accepted) else p, ws[1..]);
      if p.id == pid {
        ApplyRejections(p.(status := Accepted), ws[1..]);
      } else {
        ApplyRejections(p, ws[1..]);
        var k :| 0 <= k < |ws[1..]| && ws[1..][k] == ProposalWrite(p.id, Rejected, None, None);
      }
    }
  }

  /** The same agreement for reject and request-revision. */
  lemma RejectAndReviseStoreAgree(b: Board, pid: string, comment: string, now: string)
    requires HasSelection(b)
    requires exists i :: 0 <= i < |comment| && !IsWhitespace(comment[i])
    ensures var s := Selected(b);
      var local := Selected(Reject(b, pid, true).board);
      forall i :: 0 <= i < |s| ==> ApplyWrites(s[i], RejectWrites(pid, now)) == local[i]
    ensures var s := Selected(b);
      var local := Selected(RequestRevision(b, pid, comment, true).board);
      forall i :: 0 <= i < |s| ==> ApplyWrites(s[i], RevisionWrites(pid, comment, now)) == local[i]
  {
  }

  // ---------------------------------------------------------------------
  // Download file name

  /** The text after the last `/` (`path.split('/').pop()`). */
  function AfterLastSlash(s: string): (r: string)
    ensures |r| <= |s| && r == s[|s| - |r|..]
    ensures '/' !in r
    ensures r == s || s[|s| - |r| - 1] == '/'
  {
    if s == [] then []
    else if s[|s| - 1] == '/' then []
    else
      var r := AfterLastSlash(s[..|s| - 1]) + [s[|s| - 1]];
      assert s[..|s| - 1][|s| - |r|..] + [s[|s| - 1]] == s[|s| - |r|..];
      r
  }

  /** The text before the first `?` (`name.split('?')[0]`). */
  function BeforeFirstQuery(s: string): (r: string)
    ensures r <= s
    ensures '?' !in r
    ensures r == s || s[|r|] == '?'
  {
    if s == [] then []
    else if s[0] == '?' then []
    else [s[0]] + BeforeFirstQuery(s[1..])
  }

  /** The name `handleDownloadAbstract` saves the form under: the last path
      segment cut at its query string, or `abstract.pdf` when that is empty. */
  function DownloadName(path: string): (r: string)
    ensures r != [] && '/' !in r && '?' !in r
    ensures r == DefaultAbstractName || exists k :: IsNameAt(path, r, k)
    ensures forall n, k :: n != [] && IsNameAt(path, n, k) ==> r == n
  {
    CutIsOnlyName(path);
    var segment := AfterLastSlash(path);
    var name := BeforeFirstQuery(segment);
    if name == [] then DefaultAbstractName
    else
      assert IsNameAt(path, name, |path| - |segment|) by {
        var k := |path| - |segment|;
        assert path[k..k + |name|] == segment[..|name|];
        assert path[k..] == segment;
      }
      name
  }

  /** `name` sits at position `k` of `path`: right after the last `/` (or at
      the start) and right before a `?` (or at the end). */
  ghost predicate IsNameAt(path: string, name: string, k: int) {
    && 0 <= k && k + |name| <= |path|
    && path[k..k + |name|] == name
    && '?' !in name
    && (k == 0 || path[k - 1] == '/')
    && '/' !in path[k..]
    && (k + |name| == |path| || path[k + |name|] == '?')
  }

  /** A prefix with no `?` that is the whole text or stops at a `?` is the
      text before the first `?`. */
  lemma {:induction false} BeforeFirstQueryUnique(s: string, n: string)
    requires n <= s && '?' !in n && (n == s || s[|n|] == '?')
    ensures n == BeforeFirstQuery(s)
  {
    if n != [] {
      assert s[0] == n[0];
      assert n[1..] <= s[1..];
      assert n[1..] == s[1..] || s[1..][|n[1..]|] == '?';
      BeforeFirstQueryUnique(s[1..], n[1..]);
    } else if s != [] {
      assert s[0] == '?';
    }
  }

  /** A path names at most one file: whatever sits where `IsNameAt` says
      starts right after the last `/` and is the text before the first `?`. */
  lemma CutIsOnlyName(path: string)
    ensures forall n, k :: IsNameAt(path, n, k) ==> n == BeforeFirstQuery(AfterLastSlash(path))
  {
    var seg := AfterLastSlash(path);
    var j := |path| - |seg|;
    forall n, k | IsNameAt(path, n, k) ensures n == BeforeFirstQuery(seg) {
      forall i | k <= i < |path| ensures path[i] != '/' {
        assert path[k..][i - k] == path[i];
      }
      forall i | j <= i < |path| ensures path[i] != '/' {
        assert path[i] == seg[i - j];
      }
      assert j == 0 || path[j - 1] == '/';
      assert k == j;
      assert path[k..] == seg;
      assert n == seg[..|n|];
      BeforeFirstQueryUnique(seg, n);
    }
  }

  /** An empty segment falls back to the default name. */
  lemma DownloadNameFallback(path: string)
    requires BeforeFirstQuery(AfterLastSlash(path)) == []
    ensures DownloadName(path) == DefaultAbstractName
  {
  }
}
