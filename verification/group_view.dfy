/** The student's group page as a view model that the live-query callbacks
    update: the member list, the accepted proposal, the adviser request and
    its rejection, the adviser picker and the request submission. Each
    callback is a pure function from the query result to the new view; the
    listeners themselves are not modelled. */
module GroupView {
  import opened Wrappers
  import opened Seqs
  import opened Directory
  import opened Proposals

  datatype RequestStatus = RequestPending | RequestAccepted | RequestRejected

  /** A member as the page shows it. */
  datatype Member = Member(name: string, email: string, role: Role, photoURL: string)

  /** An adviser as the picker and the request carry it. */
  datatype AdviserPick = AdviserPick(uid: string, name: string)

  /** The accepted proposal's fields copied into a request. */
  datatype ProposalSummary = ProposalSummary(title: string, description: string, client: string, field: string)

  /** An `adviserRequests` document (its server timestamp is not modelled). */
  datatype AdviserRequest = AdviserRequest(
    adviserUID: string,
    adviserName: string,
    groupID: string,
    status: RequestStatus,
    members: seq<Member>,
    approvedProposal: ProposalSummary)

  /** The page state. */
  datatype View = View(
    members: seq<Member>,
    thesisTitle: string,
    thesisDescription: string,
    client: string,
    field: string,
    groupID: Option<string>,
    selectedAdviser: Option<AdviserPick>,
    requestStatus: Option<RequestStatus>,
    rejectedAdviserUIDs: seq<string>,
    rejectionMessage: Option<string>)

  const InitialView := View([], "", "", "", "", None, None, None, [], None)

  const RejectionMessage: string := "Your adviser request was rejected. Please choose another adviser."
  const MissingChoiceToast := Toast(DangerToast, "You need to select an adviser or have a group before submitting.")
  const SubmittedToast := Toast(SuccessToast, "Adviser request submitted successfully!")
  const SubmitFailedToast := Toast(DangerToast, "Failed to submit adviser request.")

  // ---------------------------------------------------------------------
  // Snapshot callbacks

  /** The signed-in user's document: a truthy group ID becomes the page's
      group; an empty result or a falsy group ID leaves the page alone. */
  function OnUserSnapshot(v: View, docs: seq<User>): (r: View)
    ensures r.(groupID := v.groupID) == v
    ensures Truthy(r.groupID) <==> Truthy(v.groupID) || (docs != [] && Truthy(docs[0].groupID))
    ensures r.groupID != v.groupID ==> docs != [] && r.groupID == docs[0].groupID
  {
    if docs != [] && Truthy(docs[0].groupID) then v.(groupID := docs[0].groupID) else v
  }

  /** The user-document callback run on successive results, oldest first. */
  function OnUserSnapshots(v: View, results: seq<seq<User>>): View
    decreases |results|
  {
    if results == [] then v else OnUserSnapshots(OnUserSnapshot(v, results[0]), results[1..])
  }

  /** Once any result carried a group, the page keeps a group through every
      later result, falsy or empty ones included, so a submission with an
      adviser selected gets past the group half of its guard. */
  lemma {:induction false} GroupStaysOnceArrived(v: View, results: seq<seq<User>>, ok: bool)
    requires Truthy(v.groupID) || exists i :: 0 <= i < |results| && results[i] != [] && Truthy(results[i][0].groupID)
    ensures var w := OnUserSnapshots(v, results);
      && Truthy(w.groupID)
      && w.(groupID := v.groupID) == v
      && (w.selectedAdviser.Some? ==> SubmitRequest(w, ok).toast != MissingChoiceToast)
    decreases |results|
  {
    if results != [] {
      var u := OnUserSnapshot(v, results[0]);
      if !Truthy(u.groupID) {
        var i :| 0 <= i < |results| && results[i] != [] && Truthy(results[i][0].groupID);
        assert results[1..][i - 1] == results[i];
      }
      GroupStaysOnceArrived(u, results[1..], ok);
    }
  }

  /** A member document as shown, with defaults for the missing fields. */
  function ToMember(u: User): (m: Member)
    ensures m.role == u.role
    ensures m.name != "" && m.email != "" && m.photoURL != ""
    ensures Truthy(u.name) ==> m.name == u.name.value
    ensures !Truthy(u.name) ==> m.name == "Unknown Name"
    ensures Truthy(u.email) ==> m.email == u.email.value
    ensures !Truthy(u.email) ==> m.email == "No Email"
    ensures Truthy(u.photoURL) ==> m.photoURL == u.photoURL.value
    ensures !Truthy(u.photoURL) ==> m.photoURL == DefaultProfilePic
  {
    Member(OrElse(u.name, "Unknown Name"), OrElse(u.email, "No Email"), u.role, OrElse(u.photoURL, DefaultProfilePic))
  }

  predicate IsStudentMember(m: Member) {
    m.role == Student
  }

  predicate IsStudentUser(u: User) {
    u.role == Student
  }

  /** The members projection: map every document, then keep the Students.
      Since the mapping keeps the role, this shows the Student documents
      one for one, in result order. */
  function MembersOf(docs: seq<User>): (r: seq<Member>)
    ensures forall i :: 0 <= i < |r| ==> r[i].role == Student
    ensures |r| == |Filter(docs, IsStudentUser)|
    ensures forall i :: 0 <= i < |r| ==> r[i] == ToMember(Filter(docs, IsStudentUser)[i])
    ensures forall m :: m in r <==> exists i :: 0 <= i < |docs| && docs[i].role == Student && m == ToMember(docs[i])
  {
    var shown := MapSeq(docs, ToMember);
    FilterAfterMap(docs, ToMember, IsStudentMember, IsStudentUser);
    forall m ensures m in Filter(shown, IsStudentMember) <==> exists i :: 0 <= i < |docs| && docs[i].role == Student && m == ToMember(docs[i]) {
      FilterMembership(shown, IsStudentMember, m);
      if exists i :: 0 <= i < |docs| && docs[i].role == Student && m == ToMember(docs[i]) {
        var i :| 0 <= i < |docs| && docs[i].role == Student && m == ToMember(docs[i]);
        assert shown[i] == m;
      }
    }
    Filter(shown, IsStudentMember)
  }

  /** The members callback replaces the member list and nothing else. */
  function OnMembersSnapshot(v: View, docs: seq<User>): (r: View)
    ensures r.(members := v.members) == v
    ensures forall i :: 0 <= i < |r.members| ==> r.members[i].role == Student
    ensures |r.members| == |Filter(docs, IsStudentUser)|
    ensures forall i :: 0 <= i < |r.members| ==> r.members[i] == ToMember(Filter(docs, IsStudentUser)[i])
    ensures forall m :: m in r.members <==> exists i :: 0 <= i < |docs| && docs[i].role == Student && m == ToMember(docs[i])
  {
    v.(members := MembersOf(docs))
  }

  /** The accepted-proposal callback: the first result's fields, each
      defaulting to `''`; an empty result blanks all four. */
  function OnProposalSnapshot(v: View, docs: seq<Proposal>): (r: View)
    ensures r.(thesisTitle := v.thesisTitle, thesisDescription := v.thesisDescription,
               client := v.client, field := v.field) == v
    ensures docs == [] ==> r.thesisTitle == "" && r.thesisDescription == "" && r.client == "" && r.field == ""
    ensures docs != [] ==>
      && r.thesisTitle == OrElse(docs[0].title, "")
      && r.thesisDescription == OrElse(docs[0].description, "")
      && r.client == OrElse(docs[0].client, "")
      && r.field == OrElse(docs[0].field, "")
  {
    if docs == [] then v.(thesisTitle := "", thesisDescription := "", client := "", field := "")
    else
      var p := docs[0];
      v.(thesisTitle := OrElse(p.title, ""), thesisDescription := OrElse(p.description, ""),
         client := OrElse(p.client, ""), field := OrElse(p.field, ""))
  }

  /** The two callbacks write disjoint fields, so their order does not matter,
      and replaying either with the same result changes nothing. */
  lemma SnapshotsCommuteAndSettle(v: View, users: seq<User>, proposals: seq<Proposal>)
    ensures OnMembersSnapshot(OnProposalSnapshot(v, proposals), users)
         == OnProposalSnapshot(OnMembersSnapshot(v, users), proposals)
    ensures OnMembersSnapshot(OnMembersSnapshot(v, users), users) == OnMembersSnapshot(v, users)
    ensures OnProposalSnapshot(OnProposalSnapshot(v, proposals), proposals) == OnProposalSnapshot(v, proposals)
  {
  }

  /** The adviser-request callback: the first request's adviser and status
      are shown; a rejected one also excludes that adviser and raises the
      rejection message. An empty result changes nothing. */
  function OnRequestSnapshot(v: View, reqs: seq<AdviserRequest>): (r: View)
    ensures reqs == [] ==> r == v
    ensures reqs != [] ==>
      && r.selectedAdviser == Some(AdviserPick(reqs[0].adviserUID, reqs[0].adviserName))
      && r.requestStatus == Some(reqs[0].status)
    ensures r.(selectedAdviser := v.selectedAdviser, requestStatus := v.requestStatus,
               rejectedAdviserUIDs := v.rejectedAdviserUIDs, rejectionMessage := v.rejectionMessage) == v
    ensures reqs != [] && reqs[0].status == RequestRejected ==>
      r.rejectedAdviserUIDs == [reqs[0].adviserUID] && r.rejectionMessage == Some(RejectionMessage)
    ensures reqs != [] && reqs[0].status != RequestRejected ==>
      r.rejectedAdviserUIDs == v.rejectedAdviserUIDs && r.rejectionMessage == v.rejectionMessage
  {
    if reqs == [] then v
    else
      var q := reqs[0];
      var shown := v.(selectedAdviser := Some(AdviserPick(q.adviserUID, q.adviserName)), requestStatus := Some(q.status));
      if q.status == RequestRejected then
        shown.(rejectedAdviserUIDs := [q.adviserUID], rejectionMessage := Some(RejectionMessage))
      else shown
  }

  // ---------------------------------------------------------------------
  // Adviser picker and request submission

  /** Clicking an adviser in the picker: refused for a rejected adviser,
      otherwise it becomes the selection and the message is cleared. */
  function ClickAdviser(v: View, a: AdviserPick): (r: View)
    ensures a.uid in v.rejectedAdviserUIDs ==> r == v
    ensures a.uid !in v.rejectedAdviserUIDs ==>
      r.selectedAdviser == Some(a) && r.rejectionMessage.None?
      && r == v.(selectedAdviser := r.selectedAdviser, rejectionMessage := r.rejectionMessage)
  {
    if a.uid in v.rejectedAdviserUIDs then v
    else v.(selectedAdviser := Some(a), rejectionMessage := None)
  }

  /** The adviser's name is shown while one is selected and its request is
      not rejected. */
  predicate ShowsAdviserName(v: View) {
    v.selectedAdviser.Some? && v.requestStatus != Some(RequestRejected)
  }

  /** Once a request comes back rejected, the adviser's name is hidden, the
      rejection message is up, and clicking that adviser again does nothing. */
  lemma RejectedAdviserStaysExcluded(v: View, reqs: seq<AdviserRequest>, a: AdviserPick)
    requires reqs != [] && reqs[0].status == RequestRejected && a.uid == reqs[0].adviserUID
    ensures var w := OnRequestSnapshot(v, reqs);
      && !ShowsAdviserName(w)
      && w.rejectionMessage.Some?
      && ClickAdviser(w, a) == w
  {
  }

  /** The outcome of `handleSubmitRequest`: the new view, the request
      document created (if any) and the toast. */
  datatype Submission = Submission(view: View, created: Option<AdviserRequest>, toast: Toast)

  /** `handleSubmitRequest`: refused without a selected adviser or a group;
      otherwise a pending request carrying the adviser and a copy of the
      members and proposal fields is created, and the page shows it as
      pending. */
  function SubmitRequest(v: View, ok: bool): (r: Submission)
    ensures v.selectedAdviser.None? || !Truthy(v.groupID) ==> r == Submission(v, None, MissingChoiceToast)
    ensures v.selectedAdviser.Some? && Truthy(v.groupID) && !ok ==> r == Submission(v, None, SubmitFailedToast)
    ensures v.selectedAdviser.Some? && Truthy(v.groupID) && ok ==>
      && r.created.Some?
      && var q := r.created.value;
      && q.status == RequestPending
      && q.adviserUID == v.selectedAdviser.value.uid && q.adviserName == v.selectedAdviser.value.name
      && q.groupID == v.groupID.value
      && q.members == v.members
      && q.approvedProposal == ProposalSummary(v.thesisTitle, v.thesisDescription, v.client, v.field)
      && r.view == v.(requestStatus := Some(RequestPending))
      && r.toast == SubmittedToast
  {
    if v.selectedAdviser.None? || !Truthy(v.groupID) then Submission(v, None, MissingChoiceToast)
    else if !ok then Submission(v, None, SubmitFailedToast)
    else
      var a := v.selectedAdviser.value;
      var q := AdviserRequest(a.uid, a.name, v.groupID.value, RequestPending, v.members,
        ProposalSummary(v.thesisTitle, v.thesisDescription, v.client, v.field));
      Submission(v.(requestStatus := Some(RequestPending)), Some(q), SubmittedToast)
  }

  /** Opening or closing the adviser picker clears the selection. */
  function ResetPicker(v: View): (r: View)
    ensures r.selectedAdviser.None?
    ensures r.(selectedAdviser := v.selectedAdviser) == v
  {
    v.(selectedAdviser := None)
  }

  /** A freshly opened picker cannot submit until an adviser is clicked. */
  lemma OpenPickerNeedsAClick(v: View, ok: bool)
    ensures var w := ResetPicker(v);
      SubmitRequest(w, ok) == Submission(w, None, MissingChoiceToast)
  {
  }

  /** What the Adviser card shows. `pickButton` is true when either of the
      card's two "Pick an Adviser" buttons is present. */
  datatype Panel = Panel(rejectionAlert: Option<string>, shownName: Option<string>, pendingTag: bool, pickButton: bool)

  function AdviserPanel(v: View): (p: Panel)
    ensures p.rejectionAlert == v.rejectionMessage
    ensures p.shownName.Some? <==> ShowsAdviserName(v)
    ensures p.shownName.Some? ==> p.shownName.value == v.selectedAdviser.value.name
    ensures p.pendingTag <==> ShowsAdviserName(v) && v.requestStatus == Some(RequestPending)
    ensures p.pickButton <==> v.rejectionMessage.Some? || v.selectedAdviser.None?
  {
    var named := ShowsAdviserName(v);
    Panel(v.rejectionMessage,
          if named then Some(v.selectedAdviser.value.name) else None,
          named && v.requestStatus == Some(RequestPending),
          v.rejectionMessage.Some? || v.selectedAdviser.None?)
  }

  /** What the request listener reports once a request has been created: the
      group's earlier requests with the new one at position `pos`. The query
      filters on the group only and orders nothing, so any position can
      occur. */
  function ReportWith(older: seq<AdviserRequest>, created: AdviserRequest, pos: nat): (reqs: seq<AdviserRequest>)
    requires pos <= |older|
    ensures |reqs| == |older| + 1 && reqs[pos] == created
    ensures reqs[..pos] == older[..pos] && reqs[pos + 1..] == older[pos..]
  {
    older[..pos] + [created] + older[pos..]
  }

  /** A submission followed by what the page does next. A refused submission
      returns before the picker is touched, so the view stays as it was. A
      successful one closes the picker, whose close handler clears the
      selection, and the request listener then reports the group's requests
      with the created one at `pos`; the first reported request decides. */
  function SettleSubmission(v: View, older: seq<AdviserRequest>, pos: nat): (w: View)
    requires pos <= |older|
    ensures !(v.selectedAdviser.Some? && Truthy(v.groupID)) ==> w == v
    ensures v.selectedAdviser.Some? && Truthy(v.groupID) && pos == 0 ==>
      && w.selectedAdviser == v.selectedAdviser && w.requestStatus == Some(RequestPending)
      && w.(selectedAdviser := v.selectedAdviser, requestStatus := v.requestStatus) == v
    ensures v.selectedAdviser.Some? && Truthy(v.groupID) && 0 < pos ==>
      && w.selectedAdviser == Some(AdviserPick(older[0].adviserUID, older[0].adviserName))
      && w.requestStatus == Some(older[0].status)
    ensures var s := SubmitRequest(v, true);
      s.created.Some? ==> w == OnRequestSnapshot(s.view, ReportWith(older, s.created.value, pos))
  {
    var s := SubmitRequest(v, true);
    if s.created.None? then v
    else OnRequestSnapshot(ResetPicker(s.view), ReportWith(older, s.created.value, pos))
  }

  /** Right after a successful submission the closed picker shows no name;
      once the listener reports the created request first, the chosen
      adviser's name shows tagged as pending. A rejection reported first
      hides the name and offers the picker again. */
  lemma PanelFollowsRequest(v: View, reqs: seq<AdviserRequest>, older: seq<AdviserRequest>)
    ensures v.selectedAdviser.Some? && Truthy(v.groupID) ==>
      && AdviserPanel(ResetPicker(SubmitRequest(v, true).view)).shownName.None?
      && var p := AdviserPanel(SettleSubmission(v, older, 0));
        p.shownName == Some(v.selectedAdviser.value.name) && p.pendingTag
    ensures reqs != [] && reqs[0].status == RequestRejected ==>
      var p := AdviserPanel(OnRequestSnapshot(v, reqs));
      p.shownName.None? && p.rejectionAlert == Some(RejectionMessage) && p.pickButton
  {
  }

  /** As written: after a rejection, picking another adviser and submitting
      creates that adviser's request, but when the listener lists the
      rejected request first (`pos > 0`) the page selects the rejected
      adviser again, shows the rejection and hides the new pending request. */
  lemma ResubmitCanShowOldRejection(v: View, reqs: seq<AdviserRequest>, a: AdviserPick, pos: nat)
    requires reqs != [] && reqs[0].status == RequestRejected && a.uid != reqs[0].adviserUID
    requires Truthy(v.groupID)
    requires 0 < pos <= |reqs|
    ensures var w := ClickAdviser(OnRequestSnapshot(v, reqs), a);
      var s := SubmitRequest(w, true);
      var p := AdviserPanel(SettleSubmission(w, reqs, pos));
      && s.created.Some? && s.created.value.adviserUID == a.uid
      && p.shownName.None? && p.rejectionAlert == Some(RejectionMessage) && p.pickButton
      && SettleSubmission(w, reqs, pos).selectedAdviser.value.uid == reqs[0].adviserUID
  {
  }

  /** The request report as intended: newest first (ordered by the request's
      timestamp, descending), so the created request leads. */
  function NewestFirstReport(older: seq<AdviserRequest>, created: AdviserRequest): (reqs: seq<AdviserRequest>)
    ensures reqs == ReportWith(older, created, 0)
    ensures reqs[0] == created && reqs[1..] == older
  {
    [created] + older
  }

  /** Corrected: with the newest request first, a resubmission after a
      rejection shows the new adviser's name as pending and no rejection,
      whatever earlier requests the group has. */
  lemma NewestFirstResubmitShowsNewAdviser(v: View, reqs: seq<AdviserRequest>, a: AdviserPick, older: seq<AdviserRequest>)
    requires reqs != [] && reqs[0].status == RequestRejected && a.uid != reqs[0].adviserUID
    requires Truthy(v.groupID)
    ensures var w := ClickAdviser(OnRequestSnapshot(v, reqs), a);
      var s := SubmitRequest(w, true);
      && w.rejectionMessage.None?
      && s.created.Some? && s.created.value.adviserUID == a.uid
      && var p := AdviserPanel(OnRequestSnapshot(ResetPicker(s.view), NewestFirstReport(older, s.created.value)));
        p.shownName == Some(a.name) && p.pendingTag && p.rejectionAlert.None?
  {
  }

  /** The same run through `SettleSubmission`: when the created request is
      reported first, the new adviser shows as pending with the rejection gone. */
  lemma ResubmitAfterRejection(v: View, reqs: seq<AdviserRequest>, a: AdviserPick)
    requires reqs != [] && reqs[0].status == RequestRejected && a.uid != reqs[0].adviserUID
    requires Truthy(v.groupID)
    ensures var w := ClickAdviser(OnRequestSnapshot(v, reqs), a);
      var s := SubmitRequest(w, true);
      var p := AdviserPanel(SettleSubmission(w, reqs, 0));
      && w.rejectionMessage.None?
      && s.created.Some? && s.created.value.adviserUID == a.uid
      && p.shownName == Some(a.name) && p.pendingTag && p.rejectionAlert.None?
  {
  }
}
