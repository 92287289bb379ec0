/** The admin's account page: the scan for the highest Teacher and Adviser
    sequence IDs, account creation with its role-specific fields and
    counter update, deletion, and the one-shot file-container backfill.
    The auth and store calls are abstracted: `ok` says whether every awaited
    call of a handler succeeded, and the new account's uid is a parameter. */
module Provisioning {
  import opened Wrappers
  import opened Seqs
  import opened Text
  import opened Directory

  // ---------------------------------------------------------------------
  // Sequence IDs

  /** The sequence ID field of `role`: `teacherID` for Teachers, `adviserID`
      for Advisers; other roles have none. */
  function SeqIdField(u: User, role: Role): Option<string> {
    match role
    case Teacher => u.teacherID
    case Adviser => u.adviserID
    case _ => None
  }

  /** `u` takes part in the scan for `role`: it has that role and a non-empty ID. */
  predicate Counted(u: User, role: Role) {
    u.role == role && Truthy(SeqIdField(u, role))
  }

  /** Every ID the scan reads is a decimal string, so `parseInt` yields a number. */
  ghost predicate DecimalIds(users: seq<User>) {
    forall i :: 0 <= i < |users| ==>
      && (Counted(users[i], Teacher) ==> IsDecimal(users[i].teacherID.value))
      && (Counted(users[i], Adviser) ==> IsDecimal(users[i].adviserID.value))
  }

  /** The numeric value of a counted user's ID. */
  function IdValue(u: User, role: Role): nat
    requires Counted(u, role) && IsDecimal(SeqIdField(u, role).value)
  {
    ParseDecimal(SeqIdField(u, role).value)
  }

  /** `m` is the largest ID of `role` in `users`, or 0 when there is none. */
  ghost predicate IsMaxId(users: seq<User>, role: Role, m: nat)
    requires DecimalIds(users)
  {
    && (forall i :: 0 <= i < |users| && Counted(users[i], role) ==> IdValue(users[i], role) <= m)
    && (m == 0 || exists i :: 0 <= i < |users| && Counted(users[i], role) && IdValue(users[i], role) == m)
  }

  /** The admin page state: the listed users and the two counters. */
  datatype Provisioner = Provisioner(users: seq<User>, maxTeacherID: nat, maxAdviserID: nat)

  /** `fetchUsers`: list the directory and scan it once for the highest
      Teacher and Adviser IDs. */
  method FetchUsers(users: seq<User>) returns (st: Provisioner)
    requires DecimalIds(users)
    ensures st.users == users
    ensures IsMaxId(users, Teacher, st.maxTeacherID)
    ensures IsMaxId(users, Adviser, st.maxAdviserID)
  {
    var maxTeacher: nat := 0;
    var maxAdviser: nat := 0;
    var k := 0;
    while k < |users|
      invariant 0 <= k <= |users|
      invariant IsMaxId(users[..k], Teacher, maxTeacher)
      invariant IsMaxId(users[..k], Adviser, maxAdviser)
    {
      MaxIdStep(users, k, Teacher, maxTeacher);
      MaxIdStep(users, k, Adviser, maxAdviser);
      maxTeacher := ScanStep(users[k], Teacher, maxTeacher);
      maxAdviser := ScanStep(users[k], Adviser, maxAdviser);
      k := k + 1;
    }
    assert users[..k] == users;
    st := Provisioner(users, maxTeacher, maxAdviser);
  }

  /** One step of the scan: `Math.max(m, parseInt(id, 10))` for a counted
      user, `m` otherwise. */
  function ScanStep(u: User, role: Role, m: nat): nat
    requires Counted(u, role) ==> IsDecimal(SeqIdField(u, role).value)
  {
    if Counted(u, role) && IdValue(u, role) > m then IdValue(u, role) else m
  }

  /** A scan step extends the maximum over a prefix by one more user. */
  lemma MaxIdStep(users: seq<User>, k: nat, role: Role, m: nat)
    requires DecimalIds(users) && k < |users|
    requires IsMaxId(users[..k], role, m)
    ensures Counted(users[k], role) ==> IsDecimal(SeqIdField(users[k], role).value)
    ensures IsMaxId(users[..k + 1], role, ScanStep(users[k], role, m))
  {
    assert users[..k + 1] == users[..k] + [users[k]];
    if role != Teacher && role != Adviser {
      assert !Counted(users[k], role);
    }
  }

  /** No counted ID of the list exceeds the page's counter. */
  ghost predicate CountersCover(st: Provisioner)
    requires DecimalIds(st.users)
  {
    && (forall i :: 0 <= i < |st.users| && Counted(st.users[i], Teacher) ==> IdValue(st.users[i], Teacher) <= st.maxTeacherID)
    && (forall i :: 0 <= i < |st.users| && Counted(st.users[i], Adviser) ==> IdValue(st.users[i], Adviser) <= st.maxAdviserID)
  }

  // ---------------------------------------------------------------------
  // Creation

  /** The form input of a new account. The uid is the one the auth provider
      assigned to the new credential. */
  datatype NewAccount = NewAccount(uid: string, name: string, email: string, role: Role)

  /** The outcome of `handleAddUser`: the page state, the user document
      written to the store (if any) and the toast. */
  datatype Creation = Creation(state: Provisioner, written: Option<User>, toast: Toast)

  /** The document `handleAddUser` writes: common fields, then the fields of
      the account's role, with the role's next sequence ID. */
  function NewUserDocument(a: NewAccount, maxTeacherID: nat, maxAdviserID: nat): (d: User)
    ensures d.id == a.uid && d.uid == Some(a.uid) && d.role == a.role
    ensures d.name == Some(a.name) && d.email == Some(a.email) && d.photoURL == Some(DefaultProfilePic)
    ensures d.teacherID.Some? <==> a.role == Teacher
    ensures d.adviserID.Some? <==> a.role == Adviser
    ensures a.role == Teacher ==>
      IsDecimal(d.teacherID.value) && d.teacherID.value[0] != '0' && ParseDecimal(d.teacherID.value) == maxTeacherID + 1
    ensures a.role == Adviser ==>
      IsDecimal(d.adviserID.value) && d.adviserID.value[0] != '0' && ParseDecimal(d.adviserID.value) == maxAdviserID + 1
    ensures a.role == Student <==> d.groupID == Some("")
    ensures a.role == Student ==>
      d.myTeacher == Some("") && d.myAdviser == Some("") && d.fileContainer == Some(EmptyFileContainer)
    ensures a.role != Student ==>
      d.groupID.None? && d.myTeacher.None? && d.myAdviser.None? && d.fileContainer.None?
  {
    ParseRendered(maxTeacherID + 1);
    ParseRendered(maxAdviserID + 1);
    var student := a.role == Student;
    User(
      id := a.uid,
      uid := Some(a.uid),
      name := Some(a.name),
      email := Some(a.email),
      role := a.role,
      photoURL := Some(DefaultProfilePic),
      teacherID := if a.role == Teacher then Some(NatToDecimal(maxTeacherID + 1)) else None,
      adviserID := if a.role == Adviser then Some(NatToDecimal(maxAdviserID + 1)) else None,
      groupID := if student then Some("") else None,
      myTeacher := if student then Some("") else None,
      myAdviser := if student then Some("") else None,
      fileContainer := if student then Some(EmptyFileContainer) else None)
  }

  /** The row appended to the page's list: only id, name, email, role and
      photo, without the role's fields. */
  function ListedUser(a: NewAccount): User {
    User(a.uid, None, Some(a.name), Some(a.email), a.role, Some(DefaultProfilePic),
         None, None, None, None, None, None)
  }

  /** The listed row is the written document stripped to its five common
      fields, whatever the role and the counters. */
  lemma ListedRowIsDocumentHead(a: NewAccount, maxTeacherID: nat, maxAdviserID: nat)
    ensures ListedUser(a) == NewUserDocument(a, maxTeacherID, maxAdviserID).(
      uid := None, teacherID := None, adviserID := None,
      groupID := None, myTeacher := None, myAdviser := None, fileContainer := None)
  {
  }

  /** `handleAddUser`. On success the document is written, the list grows by
      one row and only the created role's counter advances; on any failure
      nothing changes. */
  function AddUser(st: Provisioner, a: NewAccount, ok: bool, error: string): (r: Creation)
    ensures ok ==> r.state.users == st.users + [ListedUser(a)]
    ensures ok ==> r.written == Some(NewUserDocument(a, st.maxTeacherID, st.maxAdviserID))
    ensures ok ==> r.state.maxTeacherID == st.maxTeacherID + (if a.role == Teacher then 1 else 0)
    ensures ok ==> r.state.maxAdviserID == st.maxAdviserID + (if a.role == Adviser then 1 else 0)
    ensures ok ==> r.toast == Toast(SuccessToast, "User " + a.name + " created successfully!")
    ensures !ok ==> r.state == st && r.written.None? && r.toast == Toast(DangerToast, "Error: " + error)
  {
    if !ok then Creation(st, None, Toast(DangerToast, "Error: " + error))
    else
      var doc := NewUserDocument(a, st.maxTeacherID, st.maxAdviserID);
      var st' := Provisioner(
        st.users + [ListedUser(a)],
        if a.role == Teacher then st.maxTeacherID + 1 else st.maxTeacherID,
        if a.role == Adviser then st.maxAdviserID + 1 else st.maxAdviserID);
      Creation(st', Some(doc), Toast(SuccessToast, "User " + a.name + " created successfully!"))
  }

  /** An empty directory yields Teacher ID "1" and Adviser ID "1"; a directory
      whose highest Teacher ID is 5 yields "6". */
  lemma FirstAndNextIds(st: Provisioner, a: NewAccount)
    ensures st.maxTeacherID == 0 && a.role == Teacher ==> NewUserDocument(a, st.maxTeacherID, st.maxAdviserID).teacherID == Some("1")
    ensures st.maxAdviserID == 0 && a.role == Adviser ==> NewUserDocument(a, st.maxTeacherID, st.maxAdviserID).adviserID == Some("1")
    ensures st.maxTeacherID == 5 && a.role == Teacher ==> NewUserDocument(a, st.maxTeacherID, st.maxAdviserID).teacherID == Some("6")
  {
  }

  /** Two successive successful creations of the same role receive
      consecutive, hence distinct, IDs. */
  lemma SuccessiveIdsIncrease(st: Provisioner, a: NewAccount, b: NewAccount, e: string)
    requires a.role == b.role && (a.role == Teacher || a.role == Adviser)
    ensures var first := AddUser(st, a, true, e);
      var second := AddUser(first.state, b, true, e);
      var x, y := SeqIdField(first.written.value, a.role), SeqIdField(second.written.value, a.role);
      && x.Some? && y.Some? && IsDecimal(x.value) && IsDecimal(y.value)
      && ParseDecimal(y.value) == ParseDecimal(x.value) + 1
      && x != y
  {
  }

  /** The ID given to a new Teacher or Adviser is not held by any listed
      account of that role while the counters cover the list. */
  lemma CreatedIdIsFresh(st: Provisioner, a: NewAccount, e: string)
    requires DecimalIds(st.users) && CountersCover(st)
    requires a.role == Teacher || a.role == Adviser
    ensures var id := SeqIdField(AddUser(st, a, true, e).written.value, a.role);
      forall i :: 0 <= i < |st.users| && Counted(st.users[i], a.role) ==> SeqIdField(st.users[i], a.role) != id
  {
    var d := NewUserDocument(a, st.maxTeacherID, st.maxAdviserID);
    var id := SeqIdField(d, a.role);
    forall i | 0 <= i < |st.users| && Counted(st.users[i], a.role)
      ensures SeqIdField(st.users[i], a.role) != id
    {
      assert IdValue(st.users[i], a.role) < ParseDecimal(id.value);
    }
  }

  /** Loading establishes the counters' cover, and creation keeps it. */
  lemma CountersCoverKept(st: Provisioner, a: NewAccount, e: string)
    requires DecimalIds(st.users)
    requires IsMaxId(st.users, Teacher, st.maxTeacherID) && IsMaxId(st.users, Adviser, st.maxAdviserID)
    ensures CountersCover(st)
    ensures DecimalIds(AddUser(st, a, true, e).state.users)
    ensures CountersCover(AddUser(st, a, true, e).state)
  {
    var users' := AddUser(st, a, true, e).state.users;
    assert forall i :: 0 <= i < |st.users| ==> users'[i] == st.users[i];
  }

  // ---------------------------------------------------------------------
  // Deletion

  /** The filter `handleDeleteUser` applies: records other than `id`. */
  function NotId(id: string): User -> bool {
    (u: User) => u.id != id
  }

  /** `handleDeleteUser`: on success every listed record with the selected id
      is removed and the rest keep their order. */
  function DeleteUser(users: seq<User>, id: string, ok: bool): (r: seq<User>)
    ensures !ok ==> r == users
    ensures ok ==> forall u :: u in r <==> u in users && u.id != id
    ensures ok ==> forall i :: 0 <= i < |r| ==> r[i].id != id
  {
    if ok then
      var keep := NotId(id);
      forall u ensures u in Filter(users, keep) <==> u in users && u.id != id {
        FilterMembership(users, keep, u);
      }
      Filter(users, keep)
    else users
  }

  /** The toast `handleDeleteUser` raises. A record without a name prints as
      JavaScript interpolates a missing value. */
  function DeleteToast(target: User, ok: bool, error: string): (t: Toast)
    ensures ok ==> t.color == WarningToast
    ensures !ok ==> t == Toast(DangerToast, "Error: " + error)
  {
    if ok then Toast(WarningToast, "User " + (if target.name.Some? then target.name.value else "undefined") + " deleted successfully!")
    else Toast(DangerToast, "Error: " + error)
  }

  /** Deleting the record at `k` of a list with unique ids removes exactly
      that record: the result is the list with position `k` cut out. */
  lemma DeleteRemovesExactlyOne(users: seq<User>, k: nat)
    requires UniqueUserIds(users) && k < |users|
    ensures DeleteUser(users, users[k].id, true) == users[..k] + users[k + 1..]
  {
    var keep := NotId(users[k].id);
    forall i | 0 <= i < |users| && i != k ensures keep(users[i]) {
      if i < k {
        assert users[i].id != users[k].id;
      } else {
        assert users[k].id != users[i].id;
      }
    }
    FilterDropsOne(users, k, keep);
  }

  // ---------------------------------------------------------------------
  // File-container backfill

  predicate LacksContainer(u: User) {
    u.role == Student && u.fileContainer.None?
  }

  /** `addFileContainersToExistingStudents`: every Student without a file
      container gets an empty one; nothing else changes. */
  function Backfill(users: seq<User>): (r: seq<User>)
    ensures |r| == |users|
    ensures forall i :: 0 <= i < |r| ==> r[i].(fileContainer := users[i].fileContainer) == users[i]
    ensures forall i :: 0 <= i < |r| && users[i].fileContainer.Some? ==> r[i] == users[i]
    ensures forall i :: 0 <= i < |r| && r[i].role == Student ==> r[i].fileContainer.Some?
    ensures forall i :: 0 <= i < |r| && LacksContainer(users[i]) ==> r[i].fileContainer == Some(EmptyFileContainer)
    ensures forall i :: 0 <= i < |r| && r[i].role != Student ==> r[i] == users[i]
  {
    seq(|users|, i requires 0 <= i < |users| =>
      if LacksContainer(users[i]) then users[i].(fileContainer := Some(EmptyFileContainer)) else users[i])
  }

  /** Running the backfill twice is the same as running it once. */
  lemma BackfillIdempotent(users: seq<User>)
    ensures Backfill(Backfill(users)) == Backfill(users)
  {
  }
}
