/** The `users` collection every page reads: one record per account, tagged
    with a role and carrying the role-specific fields. A field that a
    document may lack is an `Option`. */
module Directory {
  import opened Wrappers

  /** The account role. `NoRole` stands for a missing, empty or unrecognised
      role string: the pages only ever compare a role with the four names. */
  datatype Role = Student | Teacher | Adviser | Admin | NoRole

  /** A student's upload slot. */
  datatype FileContainer = FileContainer(file: Option<string>, uploadedAt: Option<string>)

  /** The slot given to students that have none: `{file: null, uploadedAt: null}`. */
  const EmptyFileContainer := FileContainer(None, None)

  /** The picture every new account is given. */
  const DefaultProfilePic: string :=
    "https://firebasestorage.googleapis.com/v0/b/thesismanagementsystem-39688.appspot.com/o/pic.png?alt=media&token=13aa8904-de84-401b-b813-4a753736304f"

  /** A user document together with its document id. `fileContainer` is
      `None` when the field is absent or null. */
  datatype User = User(
    id: string,
    uid: Option<string>,
    name: Option<string>,
    email: Option<string>,
    role: Role,
    photoURL: Option<string>,
    teacherID: Option<string>,
    adviserID: Option<string>,
    groupID: Option<string>,
    myTeacher: Option<string>,
    myAdviser: Option<string>,
    fileContainer: Option<FileContainer>)

  /** `u` is a Student enrolled with the teacher whose ID is `teacherID`
      (`u.role === 'Student' && u.myTeacher === teacherID`). */
  predicate IsStudentOf(u: User, teacherID: Option<string>) {
    u.role == Student && u.myTeacher == teacherID
  }

  /** `u` is the Teacher record of the account `uid`. */
  predicate IsTeacherAccount(u: User, uid: string) {
    u.uid == Some(uid) && u.role == Teacher
  }

  /** The signed-in user's Teacher record:
      `users.find(u => u.uid === uid && u.role === 'Teacher')`, the first match. */
  function FindTeacher(users: seq<User>, uid: string): (r: Option<User>)
    ensures r.None? <==> forall i :: 0 <= i < |users| ==> !IsTeacherAccount(users[i], uid)
    ensures r.Some? ==> exists i :: FirstTeacherAt(users, uid, i) && users[i] == r.value
  {
    if users == [] then None
    else if IsTeacherAccount(users[0], uid) then
      assert FirstTeacherAt(users, uid, 0);
      Some(users[0])
    else
      var r := FindTeacher(users[1..], uid);
      if r.Some? then
        ghost var i :| FirstTeacherAt(users[1..], uid, i) && users[1..][i] == r.value;
        assert FirstTeacherAt(users, uid, i + 1);
        r
      else r
  }

  /** Position `i` holds the first Teacher record of `uid`. */
  ghost predicate FirstTeacherAt(users: seq<User>, uid: string, i: int) {
    && 0 <= i < |users|
    && IsTeacherAccount(users[i], uid)
    && forall j :: 0 <= j < i ==> !IsTeacherAccount(users[j], uid)
  }

  /** Record ids are document ids, so no two records of one list share one. */
  ghost predicate UniqueUserIds(users: seq<User>) {
    forall i, j :: 0 <= i < j < |users| ==> users[i].id != users[j].id
  }
}
