/** The teacher's roster page: the roster and the pool of unassigned
    students, the two selection toggles, grouping and enrollment, the
    grouping picker and the group colour. `ok` says whether the page's store
    writes succeeded; the clock reading that names a new group is a
    parameter. */
module Roster {
  import opened Wrappers
  import opened Seqs
  import opened Text
  import opened Directory

  /** The colours groups are tagged with. */
  const Palette: seq<string> := ["#FF5733", "#33FF57", "#3357FF", "#FF33A6", "#A633FF", "#FF8333", "#33FF8A"]

  /** The most students the grouping selection may hold. */
  const MaxGroupSize: nat := 3

  // ---------------------------------------------------------------------
  // Stable sort by group ID

  /** The sort key of a student: `student.groupID || ''`. */
  function GroupKey(u: User): string {
    OrElse(u.groupID, "")
  }

  ghost predicate SortedBy<T>(s: seq<T>, key: T -> string) {
    forall i, j :: 0 <= i < j < |s| ==> LexLe(key(s[i]), key(s[j]))
  }

  /** The elements of `s` whose key is `k`, in order. */
  function WithKey<T>(s: seq<T>, key: T -> string, k: string): seq<T> {
    Filter(s, x => key(x) == k)
  }

  /** Insert `x` into `s` before the first element whose key is not smaller,
      so it precedes the elements with an equal key. */
  function Insert<T>(x: T, s: seq<T>, key: T -> string): (r: seq<T>)
    ensures multiset(r) == multiset(s) + multiset{x}
  {
    if s == [] || LexLe(key(x), key(s[0])) then [x] + s
    else
      assert s == [s[0]] + s[1..];
      [s[0]] + Insert(x, s[1..], key)
  }

  /** Inserting into a sorted sequence keeps it sorted. */
  lemma {:induction false} InsertSorted<T>(x: T, s: seq<T>, key: T -> string)
    requires SortedBy(s, key)
    ensures SortedBy(Insert(x, s, key), key)
  {
    if s == [] || LexLe(key(x), key(s[0])) {
      forall j | 0 < j < |s| ensures LexLe(key(x), key(s[j])) {
        LexLeTransitive(key(x), key(s[0]), key(s[j]));
      }
      assert forall j :: 0 <= j < |s| ==> LexLe(key(x), key(s[j]));
    } else {
      LexLeTotal(key(x), key(s[0]));
      InsertSorted(x, s[1..], key);
      var rest := Insert(x, s[1..], key);
      assert s == [s[0]] + s[1..];
      forall j | 0 <= j < |rest| ensures LexLe(key(s[0]), key(rest[j])) {
        assert rest[j] in multiset(rest);
        if rest[j] != x {
          assert rest[j] in multiset(s[1..]);
          var m :| 0 <= m < |s[1..]| && s[1..][m] == rest[j];
          assert s[m + 1] == rest[j];
        }
      }
    }
  }

  /** Inserting `x` puts it in front of the elements that share its key. */
  lemma {:induction false} InsertWithKey<T>(x: T, s: seq<T>, key: T -> string, k: string)
    ensures WithKey(Insert(x, s, key), key, k) == (if key(x) == k then [x] else []) + WithKey(s, key, k)
  {
    if s == [] || LexLe(key(x), key(s[0])) {
      assert ([x] + s)[1..] == s;
    } else {
      InsertWithKey(x, s[1..], key, k);
      var r := Insert(x, s, key);
      assert r[1..] == Insert(x, s[1..], key);
      LexLeTotal(key(x), key(x));
    }
  }

  /** `s.sort((a, b) => key(a).localeCompare(key(b)))`, a stable sort. */
  function SortBy<T>(s: seq<T>, key: T -> string): (r: seq<T>)
    ensures multiset(r) == multiset(s)
  {
    if s == [] then []
    else
      assert s == [s[0]] + s[1..];
      Insert(s[0], SortBy(s[1..], key), key)
  }

  /** The sort orders by key and keeps the order of the elements that share a
      key, so it is a stable sort. */
  lemma {:induction false} SortBySortsStably<T>(s: seq<T>, key: T -> string)
    ensures SortedBy(SortBy(s, key), key)
    ensures forall k :: WithKey(SortBy(s, key), key, k) == WithKey(s, key, k)
  {
    if s != [] {
      SortBySortsStably(s[1..], key);
      InsertSorted(s[0], SortBy(s[1..], key), key);
      forall k ensures WithKey(SortBy(s, key), key, k) == WithKey(s, key, k) {
        InsertWithKey(s[0], SortBy(s[1..], key), key, k);
      }
    }
  }

  /** The roster order: by group ID, a missing one sorting as `''`. */
  function SortByGroup(s: seq<User>): (r: seq<User>)
    ensures SortedBy(r, GroupKey)
    ensures multiset(r) == multiset(s)
    ensures forall k :: WithKey(r, GroupKey, k) == WithKey(s, GroupKey, k)
  {
    SortBySortsStably(s, GroupKey);
    SortBy(s, GroupKey)
  }

  // ---------------------------------------------------------------------
  // Roster and available students

  /** `fetchStudents`: the teacher's students sorted by group ID. */
  function RosterOf(users: seq<User>, teacherID: Option<string>): (r: seq<User>)
    ensures SortedBy(r, GroupKey)
    ensures forall u :: u in r <==> u in users && IsStudentOf(u, teacherID)
    ensures forall u :: IsStudentOf(u, teacherID) ==> multiset(r)[u] == multiset(users)[u]
  {
    var mine := (u: User) => IsStudentOf(u, teacherID);
    var r := SortByGroup(Filter(users, mine));
    forall u ensures u in r <==> u in users && IsStudentOf(u, teacherID) {
      FilterMembership(users, mine, u);
      assert u in r <==> u in multiset(r);
    }
    forall u | IsStudentOf(u, teacherID) ensures multiset(r)[u] == multiset(users)[u] {
      FilterCount(users, mine, u);
    }
    r
  }

  /** A student no teacher has enrolled: `!user.myTeacher`. */
  predicate IsUnassigned(u: User) {
    u.role == Student && !Truthy(u.myTeacher)
  }

  /** `fetchAvailableStudents`: the Students without a teacher, in directory order. */
  function AvailableStudents(users: seq<User>): (r: seq<User>)
    ensures forall u :: u in r <==> u in users && IsUnassigned(u)
    ensures forall i :: 0 <= i < |r| ==> r[i].role == Student && !Truthy(r[i].myTeacher)
    ensures forall u :: multiset(r)[u] == if IsUnassigned(u) then multiset(users)[u] else 0
    ensures IsSubsequence(r, users)
  {
    forall u ensures u in Filter(users, IsUnassigned) <==> u in users && IsUnassigned(u) {
      FilterMembership(users, IsUnassigned, u);
    }
    forall u ensures multiset(Filter(users, IsUnassigned))[u] == if IsUnassigned(u) then multiset(users)[u] else 0 {
      FilterCount(users, IsUnassigned, u);
    }
    FilterIsSubsequence(users, IsUnassigned);
    Filter(users, IsUnassigned)
  }

  predicate IsUngrouped(u: User) {
    !Truthy(u.groupID)
  }

  /** The grouping picker lists the roster's students without a group ID. */
  function UngroupedStudents(students: seq<User>): (r: seq<User>)
    ensures forall u :: u in r <==> u in students && !Truthy(u.groupID)
    ensures forall u :: multiset(r)[u] == if IsUngrouped(u) then multiset(students)[u] else 0
    ensures IsSubsequence(r, students)
  {
    forall u ensures u in Filter(students, IsUngrouped) <==> u in students && IsUngrouped(u) {
      FilterMembership(students, IsUngrouped, u);
    }
    forall u ensures multiset(Filter(students, IsUngrouped))[u] == if IsUngrouped(u) then multiset(students)[u] else 0 {
      FilterCount(students, IsUngrouped, u);
    }
    FilterIsSubsequence(students, IsUngrouped);
    Filter(students, IsUngrouped)
  }

  // ---------------------------------------------------------------------
  // Selections

  /** Remove every occurrence of `id`. */
  function Without(sel: seq<string>, id: string): (r: seq<string>)
    ensures forall x :: x in r <==> x in sel && x != id
    ensures Unique(sel) ==> Unique(r)
    ensures |r| <= |sel|
  {
    var other := (x: string) => x != id;
    forall x ensures x in Filter(sel, other) <==> x in sel && x != id {
      FilterMembership(sel, other, x);
    }
    assert Unique(sel) ==> Unique(Filter(sel, other)) by {
      if Unique(sel) {
        FilterUnique(sel, other);
      }
    }
    Filter(sel, other)
  }

  /** `toggleStudentSelection`: remove a selected id; add an unselected one
      only while fewer than three are selected. */
  function ToggleGroupSelection(sel: seq<string>, id: string): (r: seq<string>)
    ensures |sel| <= MaxGroupSize ==> |r| <= MaxGroupSize
    ensures Unique(sel) ==> Unique(r)
    ensures id in r <==> id !in sel && |sel| < MaxGroupSize
    ensures forall x :: x != id ==> (x in r <==> x in sel)
    ensures id !in sel ==> r == sel || r == sel + [id]
  {
    if id in sel then Without(sel, id)
    else if |sel| < MaxGroupSize then sel + [id]
    else sel
  }

  /** A checkbox of the grouping picker is disabled when three students are
      selected and it is not one of them. */
  predicate CheckboxDisabled(sel: seq<string>, id: string) {
    |sel| == MaxGroupSize && id !in sel
  }

  /** Clicking a disabled checkbox would change nothing anyway. */
  lemma DisabledCheckboxIsInert(sel: seq<string>, id: string)
    requires CheckboxDisabled(sel, id)
    ensures ToggleGroupSelection(sel, id) == sel
  {
  }

  /** `toggleEnrollStudentSelection`: the same toggle without a cap. */
  function ToggleEnrollSelection(sel: seq<string>, id: string): (r: seq<string>)
    ensures Unique(sel) ==> Unique(r)
    ensures id in r <==> id !in sel
    ensures forall x :: x != id ==> (x in r <==> x in sel)
  {
    if id in sel then Without(sel, id) else sel + [id]
  }

  /** Toggling the same id twice restores the selection as a set, and
      exactly when the id was not selected to begin with. */
  lemma ToggleEnrollTwice(sel: seq<string>, id: string)
    ensures forall x :: x in ToggleEnrollSelection(ToggleEnrollSelection(sel, id), id) <==> x in sel
    ensures id !in sel ==> ToggleEnrollSelection(ToggleEnrollSelection(sel, id), id) == sel
  {
    if id !in sel {
      var once := sel + [id];
      var twice := ToggleEnrollSelection(once, id);
      FilterKeepsAll(sel, (x: string) => x != id);
      FilterConcat(sel, [id], (x: string) => x != id);
      assert [id][1..] == [];
    }
  }

  // ---------------------------------------------------------------------
  // Grouping and enrollment

  /** The page state. */
  datatype RosterPage = RosterPage(
    students: seq<User>,
    available: seq<User>,
    groupSelection: seq<string>,
    enrollSelection: seq<string>)

  /** The outcome of a handler: the new page and its toast. */
  datatype RosterStep = RosterStep(page: RosterPage, toast: Toast)

  const EmptyGroupToast := Toast(WarningToast, "Please select at least one student to group.")
  const GroupedToast := Toast(SuccessToast, "Students grouped successfully!")
  const EmptyEnrollToast := Toast(WarningToast, "Please select at least one student to enroll.")
  const EnrolledToast := Toast(SuccessToast, "Students enrolled successfully!")

  /** The ID of a group created at clock reading `now`: `group-${Date.now()}`. */
  function NewGroupID(now: nat): (gid: string)
    ensures |gid| > 6 && gid[..6] == "group-"
    ensures IsDecimal(gid[6..]) && ParseDecimal(gid[6..]) == now
  {
    var gid := "group-" + NatToDecimal(now);
    assert gid[6..] == NatToDecimal(now);
    ParseRendered(now);
    gid
  }

  /** Groups created at different clock readings get different IDs. */
  lemma NewGroupIdsDiffer(now: nat, later: nat)
    requires now != later
    ensures NewGroupID(now) != NewGroupID(later)
  {
  }

  /** The roster with the selected students moved into group `gid`. */
  function AssignGroup(students: seq<User>, sel: seq<string>, gid: string): (r: seq<User>)
    ensures |r| == |students|
    ensures forall i :: 0 <= i < |r| ==> r[i].(groupID := students[i].groupID) == students[i]
    ensures forall i :: 0 <= i < |r| ==> (r[i].groupID == Some(gid) <==> students[i].id in sel || students[i].groupID == Some(gid))
    ensures forall i :: 0 <= i < |r| && students[i].id !in sel ==> r[i] == students[i]
  {
    seq(|students|, i requires 0 <= i < |students| =>
      if students[i].id in sel then students[i].(groupID := Some(gid)) else students[i])
  }

  /** `handleGroupStudents`. An empty selection is refused with a warning;
      otherwise, once the writes succeed, exactly the selected students join
      the new group, the roster is re-sorted (stably: students with the same
      group key keep their order) and the selection cleared. */
  function GroupStudents(p: RosterPage, now: nat, ok: bool, error: string): (r: RosterStep)
    ensures p.groupSelection == [] ==> r == RosterStep(p, EmptyGroupToast)
    ensures p.groupSelection != [] && !ok ==> r == RosterStep(p, Toast(DangerToast, "Error: " + error))
    ensures p.groupSelection != [] && ok ==>
      && r.toast == GroupedToast
      && r.page == p.(students := r.page.students, groupSelection := [])
      && SortedBy(r.page.students, GroupKey)
      && multiset(r.page.students) == multiset(AssignGroup(p.students, p.groupSelection, NewGroupID(now)))
      && forall k :: WithKey(r.page.students, GroupKey, k) == WithKey(AssignGroup(p.students, p.groupSelection, NewGroupID(now)), GroupKey, k)
  {
    if |p.groupSelection| < 1 then RosterStep(p, EmptyGroupToast)
    else if !ok then RosterStep(p, Toast(DangerToast, "Error: " + error))
    else
      var grouped := SortByGroup(AssignGroup(p.students, p.groupSelection, NewGroupID(now)));
      RosterStep(p.(students := grouped, groupSelection := []), GroupedToast)
  }

  /** The enroll filter: the student's id is selected. */
  function Chosen(sel: seq<string>): User -> bool {
    (u: User) => u.id in sel
  }

  /** The record with its teacher set. */
  function WithTeacher(teacherID: Option<string>): User -> User {
    (u: User) => u.(myTeacher := teacherID)
  }

  /** The selected available students, enrolled with `teacherID`
      (`available.filter(...).map(...)`). Each selected available record
      appears once, in pool order: the result is an order-preserving
      selection from the pool with the teacher set, as long as the number
      of selected pool records. */
  function Enrolled(available: seq<User>, sel: seq<string>, teacherID: Option<string>): (r: seq<User>)
    ensures forall i :: 0 <= i < |r| ==> r[i].myTeacher == teacherID && r[i].id in sel
    ensures forall i :: 0 <= i < |r| ==> exists j :: 0 <= j < |available| && r[i] == available[j].(myTeacher := teacherID)
    ensures forall j :: 0 <= j < |available| && available[j].id in sel ==> available[j].(myTeacher := teacherID) in r
    ensures |r| == |Filter(available, Chosen(sel))|
    ensures IsSubsequence(r, MapSeq(available, WithTeacher(teacherID)))
  {
    var picked := Filter(available, Chosen(sel));
    var r := MapSeq(picked, WithTeacher(teacherID));
    forall i | 0 <= i < |r| ensures exists j :: 0 <= j < |available| && r[i] == available[j].(myTeacher := teacherID) {
      FilterMembership(available, Chosen(sel), picked[i]);
      var j :| 0 <= j < |available| && available[j] == picked[i];
    }
    forall j | 0 <= j < |available| && available[j].id in sel ensures available[j].(myTeacher := teacherID) in r {
      FilterMembership(available, Chosen(sel), available[j]);
      var i :| 0 <= i < |picked| && picked[i] == available[j];
      assert r[i] == available[j].(myTeacher := teacherID);
    }
    FilterAfterMap(available, WithTeacher(teacherID), Chosen(sel), Chosen(sel));
    FilterIsSubsequence(MapSeq(available, WithTeacher(teacherID)), Chosen(sel));
    r
  }

  /** `handleEnrollStudents`. An empty selection is refused with a warning;
      otherwise, once the writes succeed, the selected available students are
      appended to the roster with their teacher set, the existing roster
      stays in front, and the selection is cleared. The available list is
      left as it was. */
  function EnrollStudents(p: RosterPage, teacherID: Option<string>, ok: bool, error: string): (r: RosterStep)
    ensures p.enrollSelection == [] ==> r == RosterStep(p, EmptyEnrollToast)
    ensures p.enrollSelection != [] && !ok ==> r == RosterStep(p, Toast(DangerToast, "Error: " + error))
    ensures p.enrollSelection != [] && ok ==>
      && r.toast == EnrolledToast
      && r.page == p.(students := r.page.students, enrollSelection := [])
      && p.students <= r.page.students
      && var added := r.page.students[|p.students|..];
      && (forall i :: 0 <= i < |added| ==> added[i].myTeacher == teacherID && added[i].id in p.enrollSelection)
      && (forall i :: 0 <= i < |added| ==> exists j :: 0 <= j < |p.available| && added[i] == p.available[j].(myTeacher := teacherID))
      && (forall j :: 0 <= j < |p.available| && p.available[j].id in p.enrollSelection ==>
            p.available[j].(myTeacher := teacherID) in added)
      && |added| == |Filter(p.available, Chosen(p.enrollSelection))|
      && IsSubsequence(added, MapSeq(p.available, WithTeacher(teacherID)))
  {
    if |p.enrollSelection| < 1 then RosterStep(p, EmptyEnrollToast)
    else if !ok then RosterStep(p, Toast(DangerToast, "Error: " + error))
    else
      var added := Enrolled(p.available, p.enrollSelection, teacherID);
      var students := p.students + added;
      assert students[|p.students|..] == added;
      RosterStep(p.(students := students, enrollSelection := []), EnrolledToast)
  }

  // ---------------------------------------------------------------------
  // The roster and the pool of available students stay apart

  /** No record of `a` shares its id with a record of `b`. */
  ghost predicate IdsApart(a: seq<User>, b: seq<User>) {
    forall i, j :: 0 <= i < |a| && 0 <= j < |b| ==> a[i].id != b[j].id
  }

  /** No student is both on the roster and in the pool of available students. */
  ghost predicate ListsDisjoint(p: RosterPage) {
    IdsApart(p.students, p.available)
  }

  /** The freshly loaded page keeps the lists apart: a rostered student has
      the teacher, an available one has none, and record ids are unique. */
  lemma LoadedListsDisjoint(users: seq<User>, teacherID: Option<string>)
    requires UniqueUserIds(users) && Truthy(teacherID)
    ensures ListsDisjoint(RosterPage(RosterOf(users, teacherID), AvailableStudents(users), [], []))
  {
    var roster, pool := RosterOf(users, teacherID), AvailableStudents(users);
    forall i, j | 0 <= i < |roster| && 0 <= j < |pool| ensures roster[i].id != pool[j].id {
      assert roster[i] in roster && pool[j] in pool;
      var a :| 0 <= a < |users| && users[a] == roster[i];
      var b :| 0 <= b < |users| && users[b] == pool[j];
      assert users[a].myTeacher != users[b].myTeacher;
    }
  }

  /** Grouping changes group IDs only, so it keeps the lists apart. */
  lemma GroupingKeepsListsDisjoint(p: RosterPage, now: nat, ok: bool, error: string)
    requires ListsDisjoint(p)
    ensures ListsDisjoint(GroupStudents(p, now, ok, error).page)
  {
    if p.groupSelection != [] && ok {
      var q := GroupStudents(p, now, ok, error).page;
      var regrouped := AssignGroup(p.students, p.groupSelection, NewGroupID(now));
      forall i, j | 0 <= i < |q.students| && 0 <= j < |q.available| ensures q.students[i].id != q.available[j].id {
        assert q.students[i] in multiset(regrouped);
        var k :| 0 <= k < |regrouped| && regrouped[k] == q.students[i];
        assert regrouped[k].id == p.students[k].id;
      }
    }
  }

  /** As written, enrolling leaves the student in the pool, where it can be
      picked and enrolled again: the roster then lists it twice. */
  lemma EnrollTwiceListsStudentTwice()
    ensures var x := User("s1", Some("u1"), Some("Ana"), None, Student, None, None, None, None, None, None, None);
      var p := RosterPage([], [x], [], ["s1"]);
      var once := EnrollStudents(p, Some("1"), true, "").page;
      var again := once.(enrollSelection := ToggleEnrollSelection(once.enrollSelection, "s1"));
      var twice := EnrollStudents(again, Some("1"), true, "").page;
      && ListsDisjoint(p)
      && !ListsDisjoint(once)
      && |twice.students| == 2 && twice.students[0] == twice.students[1]
  {
    var x := User("s1", Some("u1"), Some("Ana"), None, Student, None, None, None, None, None, None, None);
    var x' := x.(myTeacher := Some("1"));
    var p := RosterPage([], [x], [], ["s1"]);
    assert Enrolled([x], ["s1"], Some("1")) == [x'];
    var once := EnrollStudents(p, Some("1"), true, "").page;
    assert once.students == [x'] && once.available == [x];
    var again := once.(enrollSelection := ToggleEnrollSelection(once.enrollSelection, "s1"));
    assert again.enrollSelection == ["s1"];
    assert EnrollStudents(again, Some("1"), true, "").page.students == [x'] + [x'];
  }

  /** `handleEnrollStudents` as evidently intended: the same roster update,
      and the enrolled students also leave the pool. */
  function EnrollStudentsCorrected(p: RosterPage, teacherID: Option<string>, ok: bool, error: string): (r: RosterStep)
    ensures r.toast == EnrollStudents(p, teacherID, ok, error).toast
    ensures r.page.students == EnrollStudents(p, teacherID, ok, error).page.students
    ensures !(p.enrollSelection != [] && ok) ==> r == EnrollStudents(p, teacherID, ok, error)
    ensures p.enrollSelection != [] && ok ==>
      && r.page.enrollSelection == []
      && forall u :: u in r.page.available <==> u in p.available && u.id !in p.enrollSelection
  {
    var step := EnrollStudents(p, teacherID, ok, error);
    if p.enrollSelection != [] && ok then
      var notChosen := (u: User) => u.id !in p.enrollSelection;
      forall u ensures u in Filter(p.available, notChosen) <==> u in p.available && u.id !in p.enrollSelection {
        FilterMembership(p.available, notChosen, u);
      }
      step.(page := step.page.(available := Filter(p.available, notChosen)))
    else step
  }

  /** Appending records taken from the selected part of a pool keeps a
      roster apart from what remains of the pool, and the appended records
      were not on the roster. */
  lemma AppendFromPoolKeepsApart(roster: seq<User>, added: seq<User>, pool: seq<User>, rest: seq<User>, sel: seq<string>)
    requires IdsApart(roster, pool)
    requires forall i :: 0 <= i < |added| ==> added[i].id in sel
    requires forall i :: 0 <= i < |added| ==> exists j :: 0 <= j < |pool| && added[i].id == pool[j].id
    requires forall u :: u in rest ==> u in pool && u.id !in sel
    ensures IdsApart(roster + added, rest)
    ensures IdsApart(added, roster)
  {
    forall i, k | 0 <= i < |added| && 0 <= k < |roster| ensures added[i].id != roster[k].id {
      var j :| 0 <= j < |pool| && added[i].id == pool[j].id;
    }
    forall i, j | 0 <= i < |roster + added| && 0 <= j < |rest| ensures (roster + added)[i].id != rest[j].id {
      assert rest[j] in rest;
      if i < |roster| {
        var j' :| 0 <= j' < |pool| && pool[j'] == rest[j];
      } else {
        assert (roster + added)[i] == added[i - |roster|];
      }
    }
  }

  /** The corrected enrollment keeps the lists apart, so it never appends a
      student the roster already lists. */
  lemma CorrectedEnrollKeepsListsDisjoint(p: RosterPage, teacherID: Option<string>, ok: bool, error: string)
    requires ListsDisjoint(p)
    ensures ListsDisjoint(EnrollStudentsCorrected(p, teacherID, ok, error).page)
    ensures var q := EnrollStudentsCorrected(p, teacherID, ok, error).page;
      p.students <= q.students && IdsApart(q.students[|p.students|..], p.students)
  {
    var q := EnrollStudentsCorrected(p, teacherID, ok, error).page;
    if p.enrollSelection != [] && ok {
      var added := q.students[|p.students|..];
      assert q.students == p.students + added;
      forall i | 0 <= i < |added| ensures exists j :: 0 <= j < |p.available| && added[i].id == p.available[j].id {
        var j :| 0 <= j < |p.available| && added[i] == p.available[j].(myTeacher := teacherID);
      }
      AppendFromPoolKeepsApart(p.students, added, p.available, q.available, p.enrollSelection);
    }
  }

  // ---------------------------------------------------------------------
  // Group colour

  /** `students.map(s => s.groupID)`. */
  function GroupIds(students: seq<User>): (ids: seq<Option<string>>)
    ensures |ids| == |students|
    ensures forall i :: 0 <= i < |students| ==> ids[i] == students[i].groupID
  {
    seq(|students|, i requires 0 <= i < |students| => students[i].groupID)
  }

  /** The roster's group IDs in order of first appearance: `[...new Set(students.map(s => s.groupID))]`. */
  function GroupOrder(students: seq<User>): (r: seq<Option<string>>)
    ensures Unique(r)
    ensures forall g :: g in r <==> exists i :: 0 <= i < |students| && students[i].groupID == g
  {
    var ids := GroupIds(students);
    forall g ensures g in ids <==> exists i :: 0 <= i < |students| && students[i].groupID == g {
      if exists i :: 0 <= i < |students| && students[i].groupID == g {
        var i :| 0 <= i < |students| && students[i].groupID == g;
        assert ids[i] == g;
      }
    }
    Dedup(ids)
  }

  /** Colour slots are handed out in order of first appearance: of two groups
      on the roster, the one whose first student comes earlier has the
      earlier palette slot. */
  lemma SlotsFollowFirstAppearance(students: seq<User>, g: Option<string>, h: Option<string>)
    requires g in GroupIds(students) && h in GroupIds(students)
    ensures IndexOf(GroupOrder(students), g) < IndexOf(GroupOrder(students), h)
        <==> IndexOf(GroupIds(students), g) < IndexOf(GroupIds(students), h)
  {
    DedupKeepsFirstAppearanceOrder(GroupIds(students), g, h);
  }

  /** `getGroupColor`: the palette entry at the group's first-appearance
      index, wrapping after seven groups. A group ID the roster does not hold
      has index -1, and `palette[-1 % 7]` is undefined: `None`. */
  function GroupColor(students: seq<User>, gid: Option<string>): (r: Option<string>)
    ensures r.Some? <==> exists i :: 0 <= i < |students| && students[i].groupID == gid
    ensures r.Some? ==> r.value in Palette
    ensures r.Some? ==> r.value == Palette[IndexOf(GroupOrder(students), gid) % |Palette|]
  {
    var k := IndexOf(GroupOrder(students), gid);
    if k < 0 then None else Some(Palette[k % |Palette|])
  }

  /** The first seven groups of the roster are given seven different colours. */
  lemma FirstSevenGroupsDistinct(students: seq<User>, g: Option<string>, h: Option<string>)
    requires g != h
    requires 0 <= IndexOf(GroupOrder(students), g) < |Palette|
    requires 0 <= IndexOf(GroupOrder(students), h) < |Palette|
    ensures GroupColor(students, g) != GroupColor(students, h)
  {
    var order := GroupOrder(students);
    var a, b := IndexOf(order, g), IndexOf(order, h);
    assert a != b by { assert order[a] == g && order[b] == h; }
    SlotWithinPalette(a);
    SlotWithinPalette(b);
    PaletteSlotsDiffer(a, b);
  }

  /** A slot below seven is its own index into the palette. */
  lemma SlotWithinPalette(k: int)
    requires 0 <= k < |Palette|
    ensures k % |Palette| == k
  {
  }

  /** Two different slots of the palette hold different colours. */
  lemma PaletteSlotsDiffer(a: int, b: int)
    requires 0 <= a < |Palette| && 0 <= b < |Palette| && a != b
    ensures Palette[a] != Palette[b]
  {
    PaletteUnique();
  }

  /** The palette's seven colours are all different. */
  lemma PaletteUnique()
    ensures Unique(Palette)
  {
    forall i, j | 0 <= i < j < |Palette| ensures Palette[i] != Palette[j] {
      var p, q := Palette[i], Palette[j];
      assert p[1] != q[1] || p[3] != q[3] || p[5] != q[5];
    }
  }
}
