/** The student actions of `src/app/actions/student.ts`: the paginated
    search, create, update, guarded delete, the lookup by enrollment and the
    list of classes. */
module StudentActions {
  import opened Base
  import opened Text
  import opened Seqs
  import opened Records
  import opened Criteria

  /** `getStudentByEnrollment` (`findUnique` on the unique `enrollment`). */
  function GetStudentByEnrollment(db: Db, enrollment: string): (r: Option<Student>)
    ensures r.Some? ==> r.value in db.students.Values && r.value.enrollment == enrollment
    ensures KeysBelow(db.students, db.nextId) ==>
      (r.None? <==> forall s :: s in db.students.Values ==> s.enrollment != enrollment)
  {
    RowsMembers(db.students, db.nextId);
    Find(Rows(db.students, db.nextId), (s: Student) => s.enrollment == enrollment)
  }

  /** In a consistent store the lookup finds the one student holding that
      enrollment, whichever key it is stored under. */
  lemma EnrollmentLookupFindsOwner(db: Db, k: Id)
    requires Valid(db) && k in db.students
    ensures GetStudentByEnrollment(db, db.students[k].enrollment) == Some(db.students[k])
  {
    var e := db.students[k].enrollment;
    assert db.students[k] in db.students.Values;
    var r := GetStudentByEnrollment(db, e);
    var j :| j in db.students && db.students[j] == r.value;
  }

  /** `createStudent`. `enrollment` is a unique column, so a clash makes the
      store refuse the write. */
  function CreateStudent(db: Db, enrollment: string, name: string, phone: Option<string>, classId: Option<Id>): (s: Step<Student>)
    ensures s.result.Err? <==> exists k :: k in db.students && db.students[k].enrollment == enrollment
    ensures s.result.Err? ==> s.result.error == StoreFailure && s.db == db
    ensures s.result.Ok? ==>
      var t := s.result.value;
      && t == Student(db.nextId, enrollment, name, phone, classId)
      && (KeysBelow(db.students, db.nextId) ==> t.id !in db.students)
      && s.db == db.(students := db.students[t.id := t], nextId := db.nextId + 1)
  {
    if exists k :: k in db.students && db.students[k].enrollment == enrollment then
      Step(db, Err(StoreFailure))
    else
      var t := Student(db.nextId, enrollment, name, phone, classId);
      Step(db.(students := db.students[t.id := t], nextId := db.nextId + 1), Ok(t))
  }

  /** `updateStudent`. `name` and `phone` are always written (`phone` may be
      written as absent); `classId` only when it is given. */
  function UpdateStudent(db: Db, id: Id, name: string, phone: Option<string>, classId: Patch<Option<Id>>): (s: Step<Student>)
    ensures s.result.Err? <==> id !in db.students
    ensures s.result.Err? ==> s.result.error == StoreFailure && s.db == db
    ensures s.result.Ok? ==>
      var t := s.result.value;
      var before := db.students[id];
      && t.id == before.id && t.enrollment == before.enrollment
      && t.name == name && t.phone == phone
      && (classId.Keep? ==> t.classId == before.classId)
      && (classId.Set? ==> t.classId == classId.value)
      && s.db == db.(students := db.students[id := t])
  {
    if id !in db.students then Step(db, Err(StoreFailure))
    else
      var t := db.students[id].(name := name, phone := phone, classId := Patched(classId, db.students[id].classId));
      Step(db.(students := db.students[id := t]), Ok(t))
  }

  /** `deleteStudent`. Any unreturned loan of the student blocks the delete;
      otherwise the row goes, or the store refuses when there is none. */
  function DeleteStudent(db: Db, id: Id): (s: Step<()>)
    ensures s.result == Err(StudentHasActiveLoans) <==>
      exists k :: k in db.loans && db.loans[k].studentId == id && !db.loans[k].returned
    ensures s.result.Err? ==> s.db == db
    ensures s.result.Ok? <==> id in db.students && |ActiveLoansOfStudent(db, id)| == 0
    ensures s.result.Ok? ==> s.db == db.(students := db.students - {id})
  {
    ActiveLoansOfStudentEmpty(db, id);
    if |ActiveLoansOfStudent(db, id)| > 0 then Step(db, Err(StudentHasActiveLoans))
    else if id !in db.students then Step(db, Err(StoreFailure))
    else Step(db.(students := db.students - {id}), Ok(()))
  }

  lemma CreateStudentPreservesValid(db: Db, enrollment: string, name: string, phone: Option<string>, classId: Option<Id>)
    requires Valid(db)
    ensures Valid(CreateStudent(db, enrollment, name, phone, classId).db)
  {
  }

  lemma UpdateStudentPreservesValid(db: Db, id: Id, name: string, phone: Option<string>, classId: Patch<Option<Id>>)
    requires Valid(db)
    ensures Valid(UpdateStudent(db, id, name, phone, classId).db)
  {
    var s := UpdateStudent(db, id, name, phone, classId);
    if s.result.Ok? {
      EnrollmentsKept(db.students, s.db.students);
    }
  }

  lemma DeleteStudentPreservesValid(db: Db, id: Id)
    requires Valid(db)
    ensures Valid(DeleteStudent(db, id).db)
  {
    var s := DeleteStudent(db, id);
    if s.result.Ok? {
      EnrollmentsKept(db.students, s.db.students);
    }
  }

  /** `Math.ceil(total / limit)` for a positive limit. */
  function CeilDiv(total: nat, limit: nat): (r: nat)
    requires limit >= 1
    ensures r * limit >= total
    ensures r > 0 ==> (r - 1) * limit < total
  {
    (total + limit - 1) / limit
  }

  /** `skip = (page - 1) * limit`. */
  function Skip(page: int, limit: int): (r: int)
    ensures page >= 1 && limit >= 1 ==> r >= 0
  {
    (page - 1) * limit
  }

  /** The result of `getStudents`: one page of students and the pagination
      block. */
  datatype StudentPage = StudentPage(data: seq<Student>, total: nat, page: int, limit: int, totalPages: nat)

  /** The students matching the query, by name (the ordered `where` of
      `getStudents`, before `skip` and `take`). */
  function MatchingByName(db: Db, query: string): (r: seq<Student>)
    ensures SortedBy(r, ByName)
    ensures forall s :: s in r ==> s in db.students.Values && StudentMatchesText(s, query)
    ensures KeysBelow(db.students, db.nextId) ==>
      forall s :: s in db.students.Values && StudentMatchesText(s, query) ==> s in r
    ensures IdsAreKeys(db) ==> forall i, j :: 0 <= i < j < |r| ==> r[i].id != r[j].id
  {
    ByNamePreorder();
    RowsMembers(db.students, db.nextId);
    var r := SortBy(Filter(Rows(db.students, db.nextId), (s: Student) => StudentMatchesText(s, query)), ByName);
    QueryIdsDistinct(db.students, db.nextId, r, (s: Student) => s.id);
    r
  }

  /** The `total` of `getStudents` is the `count` of the matching rows: the
      number of student ids whose row matches. */
  lemma MatchCount(db: Db, query: string)
    ensures |MatchingByName(db, query)| == |KeysWhere(db.students, db.nextId, (s: Student) => StudentMatchesText(s, query))|
  {
    CountRows(db.students, db.nextId, (s: Student) => StudentMatchesText(s, query));
  }

  /** `getStudents(query, page, limit)`. A page below 1 makes `skip`
      negative, which the store refuses. */
  function GetStudents(db: Db, query: string, page: int, limit: int): (r: Result<StudentPage>)
    requires limit >= 1
    ensures r.Err? <==> page < 1
    ensures r.Err? ==> r.error == StoreFailure
    ensures r.Ok? ==>
      var p := r.value;
      var skip := Skip(page, limit);
      var all := MatchingByName(db, query);
      && p.page == page && p.limit == limit
      && p.total == |all|
      && p.totalPages == CeilDiv(p.total, limit)
      && |p.data| <= limit
      && |p.data| == Max(0, Min(limit, p.total - skip))
      && (forall i :: 0 <= i < |p.data| ==> p.data[i] == all[skip + i])
      && SortedBy(p.data, ByName)
      && (forall s :: s in p.data ==> s in db.students.Values && StudentMatchesText(s, query))
      && (IdsAreKeys(db) ==> forall i, j :: 0 <= i < j < |p.data| ==> p.data[i].id != p.data[j].id)
  {
    if page < 1 then Err(StoreFailure)
    else
      var all := MatchingByName(db, query);
      var skip := Skip(page, limit);
      var data := Slice(all, skip, limit);
      SliceOfSorted(all, skip, limit, ByName);
      Ok(StudentPage(data, |all|, page, limit, CeilDiv(|all|, limit)))
  }

  /** Entry `k` of page `page` exists and is the matching student at position
      `i` of the name order, on a page within `totalPages`. */
  predicate OnPage(db: Db, query: string, page: int, limit: int, k: nat, i: nat)
    requires limit >= 1
  {
    var r := GetStudents(db, query, page, limit);
    var all := MatchingByName(db, query);
    && r.Ok? && page <= r.value.totalPages
    && k < |r.value.data| && i < |all| && r.value.data[k] == all[i]
  }

  /** Every matching student is on some page within `totalPages`. */
  lemma EveryMatchIsPaged(db: Db, query: string, limit: int, i: nat)
    requires limit >= 1 && i < |MatchingByName(db, query)|
    ensures exists page, k: nat :: OnPage(db, query, page, limit, k, i)
  {
    var page, k := PagePosition(i, limit);
    PageWithinTotal(i, |MatchingByName(db, query)|, limit, page);
    PageEntry(db, query, page, limit, k);
    assert OnPage(db, query, page, limit, k, i);
  }

  /** Entry `k` of a page is the matching student at `skip + k`. */
  lemma PageEntry(db: Db, query: string, page: int, limit: int, k: nat)
    requires limit >= 1 && page >= 1 && k < limit
    requires Skip(page, limit) + k < |MatchingByName(db, query)|
    ensures GetStudents(db, query, page, limit).Ok?
    ensures k < |GetStudents(db, query, page, limit).value.data|
    ensures GetStudents(db, query, page, limit).value.data[k] == MatchingByName(db, query)[Skip(page, limit) + k]
  {
  }

  /** Position `i` lies at offset `i % limit` of page `i / limit + 1`. */
  lemma PagePosition(i: nat, limit: int) returns (page: int, k: nat)
    requires limit >= 1
    ensures page >= 1 && k < limit && Skip(page, limit) + k == i
    ensures (page - 1) * limit <= i
  {
    var q := i / limit;
    page, k := q + 1, i % limit;
    assert q * limit + i % limit == i;
    assert Skip(q + 1, limit) == q * limit;
  }

  /** A page starting at or before position `i` of `total` rows is within
      `totalPages`. */
  lemma PageWithinTotal(i: nat, total: nat, limit: int, page: int)
    requires limit >= 1 && i < total && page >= 1 && (page - 1) * limit <= i
    ensures page <= CeilDiv(total, limit)
  {
    var tp := CeilDiv(total, limit);
    if tp <= page - 1 {
      MulMonotone(tp, page - 1, limit);
      assert false;
    }
  }

  lemma MulMonotone(a: nat, b: nat, c: nat)
    requires a <= b
    ensures a * c <= b * c
  {
  }

  /** `getAvailableClasses`: every class, by year descending and, within a
      year, by name ascending. */
  function GetAvailableClasses(db: Db): (r: seq<SchoolClass>)
    ensures SortedBy(r, ByYearDescThenName)
    ensures forall c :: c in r ==> c in db.classes.Values
    ensures KeysBelow(db.classes, db.nextId) ==> forall c :: c in db.classes.Values ==> c in r
    ensures IdsAreKeys(db) ==> forall i, j :: 0 <= i < j < |r| ==> r[i].id != r[j].id
    ensures forall i, j :: 0 <= i < j < |r| ==>
      StrLe(r[j].year, r[i].year) && (r[i].year == r[j].year ==> StrLe(r[i].name, r[j].name))
  {
    ByYearDescThenNamePreorder();
    RowsMembers(db.classes, db.nextId);
    var r := SortBy(Rows(db.classes, db.nextId), ByYearDescThenName);
    forall i, j | 0 <= i < j < |r|
      ensures StrLe(r[j].year, r[i].year) && (r[i].year == r[j].year ==> StrLe(r[i].name, r[j].name))
    {
      assert ByYearDescThenName(r[i], r[j]);
      StrLeTotal(r[j].year, r[i].year);
    }
    QueryIdsDistinct(db.classes, db.nextId, r, (c: SchoolClass) => c.id);
    r
  }
}
