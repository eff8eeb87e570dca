/** `StudentRepository`: the queries and commands of the data layer as pure
    functions of the database state. A command returns the new state, or the
    error `SaveChanges` would throw, in which case nothing was written.

    The Students table is kept in key order (see `DbContext.KeysAscending`),
    so "ordered by descending key" is the reversal of the table. */
module Repository {
  import opened Results
  import opened Numbers
  import opened Models
  import opened DbContext

  // ------------------------------------------------------------- queries

  /** Position of the first student satisfying `p`: the row
      `FirstOrDefaultAsync(p)` returns, as an index. */
  function FirstWhere(students: seq<Student>, p: Student -> bool): (r: Option<nat>)
    ensures r.Some? ==> r.value < |students| && p(students[r.value])
    ensures r.Some? ==> forall k :: 0 <= k < r.value ==> !p(students[k])
    ensures r.None? ==> forall k :: 0 <= k < |students| ==> !p(students[k])
  {
    if |students| == 0 then None
    else if p(students[0]) then Some(0)
    else match FirstWhere(students[1..], p)
      case Some(i) => Some(i + 1)
      case None => None
  }

  /** `GetByIdAsync`. */
  function GetById(db: Store, id: int): (r: Option<Student>)
    ensures r.Some? ==> r.value in db.students && r.value.id == id
    ensures r.None? ==> forall k :: 0 <= k < |db.students| ==> db.students[k].id != id
  {
    match FirstWhere(db.students, (t: Student) => t.id == id)
    case Some(i) => Some(db.students[i])
    case None => None
  }

  /** `GetByUsernameAsync` (ordinal comparison). */
  function GetByUsername(db: Store, username: string): (r: Option<Student>)
    ensures r.Some? ==> r.value in db.students && r.value.username == username
    ensures r.None? ==> forall k :: 0 <= k < |db.students| ==> db.students[k].username != username
  {
    match FirstWhere(db.students, (t: Student) => t.username == username)
    case Some(i) => Some(db.students[i])
    case None => None
  }

  /** In a valid store the lookup by key finds exactly the student with that key. */
  lemma GetByIdExact(db: Store, id: int, s: Student)
    requires Valid(db)
    ensures GetById(db, id) == Some(s) <==> s in db.students && s.id == id
  {
    if s in db.students && s.id == id {
      var r := GetById(db, id);
      assert r.Some?;
      var i :| 0 <= i < |db.students| && db.students[i] == r.value;
      var j :| 0 <= j < |db.students| && db.students[j] == s;
      assert i == j;
    }
  }

  /** In a valid store the lookup by username finds exactly the student with
      that username. */
  lemma GetByUsernameExact(db: Store, username: string, s: Student)
    requires Valid(db)
    ensures GetByUsername(db, username) == Some(s) <==> s in db.students && s.username == username
  {
    if s in db.students && s.username == username {
      var r := GetByUsername(db, username);
      assert r.Some?;
      var i :| 0 <= i < |db.students| && db.students[i] == r.value;
      var j :| 0 <= j < |db.students| && db.students[j] == s;
      assert i == j;
    }
  }

  function Reverse(s: seq<Student>): (r: seq<Student>)
    ensures |r| == |s|
    ensures forall i :: 0 <= i < |s| ==> r[i] == s[|s| - 1 - i]
  {
    if |s| == 0 then [] else Reverse(s[1..]) + [s[0]]
  }

  /** `GetAllAsync`: every student, newest (highest key) first. */
  function GetAll(db: Store): (r: seq<Student>)
    ensures |r| == |db.students|
  {
    Reverse(db.students)
  }

  predicate KeysDescending(s: seq<Student>) {
    forall i, j :: 0 <= i < j < |s| ==> s[i].id > s[j].id
  }

  /** `GetAllAsync` lists every student once, in strictly descending key order. */
  lemma GetAllOrdered(db: Store)
    requires Valid(db)
    ensures KeysDescending(GetAll(db))
    ensures forall s :: s in GetAll(db) <==> s in db.students
  {
    var r := GetAll(db);
    var n := |db.students|;
    forall s | s in db.students ensures s in r {
      var i :| 0 <= i < n && db.students[i] == s;
      assert r[n - 1 - i] == s;
    }
  }

  /** `ExistsAsync`: some student has the username or the email. */
  function AnyWith(students: seq<Student>, username: string, email: string): (r: bool)
    ensures r <==> exists i :: 0 <= i < |students| && (students[i].username == username || students[i].email == email)
  {
    if |students| == 0 then false
    else if students[0].username == username || students[0].email == email then true
    else
      var r := AnyWith(students[1..], username, email);
      assert forall i :: 1 <= i < |students| ==> students[i] == students[1..][i - 1];
      r
  }

  function Exists(db: Store, username: string, email: string): (r: bool)
    ensures r <==> exists i :: (0 <= i < |db.students| &&
      (db.students[i].username == username || db.students[i].email == email))
  {
    AnyWith(db.students, username, email)
  }

  /** `GetLatestStudentIdAsync`: the "STU-" identifier of the student with
      the highest key, or "" for an empty table. */
  function GetLatestStudentId(db: Store): (r: string)
    ensures |db.students| == 0 ==> r == ""
    ensures |db.students| > 0 ==> r == db.students[|db.students| - 1].publicId
  {
    var all := GetAll(db);
    if |all| == 0 then "" else all[0].publicId
  }

  /** In a valid store the latest identifier is that of the student holding
      the highest key. */
  lemma LatestHasHighestKey(db: Store)
    requires Valid(db) && |db.students| > 0
    ensures exists i :: (0 <= i < |db.students|
      && GetLatestStudentId(db) == db.students[i].publicId
      && forall j :: 0 <= j < |db.students| ==> db.students[j].id <= db.students[i].id)
  {
    var i := |db.students| - 1;
    assert forall j :: 0 <= j < |db.students| ==> db.students[j].id <= db.students[i].id;
  }

  // -------------------------------------------------------------- paging

  /** One page of `GetPagedAsync`, with the count of all students. */
  datatype Page = Page(items: seq<Student>, totalCount: int)

  /** LINQ `Skip`: a non-positive count skips nothing. */
  function Skip(s: seq<Student>, n: int): (r: seq<Student>)
    ensures |r| == if n <= 0 then |s| else if n >= |s| then 0 else |s| - n
    ensures forall k :: 0 <= k < |r| ==> r[k] == s[(if n <= 0 then 0 else n) + k]
  {
    if n <= 0 then s else if n >= |s| then [] else s[n..]
  }

  /** LINQ `Take`: a non-positive count takes nothing. */
  function Take(s: seq<Student>, n: int): (r: seq<Student>)
    ensures |r| == if n <= 0 then 0 else if n >= |s| then |s| else n
    ensures forall k :: 0 <= k < |r| ==> r[k] == s[k]
  {
    if n <= 0 then [] else if n >= |s| then s else s[..n]
  }

  /** The number of students before page `page`: none before the first
      page, and never a negative number from the first page on. */
  function PageOffset(page: int, size: int): (offset: int)
    ensures page == 1 ==> offset == 0
    ensures page >= 1 && size >= 0 ==> offset >= 0
  {
    (page - 1) * size
  }

  /** `(pageNumber - 1) * pageSize` as the code evaluates it: two unchecked
      32-bit operations. */
  function PageOffsetAsWritten(page: int, size: int): (offset: int)
    requires IsInt32(page) && IsInt32(size)
    ensures IsInt32(offset)
    ensures IsInt32(PageOffset(page, size)) ==> offset == PageOffset(page, size)
  {
    Wrap32(Wrap32(page - 1) * size)
  }

  /** `GetPagedAsync` as written, with the wrapping offset. */
  function GetPagedAsWritten(db: Store, page: int, size: int): (r: Page)
    requires IsInt32(page) && IsInt32(size)
    ensures r.totalCount == |db.students|
  {
    Page(Take(Skip(GetAll(db), PageOffsetAsWritten(page, size)), size), |db.students|)
  }

  /** `GetPagedAsync` with the offset computed exactly: the students
      newest first, `(page - 1) * size` of them skipped, at most `size`
      taken, and the count of all students. */
  function GetPaged(db: Store, page: int, size: int): (r: Page)
    ensures r.totalCount == |db.students|
  {
    Page(Take(Skip(GetAll(db), PageOffset(page, size)), size), |db.students|)
  }

  /** A page is the window of the newest-first list that starts after the
      earlier pages: `min(size, max(0, N - (page - 1) * size))` students. */
  lemma PageWindow(db: Store, page: int, size: int)
    requires page >= 1 && size >= 0
    ensures var offset := PageOffset(page, size);
      var n := |db.students|;
      && |GetPaged(db, page, size).items| == (if n - offset <= 0 then 0 else if n - offset < size then n - offset else size)
      && forall k :: 0 <= k < |GetPaged(db, page, size).items| ==> GetPaged(db, page, size).items[k] == GetAll(db)[offset + k]
  {
  }

  /** A page past the end is empty, yet still reports the full count. */
  lemma PastTheEnd(db: Store, page: int, size: int)
    requires page >= 1 && size >= 0
    requires PageOffset(page, size) >= |db.students|
    ensures GetPaged(db, page, size).items == []
    ensures GetPaged(db, page, size).totalCount == |db.students|
  {
  }

  /** Every page lists its students in strictly descending key order. */
  lemma PageOrdered(db: Store, page: int, size: int)
    requires Valid(db) && page >= 1 && size >= 0
    ensures KeysDescending(GetPaged(db, page, size).items)
  {
    GetAllOrdered(db);
    PageWindow(db, page, size);
  }

  /** Page 286331155 of size 15 starts 4294967310 students in, but the
      32-bit product wraps to 14. */
  lemma PageOffsetOverflow()
    ensures PageOffset(286331155, 15) == 4294967310
    ensures PageOffsetAsWritten(286331155, 15) == 14
  {
  }

  /** So with at least 15 students that far-away page, which should be
      empty, shows students 15 to 29 of the newest-first list. */
  lemma FarPageAsWritten(db: Store)
    requires 15 <= |db.students| <= MaxInt32
    ensures GetPaged(db, 286331155, 15).items == []
    ensures GetPagedAsWritten(db, 286331155, 15).items == Take(GetAll(db)[14..], 15)
    ensures |GetPagedAsWritten(db, 286331155, 15).items| > 0
  {
    PageOffsetOverflow();
  }

  // ------------------------------------------------------------ commands

  /** The fields of a qualification the user enters. */
  predicate SameDetails(a: Qualification, b: Qualification) {
    && a.courseName == b.courseName
    && a.university == b.university
    && a.yearOfPassing == b.yearOfPassing
    && a.percentage == b.percentage
  }

  /** The qualification rows of student `owner` as `SaveChanges` stores
      them: each points at the owner, rows without a key receive the next
      keys of the counter `next` in order, and the counter after them is
      returned. */
  function AssignKeys(qs: seq<Qualification>, owner: int, next: int): (r: (seq<Qualification>, int))
    ensures |r.0| == |qs| && next <= r.1
    ensures forall k :: 0 <= k < |qs| ==> SameDetails(r.0[k], qs[k]) && r.0[k].ownerId == owner
    ensures forall k :: 0 <= k < |qs| && qs[k].id != Unsaved ==> r.0[k].id == qs[k].id
    ensures forall k :: 0 <= k < |qs| && qs[k].id == Unsaved ==> next <= r.0[k].id < r.1
  {
    if |qs| == 0 then ([], next)
    else
      var q := qs[0];
      var isNew := q.id == Unsaved;
      var rest := AssignKeys(qs[1..], owner, if isNew then next + 1 else next);
      var r := ([q.(id := if isNew then next else q.id, ownerId := owner)] + rest.0, rest.1);
      assert forall k :: 1 <= k < |qs| ==> r.0[k] == rest.0[k - 1] && qs[k] == qs[1..][k - 1];
      r
  }

  /** An entity graph the database has not stored yet: no key on the student
      nor on any of its qualifications. */
  predicate Unkeyed(s: Student) {
    s.id == Unsaved && forall k :: 0 <= k < |s.qualifications| ==> s.qualifications[k].id == Unsaved
  }

  /** The student as `AddAsync` stores it: the next key, its qualifications
      keyed and pointing at it. */
  function Inserted(db: Store, s: Student): (t: (Student, int)) {
    var keyed := AssignKeys(s.qualifications, db.nextStudentId, db.nextQualificationId);
    (s.(id := db.nextStudentId, qualifications := keyed.0), keyed.1)
  }

  /** `AddAsync`: insert a new student, which the unique indexes refuse when
      its Username or Email is taken. */
  function Add(db: Store, s: Student): (r: Result<Store, DbError>)
    requires Unkeyed(s)
    ensures r.Err? <==> Exists(db, s.username, s.email)
    ensures r.Err? ==> r.error == DuplicateKey
    ensures r.Ok? ==> r.value.students == db.students + [Inserted(db, s).0]
    ensures r.Ok? ==> r.value.nextStudentId == db.nextStudentId + 1
  {
    if Exists(db, s.username, s.email) then Err(DuplicateKey)
    else
      var t := Inserted(db, s);
      Ok(Store(db.students + [t.0], db.nextStudentId + 1, t.1))
  }

  /** The stored student differs from the submitted one only in the keys the
      database assigns. */
  lemma InsertedFields(db: Store, s: Student)
    ensures var t := Inserted(db, s).0;
      && t.id == db.nextStudentId
      && t == s.(id := t.id, qualifications := t.qualifications)
      && |t.qualifications| == |s.qualifications|
      && forall k :: 0 <= k < |t.qualifications| ==>
        SameDetails(t.qualifications[k], s.qualifications[k]) && t.qualifications[k].ownerId == t.id
  {
  }

  /** A successful insert keeps the store valid. */
  lemma AddKeepsValid(db: Store, s: Student)
    requires Valid(db) && Unkeyed(s)
    requires Add(db, s).Ok?
    ensures Valid(Add(db, s).value)
  {
    var t := Inserted(db, s);
    var db' := Add(db, s).value;
    var n := |db.students|;
    assert forall i :: 0 <= i < n ==> db'.students[i] == db.students[i];
    assert db'.students[n] == t.0;
    forall i | 0 <= i < n
      ensures db.students[i].username != t.0.username && db.students[i].email != t.0.email
    {
    }
  }

  /** Another student than the one at position `i` has the username or the
      email of `s`. */
  predicate ClashesWithOthers(students: seq<Student>, i: int, s: Student) {
    exists j :: 0 <= j < |students| && j != i && (students[j].username == s.username || students[j].email == s.email)
  }

  /** Every keyed qualification of `qs` is one of the rows in `current`. */
  predicate KeysAmong(qs: seq<Qualification>, current: seq<Qualification>) {
    forall k :: 0 <= k < |qs| && qs[k].id != Unsaved ==>
      exists m :: 0 <= m < |current| && current[m].id == qs[k].id
  }

  /** `UpdateAsync`: `DbSet.Update` followed by `SaveChanges`. A student
      without a key is inserted; otherwise the row with its key is replaced,
      together with its qualification rows. Updating a row that is not there
      is a concurrency failure, and so is a keyed qualification that is not
      one of the student's rows; a Username or Email taken by another student
      violates an index, and a text wider than its column is refused. */
  function Update(db: Store, s: Student): (r: Result<Store, DbError>)
    ensures r.Ok? && s.id != Unsaved ==>
      exists i :: 0 <= i < |db.students| && db.students[i].id == s.id
        && !ClashesWithOthers(db.students, i, s) && FitsColumns(s)
        && r.value.students == db.students[i := Stored(db, s).0]
        && r.value.nextStudentId == db.nextStudentId
    ensures r.Ok? && s.id == Unsaved ==> Unkeyed(s) && r == Add(db, s)
  {
    if s.id == Unsaved then
      if Unkeyed(s) then Add(db, s) else Err(Concurrency)
    else
      match FirstWhere(db.students, (t: Student) => t.id == s.id)
      case None => Err(Concurrency)
      case Some(i) =>
        if ClashesWithOthers(db.students, i, s) then Err(DuplicateKey)
        else if !KeysAmong(s.qualifications, db.students[i].qualifications) then Err(Concurrency)
        else if !FitsColumns(s) then Err(DataTooLong)
        else
          var t := Stored(db, s);
          Ok(db.(students := db.students[i := t.0], nextQualificationId := t.1))
  }

  /** The student as `UpdateAsync` stores it: its qualifications keyed and
      pointing at it. */
  function Stored(db: Store, s: Student): (t: (Student, int)) {
    var keyed := AssignKeys(s.qualifications, s.id, db.nextQualificationId);
    (s.(qualifications := keyed.0), keyed.1)
  }

  /** When the update of an existing student fails in a valid store, it is
      for one of the three reasons the database has. */
  lemma UpdateFailure(db: Store, s: Student, i: int)
    requires Valid(db)
    requires 0 <= i < |db.students| && db.students[i].id == s.id && s.id != Unsaved
    ensures Update(db, s).Err? <==>
      || ClashesWithOthers(db.students, i, s)
      || !KeysAmong(s.qualifications, db.students[i].qualifications)
      || !FitsColumns(s)
  {
    var f := FirstWhere(db.students, (t: Student) => t.id == s.id);
    assert f.Some?;
    assert f.value == i;
  }

  /** A successful update keeps the store valid. */
  lemma UpdateKeepsValid(db: Store, s: Student)
    requires Valid(db)
    requires Update(db, s).Ok?
    ensures Valid(Update(db, s).value)
  {
    if s.id == Unsaved {
      AddKeepsValid(db, s);
    } else {
      var i := FirstWhere(db.students, (t: Student) => t.id == s.id).value;
      var t := Stored(db, s);
      var db' := Update(db, s).value;
      assert db'.students == db.students[i := t.0];
      assert !ClashesWithOthers(db.students, i, s);
      assert KeysAmong(s.qualifications, db.students[i].qualifications);
      forall k | 0 <= k < |t.0.qualifications|
        ensures 1 <= t.0.qualifications[k].id < t.1
      {
        if s.qualifications[k].id != Unsaved {
          var m :| 0 <= m < |db.students[i].qualifications| && db.students[i].qualifications[m].id == s.qualifications[k].id;
        }
      }
    }
  }

  /** `DeleteAsync`: remove the student with key `id`, if there is one; the
      cascade takes its qualification rows with it. */
  function Delete(db: Store, id: int): (r: Store)
    ensures r.nextStudentId == db.nextStudentId && r.nextQualificationId == db.nextQualificationId
    ensures GetById(db, id).None? ==> r == db
    ensures forall k :: 0 <= k < |r.students| ==> r.students[k] in db.students
    ensures forall k :: 0 <= k < |db.students| && db.students[k].id != id ==> db.students[k] in r.students
  {
    match FirstWhere(db.students, (t: Student) => t.id == id)
    case None => db
    case Some(i) =>
      var rest := db.students[..i] + db.students[i + 1..];
      assert forall k :: 0 <= k < |rest| ==> rest[k] == db.students[if k < i then k else k + 1];
      assert forall k :: 0 <= k < |db.students| && k != i ==> db.students[k] == rest[if k < i then k else k - 1];
      db.(students := rest)
  }

  /** In a valid store a deletion removes exactly the student with that key. */
  lemma DeleteExact(db: Store, id: int)
    requires Valid(db)
    ensures forall s :: s in Delete(db, id).students <==> s in db.students && s.id != id
  {
    var f := FirstWhere(db.students, (t: Student) => t.id == id);
    if f.Some? {
      RemovedKeyGone(db, f.value);
    }
  }

  /** In a valid store, removing the student at `i` leaves no row with its key. */
  lemma RemovedKeyGone(db: Store, i: int)
    requires Valid(db) && 0 <= i < |db.students|
    ensures var r := db.students[..i] + db.students[i + 1..];
      forall k :: 0 <= k < |r| ==> r[k].id != db.students[i].id
  {
    var s := db.students;
    var r := s[..i] + s[i + 1..];
    forall k | 0 <= k < |r| ensures r[k].id != s[i].id {
      if k < i {
        assert r[k] == s[k];
      } else {
        assert r[k] == s[k + 1];
      }
    }
  }

  /** A successful deletion keeps the store valid. */
  lemma DeleteKeepsValid(db: Store, id: int)
    requires Valid(db)
    ensures Valid(Delete(db, id))
  {
    var f := FirstWhere(db.students, (t: Student) => t.id == id);
    if f.Some? {
      RemoveKeepsValid(db, f.value);
    }
  }

  /** Removing one row keeps every constraint: each is a property of single
      rows or of pairs of rows in order. */
  lemma RemoveKeepsValid(db: Store, i: int)
    requires Valid(db) && 0 <= i < |db.students|
    ensures Valid(db.(students := db.students[..i] + db.students[i + 1..]))
  {
    var s := db.students;
    var r := s[..i] + s[i + 1..];
    forall a, b | 0 <= a < b < |r|
      ensures r[a].username != r[b].username && r[a].email != r[b].email && r[a].id < r[b].id
    {
      var a', b' := if a < i then a else a + 1, if b < i then b else b + 1;
      assert r[a] == s[a'] && r[b] == s[b'];
    }
    forall a | 0 <= a < |r|
      ensures 1 <= r[a].id < db.nextStudentId
      ensures forall k :: 0 <= k < |r[a].qualifications| ==>
        r[a].qualifications[k].ownerId == r[a].id && 1 <= r[a].qualifications[k].id < db.nextQualificationId
    {
      assert r[a] == s[if a < i then a else a + 1];
    }
  }

  /** No row of these students belongs to `owner`. */
  predicate NoRowOwnedBy(students: seq<Student>, owner: int) {
    forall k, m :: 0 <= k < |students| && 0 <= m < |students[k].qualifications| ==>
      students[k].qualifications[m].ownerId != owner
  }

  /** In a valid store the rows around the student at `i` belong to others,
      and its own rows belong to it. */
  lemma RowsAround(db: Store, i: int)
    requires Valid(db) && 0 <= i < |db.students|
    ensures NoRowOwnedBy(db.students[..i], db.students[i].id)
    ensures NoRowOwnedBy(db.students[i + 1..], db.students[i].id)
    ensures forall m :: 0 <= m < |db.students[i].qualifications| ==>
      db.students[i].qualifications[m].ownerId == db.students[i].id
  {
    var s := db.students;
    var after := s[i + 1..];
    forall k, m | 0 <= k < |after| && 0 <= m < |after[k].qualifications|
      ensures after[k].qualifications[m].ownerId != s[i].id
    {
      assert after[k] == s[i + 1 + k];
    }
  }

  /** Cascade delete: the Qualifications table loses exactly the rows owned
      by the deleted student. */
  lemma DeleteCascades(db: Store, id: int)
    requires Valid(db)
    ensures QualificationRows(Delete(db, id).students) == WithoutOwner(QualificationRows(db.students), id)
  {
    var f := FirstWhere(db.students, (t: Student) => t.id == id);
    if f.None? {
      NobodyOwns(db, id);
      RowsOfOthers(db.students, id);
    } else {
      CascadeAt(db, f.value);
    }
  }

  /** With no student holding key `id`, no row belongs to `id`. */
  lemma NobodyOwns(db: Store, id: int)
    requires Valid(db)
    requires forall k :: 0 <= k < |db.students| ==> db.students[k].id != id
    ensures NoRowOwnedBy(db.students, id)
  {
  }

  /** Removing the student at `i` removes exactly the rows it owns. */
  lemma CascadeAt(db: Store, i: int)
    requires Valid(db) && 0 <= i < |db.students|
    ensures var s := db.students;
      QualificationRows(s[..i] + s[i + 1..]) == WithoutOwner(QualificationRows(s), s[i].id)
  {
    var s := db.students;
    var id := s[i].id;
    RowsAround(db, i);
    var before, after := s[..i], s[i + 1..];
    RowsOfOthers(before, id);
    RowsOfOthers(after, id);
    OwnRowsDropped(s[i].qualifications, id);
    CascadeSplice(before, s[i], after, id);
    assert s == before + [s[i]] + after;
  }

  /** Deleting `x` from between `before` and `after` drops exactly its rows
      when those are the only rows of `owner`. */
  lemma CascadeSplice(before: seq<Student>, x: Student, after: seq<Student>, owner: int)
    requires WithoutOwner(QualificationRows(before), owner) == QualificationRows(before)
    requires WithoutOwner(QualificationRows(after), owner) == QualificationRows(after)
    requires WithoutOwner(x.qualifications, owner) == []
    ensures QualificationRows(before + after) == WithoutOwner(QualificationRows(before + [x] + after), owner)
  {
    RowsAround3(before, x, after);
    RowsAppend(before, after);
    FilterSplice(QualificationRows(before), x.qualifications, QualificationRows(after), owner);
  }

  lemma RowsAround3(before: seq<Student>, x: Student, after: seq<Student>)
    ensures QualificationRows(before + [x] + after)
      == QualificationRows(before) + x.qualifications + QualificationRows(after)
  {
    RowsAppend(before + [x], after);
    RowsAppend(before, [x]);
    assert QualificationRows([x]) == x.qualifications by {
      assert [x][1..] == [];
      assert x.qualifications + [] == x.qualifications;
    }
  }

  lemma FilterSplice(b: seq<Qualification>, q: seq<Qualification>, a: seq<Qualification>, owner: int)
    requires WithoutOwner(b, owner) == b && WithoutOwner(a, owner) == a
    requires WithoutOwner(q, owner) == []
    ensures WithoutOwner(b + q + a, owner) == b + a
  {
    WithoutOwnerAppend(b + q, a, owner);
    WithoutOwnerAppend(b, q, owner);
    assert b + [] == b;
  }

  lemma {:induction false} RowsAppend(a: seq<Student>, b: seq<Student>)
    ensures QualificationRows(a + b) == QualificationRows(a) + QualificationRows(b)
    decreases |a|
  {
    if |a| > 0 {
      assert (a + b)[1..] == a[1..] + b;
      RowsAppend(a[1..], b);
      assert QualificationRows(a + b) == a[0].qualifications + QualificationRows(a[1..] + b);
      assert QualificationRows(a) == a[0].qualifications + QualificationRows(a[1..]);
    } else {
      assert a + b == b;
    }
  }

  lemma {:induction false} WithoutOwnerAppend(x: seq<Qualification>, y: seq<Qualification>, owner: int)
    ensures WithoutOwner(x + y, owner) == WithoutOwner(x, owner) + WithoutOwner(y, owner)
    decreases |x|
  {
    if |x| > 0 {
      assert (x + y)[1..] == x[1..] + y;
      WithoutOwnerAppend(x[1..], y, owner);
      var head := if x[0].ownerId == owner then [] else [x[0]];
      assert WithoutOwner(x + y, owner) == head + WithoutOwner(x[1..] + y, owner);
      assert WithoutOwner(x, owner) == head + WithoutOwner(x[1..], owner);
    } else {
      assert x + y == y;
    }
  }

  /** Rows owned by the deleted student all go. */
  lemma {:induction false} OwnRowsDropped(rows: seq<Qualification>, owner: int)
    requires forall k :: 0 <= k < |rows| ==> rows[k].ownerId == owner
    ensures WithoutOwner(rows, owner) == []
    decreases |rows|
  {
    if |rows| > 0 {
      OwnRowsDropped(rows[1..], owner);
    }
  }

  /** Rows of other students all stay. */
  lemma {:induction false} RowsOfOthers(students: seq<Student>, owner: int)
    requires NoRowOwnedBy(students, owner)
    ensures WithoutOwner(QualificationRows(students), owner) == QualificationRows(students)
    decreases |students|
  {
    if |students| > 0 {
      var head := students[0].qualifications;
      var tail := students[1..];
      assert NoRowOwnedBy(tail, owner) by {
        forall k, m | 0 <= k < |tail| && 0 <= m < |tail[k].qualifications|
          ensures tail[k].qualifications[m].ownerId != owner
        {
          assert tail[k] == students[k + 1];
        }
      }
      RowsOfOthers(students[1..], owner);
      WithoutOwnerAppend(head, QualificationRows(students[1..]), owner);
      assert forall m :: 0 <= m < |head| ==> head[m].ownerId != owner;
      OthersRowsKept(head, owner);
    }
  }

  lemma {:induction false} OthersRowsKept(rows: seq<Qualification>, owner: int)
    requires forall k :: 0 <= k < |rows| ==> rows[k].ownerId != owner
    ensures WithoutOwner(rows, owner) == rows
    decreases |rows|
  {
    if |rows| > 0 {
      OthersRowsKept(rows[1..], owner);
      assert rows == [rows[0]] + rows[1..];
    }
  }
}
