/** The database `SMSDbContext` maps: the Students table, whose rows own the
    rows of the Qualifications table, the keys the database assigns, and the
    constraints `OnModelCreating` declares. */
module DbContext {
  import opened Models

  /** The Students table in key order. Keys come from auto-increment
      counters: `nextStudentId` and `nextQualificationId` are the keys the
      next inserted rows receive. Each student carries the rows of the
      Qualifications table that belong to it. */
  datatype Store = Store(students: seq<Student>, nextStudentId: int, nextQualificationId: int)

  /** Failures `SaveChanges` reports by throwing. */
  datatype DbError =
    | DuplicateKey  // a unique index would be violated
    | Concurrency   // an UPDATE of a row that is not there
    | DataTooLong   // a text longer than its column (MySQL in strict mode)

  /** The widths of the text columns, from the `[StringLength]` attributes
      of the entity classes. Entity Framework does not check them when it
      saves; the database refuses a longer value. */
  predicate FitsColumns(s: Student) {
    && |s.publicId| <= 20 && |s.firstName| <= 50 && |s.lastName| <= 50
    && |s.gender| <= 10 && |s.email| <= 100 && |s.phoneNumber| <= 15 && |s.username| <= 50
    && forall k :: 0 <= k < |s.qualifications| ==>
      |s.qualifications[k].courseName| <= 100 && |s.qualifications[k].university| <= 100
  }

  /** A fresh database: no rows, both counters at 1. */
  const EmptyStore: Store := Store([], 1, 1)

  /** `HasIndex(s => s.Username).IsUnique()`. */
  predicate UniqueUsernames(students: seq<Student>) {
    forall i, j :: 0 <= i < j < |students| ==> students[i].username != students[j].username
  }

  /** `HasIndex(s => s.Email).IsUnique()`. */
  predicate UniqueEmails(students: seq<Student>) {
    forall i, j :: 0 <= i < j < |students| ==> students[i].email != students[j].email
  }

  /** Auto-increment keys: positive, below the counter, and increasing in
      insertion order. */
  predicate KeysAscending(students: seq<Student>, next: int) {
    && (forall i :: 0 <= i < |students| ==> 1 <= students[i].id < next)
    && (forall i, j :: 0 <= i < j < |students| ==> students[i].id < students[j].id)
  }

  /** Every qualification row points at the student that holds it (the
      `HasOne(q => q.Student).WithMany(s => s.Qualifications)` relationship)
      and carries a key the counter has already handed out. */
  predicate QualificationsOwned(students: seq<Student>, next: int) {
    forall i, k :: 0 <= i < |students| && 0 <= k < |students[i].qualifications| ==>
      && students[i].qualifications[k].ownerId == students[i].id
      && 1 <= students[i].qualifications[k].id < next
  }

  /** The constraints every committed state satisfies; both counters start
      at 1 and only grow. */
  predicate Valid(db: Store) {
    && 1 <= db.nextStudentId
    && 1 <= db.nextQualificationId
    && UniqueUsernames(db.students)
    && UniqueEmails(db.students)
    && KeysAscending(db.students, db.nextStudentId)
    && QualificationsOwned(db.students, db.nextQualificationId)
  }

  /** The Qualifications table: the rows of every student, student by student. */
  function QualificationRows(students: seq<Student>): (rows: seq<Qualification>)
    ensures |students| == 0 ==> rows == []
  {
    if |students| == 0 then []
    else students[0].qualifications + QualificationRows(students[1..])
  }

  /** The table holds the rows of every student and nothing else. */
  lemma {:induction false} RowsOfStudents(students: seq<Student>)
    ensures forall i, k :: 0 <= i < |students| && 0 <= k < |students[i].qualifications| ==>
      students[i].qualifications[k] in QualificationRows(students)
    ensures forall q :: q in QualificationRows(students) ==>
      exists i :: 0 <= i < |students| && q in students[i].qualifications
    decreases |students|
  {
    if |students| > 0 {
      var tail := students[1..];
      RowsOfStudents(tail);
      assert forall i :: 1 <= i < |students| ==> students[i] == tail[i - 1];
    }
  }

  /** The rows of `rows` whose owner key is not `owner`, in order. */
  function WithoutOwner(rows: seq<Qualification>, owner: int): (r: seq<Qualification>)
    ensures |r| <= |rows|
  {
    if |rows| == 0 then []
    else (if rows[0].ownerId == owner then [] else [rows[0]]) + WithoutOwner(rows[1..], owner)
  }

  /** Filtering keeps exactly the rows of other owners. */
  lemma {:induction false} WithoutOwnerMembers(rows: seq<Qualification>, owner: int)
    ensures forall q :: q in WithoutOwner(rows, owner) <==> q in rows && q.ownerId != owner
    decreases |rows|
  {
    if |rows| > 0 {
      WithoutOwnerMembers(rows[1..], owner);
      assert rows == [rows[0]] + rows[1..];
    }
  }

  lemma EmptyStoreValid()
    ensures Valid(EmptyStore)
    ensures |QualificationRows(EmptyStore.students)| == 0
  {
  }

  /** Only Username and Email are indexed: two students may carry the same
      "STU-" identifier and the store still satisfies every constraint it
      declares. */
  lemma PublicIdNotEnforced(a: Student, b: Student)
    requires a.id == 1 && b.id == 2
    requires a.username != b.username && a.email != b.email
    requires a.qualifications == [] && b.qualifications == []
    requires a.publicId == b.publicId
    ensures Valid(Store([a, b], 3, 1))
  {
  }
}
