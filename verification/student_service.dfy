/** `StudentService`: registration, login and the profile commands on top of
    the repository. Password hashing is a parameter: the scheme is described
    only by the two properties the service relies on. */
module StudentService {
  import opened Results
  import opened Models
  import opened DbContext
  import opened Repository
  import opened Numbers
  import opened StudentIds

  /** A password-hashing scheme: `hash(password, salt)` makes the stored hash
      (BCrypt draws the salt at random), `verify(password, hash)` checks a
      password against a stored hash. */
  datatype Hasher = Hasher(hash: (string, string) -> string, verify: (string, string) -> bool)

  /** A hash made from a password verifies that password. */
  ghost predicate Sound(h: Hasher) {
    forall password, salt :: h.verify(password, h.hash(password, salt))
  }

  /** A hash verifies no other password than the one it was made from. */
  ghost predicate Binding(h: Hasher) {
    forall password, other, salt :: h.verify(other, h.hash(password, salt)) ==> other == password
  }

  /** `LoginAsync`: the student with that username, if the password verifies
      against its stored hash. */
  function Login(db: Store, username: string, password: string, h: Hasher): (r: Option<Student>)
    ensures r.Some? ==> r.value in db.students && r.value.username == username
    ensures r.Some? ==> h.verify(password, r.value.passwordHash)
  {
    match GetByUsername(db, username)
    case Some(s) => if h.verify(password, s.passwordHash) then Some(s) else None
    case None => None
  }

  /** In a valid store a login succeeds exactly for a stored student with
      that username whose hash the password verifies. */
  lemma LoginExact(db: Store, username: string, password: string, h: Hasher, s: Student)
    requires Valid(db)
    ensures Login(db, username, password, h) == Some(s) <==>
      s in db.students && s.username == username && h.verify(password, s.passwordHash)
  {
    GetByUsernameExact(db, username, s);
  }

  /** `IsUsernameOrEmailAvailableAsync`: neither the username nor the email
      is in use. */
  function IsUsernameOrEmailAvailable(db: Store, username: string, email: string): (r: bool)
    ensures r <==> forall i :: 0 <= i < |db.students| ==>
      db.students[i].username != username && db.students[i].email != email
  {
    !Exists(db, username, email)
  }

  /** `RegisterAsync` in calendar year `year`, with the salt the hash draws.
      A taken username or email refuses the registration and leaves the store
      alone; otherwise the student is inserted with the next "STU-"
      identifier and the hash of the password. The answer says whether a
      student was created. An error would be the insert's exception, which
      the service does not catch. */
  function Register(db: Store, s: Student, password: string, year: int, salt: string, h: Hasher)
    : (r: Result<(bool, Store), DbError>)
    requires Unkeyed(s) && IsYear(year)
    ensures r.Ok?
    ensures r.value.0 <==> IsUsernameOrEmailAvailable(db, s.username, s.email)
    ensures !r.value.0 ==> r.value.1 == db
  {
    if Exists(db, s.username, s.email) then Ok((false, db))
    else
      var registered := s.(publicId := GenerateStudentId(GetLatestStudentId(db), year),
                           passwordHash := h.hash(password, salt));
      match Add(db, registered)
      case Ok(db') => Ok((true, db'))
      case Err(e) => Err(e)
  }

  /** The student a successful registration appends. */
  function Registered(db: Store, s: Student, password: string, year: int, salt: string, h: Hasher): Student
    requires IsYear(year)
  {
    Inserted(db, s.(publicId := GenerateStudentId(GetLatestStudentId(db), year),
                    passwordHash := h.hash(password, salt))).0
  }

  /** A successful registration appends one student, under the next key,
      with the entered profile, the allocated identifier and the password's
      hash; nothing before it changes. */
  lemma RegisterAppends(db: Store, s: Student, password: string, year: int, salt: string, h: Hasher)
    requires Unkeyed(s) && IsYear(year)
    requires IsUsernameOrEmailAvailable(db, s.username, s.email)
    ensures var db' := Register(db, s, password, year, salt, h).value.1;
      var t := Registered(db, s, password, year, salt, h);
      && db'.students == db.students + [t]
      && t.id == db.nextStudentId
      && t.publicId == GenerateStudentId(GetLatestStudentId(db), year)
      && t == s.(id := t.id, publicId := t.publicId, passwordHash := t.passwordHash,
                 qualifications := t.qualifications)
      && t.passwordHash == h.hash(password, salt)
      && |t.qualifications| == |s.qualifications|
      && forall k :: 0 <= k < |t.qualifications| ==>
        SameDetails(t.qualifications[k], s.qualifications[k]) && t.qualifications[k].ownerId == t.id
  {
    InsertedFields(db, s.(publicId := GenerateStudentId(GetLatestStudentId(db), year),
                          passwordHash := h.hash(password, salt)));
  }

  /** Registration keeps the store valid. */
  lemma RegisterKeepsValid(db: Store, s: Student, password: string, year: int, salt: string, h: Hasher)
    requires Valid(db) && Unkeyed(s) && IsYear(year)
    ensures Valid(Register(db, s, password, year, salt, h).value.1)
  {
    if !Exists(db, s.username, s.email) {
      AddKeepsValid(db, s.(publicId := GenerateStudentId(GetLatestStudentId(db), year),
                           passwordHash := h.hash(password, salt)));
    }
  }

  /** With a sound hash, a student can log in right after registering with
      the password given at registration. */
  lemma RegisterThenLogin(db: Store, s: Student, password: string, year: int, salt: string, h: Hasher)
    requires Valid(db) && Unkeyed(s) && IsYear(year) && Sound(h)
    requires IsUsernameOrEmailAvailable(db, s.username, s.email)
    ensures var db' := Register(db, s, password, year, salt, h).value.1;
      Login(db', s.username, password, h) == Some(Registered(db, s, password, year, salt, h))
  {
    var db' := Register(db, s, password, year, salt, h).value.1;
    var t := Registered(db, s, password, year, salt, h);
    RegisterAppends(db, s, password, year, salt, h);
    RegisterKeepsValid(db, s, password, year, salt, h);
    assert db'.students[|db.students|] == t;
    assert h.verify(password, h.hash(password, salt));
    LoginExact(db', s.username, password, h, t);
  }

  /** With a binding hash, no other password logs the new student in. */
  lemma OtherPasswordRefused(db: Store, s: Student, password: string, other: string, year: int, salt: string, h: Hasher)
    requires Valid(db) && Unkeyed(s) && IsYear(year) && Binding(h)
    requires IsUsernameOrEmailAvailable(db, s.username, s.email)
    requires other != password
    ensures var db' := Register(db, s, password, year, salt, h).value.1;
      Login(db', s.username, other, h) == None
  {
    var db' := Register(db, s, password, year, salt, h).value.1;
    var t := Registered(db, s, password, year, salt, h);
    RegisterAppends(db, s, password, year, salt, h);
    RegisterKeepsValid(db, s, password, year, salt, h);
    assert db'.students[|db.students|] == t;
    GetByUsernameExact(db', s.username, t);
    assert GetByUsername(db', s.username) == Some(t);
    assert !h.verify(other, h.hash(password, salt));
  }

  /** Two registrations in a row receive consecutive sequence numbers: the
      second one's identifier follows from the first one's. */
  lemma RegistrationsConsecutive(db: Store, s: Student, password: string, year: int, salt: string, h: Hasher)
    requires Valid(db) && Unkeyed(s) && IsYear(year)
    requires IsUsernameOrEmailAvailable(db, s.username, s.email)
    requires 0 <= NextSequence(GetLatestStudentId(db)) < Numbers.MaxInt32
    ensures var db' := Register(db, s, password, year, salt, h).value.1;
      NextSequence(GetLatestStudentId(db')) == NextSequence(GetLatestStudentId(db)) + 1
  {
    var db' := Register(db, s, password, year, salt, h).value.1;
    RegisterAppends(db, s, password, year, salt, h);
    assert GetLatestStudentId(db') == GenerateStudentId(GetLatestStudentId(db), year);
    ConsecutiveAllocations(GetLatestStudentId(db), year, year);
  }

  // ------------------------------------------------ public identifiers

  /** The "STU-" identifiers are unique because the allocator makes them so:
      every identifier in the table carries a sequence number the allocator
      reads back, and these numbers rise strictly in key order. */
  predicate SequencesIncreasing(students: seq<Student>) {
    && (forall i :: 0 <= i < |students| ==> LastSequence(students[i].publicId).Some?)
    && (forall i, j :: 0 <= i < j < |students| ==>
          LastSequence(students[i].publicId).value < LastSequence(students[j].publicId).value)
  }

  /** Rising sequence numbers make the identifiers pairwise distinct. */
  lemma SequencesDistinct(students: seq<Student>)
    requires SequencesIncreasing(students)
    ensures forall i, j :: 0 <= i < j < |students| ==> students[i].publicId != students[j].publicId
  {
  }

  /** Appending a row whose sequence number exceeds the last one keeps the
      numbers rising. */
  lemma AppendKeepsSequences(students: seq<Student>, t: Student, v: int)
    requires SequencesIncreasing(students)
    requires LastSequence(t.publicId) == Some(v)
    requires |students| > 0 ==> LastSequence(students[|students| - 1].publicId).value < v
    ensures SequencesIncreasing(students + [t])
  {
    var r := students + [t];
    var n := |students|;
    forall i | 0 <= i < n ensures r[i] == students[i] && LastSequence(students[i].publicId).value < v {
      if i < n - 1 {
        assert LastSequence(students[i].publicId).value < LastSequence(students[n - 1].publicId).value;
      }
    }
  }

  /** Without wrap-around the next sequence number is one past a
      recognised previous one. */
  lemma NextAfterLast(latestId: string)
    requires LastSequence(latestId).Some?
    requires NextSequence(latestId) >= 0
    ensures NextSequence(latestId) == LastSequence(latestId).value + 1
  {
  }

  /** A registration keeps the sequence numbers rising, as long as the
      allocator does not wrap past `int.MaxValue`. */
  lemma RegisterKeepsSequences(db: Store, s: Student, password: string, year: int, salt: string, h: Hasher)
    requires Unkeyed(s) && IsYear(year)
    requires SequencesIncreasing(db.students)
    requires NextSequence(GetLatestStudentId(db)) >= 0
    ensures SequencesIncreasing(Register(db, s, password, year, salt, h).value.1.students)
  {
    if IsUsernameOrEmailAvailable(db, s.username, s.email) {
      var latest := GetLatestStudentId(db);
      var t := Registered(db, s, password, year, salt, h);
      RegisterAppends(db, s, password, year, salt, h);
      AllocationRoundTrip(latest, year);
      if |db.students| > 0 {
        NextAfterLast(latest);
      }
      AppendKeepsSequences(db.students, t, NextSequence(latest));
    }
  }

  /** Replacing a row by one with the same identifier keeps the numbers
      rising. */
  lemma ReplaceKeepsSequences(students: seq<Student>, i: int, u: Student)
    requires SequencesIncreasing(students)
    requires 0 <= i < |students| && u.publicId == students[i].publicId
    ensures SequencesIncreasing(students[i := u])
  {
    var r := students[i := u];
    forall a | 0 <= a < |r| ensures r[a].publicId == students[a].publicId {
    }
  }

  /** A deletion keeps the sequence numbers rising: it only takes a row out. */
  lemma DeleteKeepsSequences(db: Store, id: int)
    requires SequencesIncreasing(db.students)
    ensures SequencesIncreasing(DeleteStudent(db, id).1.students)
  {
    var f := FirstWhere(db.students, (t: Student) => t.id == id);
    if f.Some? {
      var i := f.value;
      var s := db.students;
      var r := s[..i] + s[i + 1..];
      assert DeleteStudent(db, id).1.students == r;
      forall a | 0 <= a < |r| ensures r[a] == s[if a < i then a else a + 1] {
      }
    }
  }

  /** `UpdateStudentAsync`: whether the update went through; a failed update
      leaves the store as it was. */
  function UpdateStudent(db: Store, s: Student): (r: (bool, Store))
    ensures r.0 <==> Update(db, s).Ok?
    ensures r.0 ==> r.1 == Update(db, s).value
    ensures !r.0 ==> r.1 == db
  {
    match Update(db, s)
    case Ok(db') => (true, db')
    case Err(_) => (false, db)
  }

  /** An update that would give a student the username or email of another
      is refused, and the store stays as it was. */
  lemma UpdateClashRefused(db: Store, s: Student, i: int)
    requires Valid(db)
    requires 0 <= i < |db.students| && db.students[i].id == s.id && s.id != Unsaved
    requires ClashesWithOthers(db.students, i, s)
    ensures UpdateStudent(db, s) == (false, db)
  {
    UpdateFailure(db, s, i);
  }

  /** Updating keeps the store valid, whether or not it succeeds. */
  lemma UpdateStudentKeepsValid(db: Store, s: Student)
    requires Valid(db)
    ensures Valid(UpdateStudent(db, s).1)
  {
    if Update(db, s).Ok? {
      UpdateKeepsValid(db, s);
    }
  }

  /** `DeleteStudentAsync`: deleting never fails, not even for a key that is
      not there. */
  function DeleteStudent(db: Store, id: int): (r: (bool, Store))
    ensures r.0
    ensures r.1.nextStudentId == db.nextStudentId
  {
    (true, Delete(db, id))
  }

  /** Deleting removes exactly the student with that key and keeps the store
      valid. */
  lemma DeleteStudentExact(db: Store, id: int)
    requires Valid(db)
    ensures forall s :: s in DeleteStudent(db, id).1.students <==> s in db.students && s.id != id
    ensures Valid(DeleteStudent(db, id).1)
  {
    DeleteExact(db, id);
    DeleteKeepsValid(db, id);
  }
}
