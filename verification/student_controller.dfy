/** `StudentController`: the paged student list and the two `Edit` actions,
    with the view models they exchange. The identity of the signed-in user is
    a parameter: the value of its NameIdentifier claim, which sign-in sets to
    the decimal text of the student's key, or `None` when there is none. */
module StudentController {
  import opened Results
  import opened Numbers
  import opened Models
  import opened DbContext
  import opened Repository
  import opened StudentService

  // --------------------------------------------------------------- Index

  /** Students per page of the list. */
  const PageSize: int := 15

  /** `(int)Math.Ceiling(totalCount / (double)pageSize)`: the number of pages
      `n` students fill. */
  function TotalPages(n: nat): (t: nat)
    ensures n == 0 ==> t == 0
    ensures n > 0 ==> (t - 1) * PageSize < n <= t * PageSize
  {
    (n + PageSize - 1) / PageSize
  }

  /** `StudentPagedViewModel`. */
  datatype PagedView = PagedView(
    students: seq<Student>,
    currentPage: int,
    pageSize: int,
    totalItems: int,
    totalPages: int)
  {
    predicate HasPreviousPage() {
      currentPage > 1
    }

    predicate HasNextPage() {
      currentPage < totalPages
    }
  }

  /** `Index(page)`: the requested page of the newest-first list. */
  function Index(db: Store, page: int): (v: PagedView)
    ensures v.currentPage == page && v.pageSize == PageSize
    ensures v.totalItems == |db.students|
    ensures |v.students| <= PageSize
  {
    var p := GetPaged(db, page, PageSize);
    PagedView(p.items, page, PageSize, p.totalCount, TotalPages(|db.students|))
  }

  /** The first page has no previous page, and a later one has. */
  lemma PreviousPageExact(db: Store, page: int)
    ensures Index(db, page).HasPreviousPage() <==> page >= 2
  {
  }

  /** With no students there is no next page from any page. */
  lemma EmptyStoreNoNextPage(db: Store, page: int)
    requires |db.students| == 0 && page >= 1
    ensures !Index(db, page).HasNextPage()
    ensures Index(db, page).students == []
  {
  }

  /** The last page has no next page. */
  lemma LastPageNoNextPage(db: Store)
    requires |db.students| > 0
    ensures !Index(db, TotalPages(|db.students|)).HasNextPage()
  {
  }

  /** A page offers a next page exactly when that page has students on it. */
  lemma NextPageExact(db: Store, page: int)
    requires page >= 1
    ensures Index(db, page).HasNextPage() <==> |Index(db, page + 1).students| > 0
  {
    var n := |db.students|;
    var t := TotalPages(n);
    PageWindow(db, page + 1, PageSize);
    assert PageOffset(page + 1, PageSize) == page * PageSize;
    if page < t {
      assert page * PageSize <= (t - 1) * PageSize;
    }
  }

  /** Every student appears on exactly one page: on page `k / 15 + 1`, at
      position `k % 15`, where `k` is its place in the newest-first list. */
  lemma EveryStudentOnItsPage(db: Store, k: int)
    requires 0 <= k < |db.students|
    ensures var page := k / PageSize + 1;
      && 1 <= page <= TotalPages(|db.students|)
      && k % PageSize < |Index(db, page).students|
      && Index(db, page).students[k % PageSize] == GetAll(db)[k]
  {
    var page := k / PageSize + 1;
    PageWindow(db, page, PageSize);
    assert PageOffset(page, PageSize) + k % PageSize == k;
  }

  // ---------------------------------------------------------------- Edit

  /** `QualificationViewModel`: the fields of a qualification the form shows. */
  datatype QualificationEntry = QualificationEntry(
    courseName: string,
    university: string,
    yearOfPassing: int,
    percentage: Decimal)

  /** `StudentUpdateViewModel`. A posted form may carry no qualification list
      at all (`None`). */
  datatype EditForm = EditForm(
    id: int,
    publicId: string,
    firstName: string,
    lastName: string,
    age: int,
    dob: Date,
    gender: string,
    email: string,
    phoneNumber: string,
    username: string,
    qualifications: Option<seq<QualificationEntry>>)

  /** What an `Edit` action answers. `ShowForm` re-renders the form; its flag
      says whether the "error occurred while updating" message was added. */
  datatype EditResult =
    | Forbid
    | NotFound
    | ShowForm(form: EditForm, errorAdded: bool)
    | RedirectToIndex

  /** The caller may edit the student with key `id`: its claim is the
      decimal text of `id`. */
  predicate MayEdit(caller: Option<string>, id: int) {
    caller == Some(FormatD(id, 0))
  }

  /** The form `Edit` GET fills in from a stored student. */
  function FormOf(s: Student): (f: EditForm)
    ensures f.qualifications.Some? && |f.qualifications.value| == |s.qualifications|
  {
    EditForm(s.id, s.publicId, s.firstName, s.lastName, s.age, s.dob, s.gender, s.email,
      s.phoneNumber, s.username,
      Some(seq(|s.qualifications|, (k: int) requires 0 <= k < |s.qualifications| =>
        QualificationEntry(s.qualifications[k].courseName, s.qualifications[k].university,
          s.qualifications[k].yearOfPassing, s.qualifications[k].percentage))))
  }

  /** `Edit(id)` GET: only the student itself may open its form. */
  function EditGet(db: Store, caller: Option<string>, id: int): (r: EditResult)
    ensures r.ShowForm? ==> MayEdit(caller, id) && !r.errorAdded
    ensures r.ShowForm? ==> exists k :: 0 <= k < |db.students| && db.students[k].id == id && r.form == FormOf(db.students[k])
    ensures r == NotFound ==> forall k :: 0 <= k < |db.students| ==> db.students[k].id != id
    ensures !MayEdit(caller, id) ==> r == Forbid
    ensures MayEdit(caller, id) && (exists k :: 0 <= k < |db.students| && db.students[k].id == id) ==> r.ShowForm?
    ensures MayEdit(caller, id) && (forall k :: 0 <= k < |db.students| ==> db.students[k].id != id) ==> r == NotFound
  {
    if !MayEdit(caller, id) then Forbid
    else match GetById(db, id)
      case None => NotFound
      case Some(s) => ShowForm(FormOf(s), false)
  }

  /** The guard admits a signed-in student to its own form and to no other. */
  lemma EditGuardOwnKey(db: Store, callerKey: int, id: int)
    ensures EditGet(db, Some(FormatD(callerKey, 0)), id) != Forbid <==> callerKey == id
  {
    if FormatD(callerKey, 0) == FormatD(id, 0) {
      FormatInjective(callerKey, id);
    }
  }

  /** The qualification rows a posted list becomes: new rows, in the posted
      order, owned by `owner`; no list means no rows. */
  function NewRows(entries: Option<seq<QualificationEntry>>, owner: int): (rows: seq<Qualification>)
    ensures entries.None? ==> rows == []
    ensures entries.Some? ==> |rows| == |entries.value|
  {
    match entries
    case None => []
    case Some(es) =>
      seq(|es|, (k: int) requires 0 <= k < |es| =>
        Qualification(Unsaved, owner, es[k].courseName, es[k].university, es[k].yearOfPassing, es[k].percentage))
  }

  /** The student after the form's fields are copied onto it; its
      qualifications are replaced by the posted ones. */
  function Edited(s: Student, form: EditForm): (t: Student)
    ensures t.id == s.id && t.publicId == s.publicId && t.passwordHash == s.passwordHash
  {
    s.(firstName := form.firstName, lastName := form.lastName, age := form.age, dob := form.dob,
       gender := form.gender, email := form.email, phoneNumber := form.phoneNumber,
       username := form.username, qualifications := NewRows(form.qualifications, s.id))
  }

  /** `Edit(model)` POST, with `modelValid` the outcome of model validation.
      Returns the answer and the store afterwards. */
  function EditPost(db: Store, caller: Option<string>, modelValid: bool, form: EditForm): (r: (EditResult, Store))
    ensures r.0 != RedirectToIndex ==> r.1 == db
    ensures !MayEdit(caller, form.id) ==> r.0 == Forbid
    ensures MayEdit(caller, form.id) && !modelValid ==> r.0 == ShowForm(form, false)
    ensures r.0 == RedirectToIndex ==> MayEdit(caller, form.id) && modelValid
  {
    if !MayEdit(caller, form.id) then (Forbid, db)
    else if !modelValid then (ShowForm(form, false), db)
    else match GetById(db, form.id)
      case None => (NotFound, db)
      case Some(s) =>
        var outcome := UpdateStudent(db, Edited(s, form));
        if outcome.0 then (RedirectToIndex, outcome.1) else (ShowForm(form, true), db)
  }

  /** Posting for a key no student holds answers NotFound and changes nothing. */
  lemma EditPostMissing(db: Store, caller: Option<string>, form: EditForm)
    requires MayEdit(caller, form.id)
    requires forall k :: 0 <= k < |db.students| ==> db.students[k].id != form.id
    ensures EditPost(db, caller, true, form) == (NotFound, db)
  {
  }

  /** In a valid store, a permitted and valid post for the student at `i`
      succeeds unless another student has the posted username or email, or a
      posted text is wider than its column; then the form comes back with the
      error and nothing changes. */
  lemma EditPostOutcome(db: Store, caller: Option<string>, form: EditForm, i: int)
    requires Valid(db) && MayEdit(caller, form.id)
    requires 0 <= i < |db.students| && db.students[i].id == form.id
    ensures var r := EditPost(db, caller, true, form);
      && (r.0 == RedirectToIndex <==>
          !ClashesWithOthers(db.students, i, Edited(db.students[i], form)) && FitsColumns(Edited(db.students[i], form)))
      && (r.0 != RedirectToIndex ==> r == (ShowForm(form, true), db))
  {
    var s := db.students[i];
    GetByIdExact(db, form.id, s);
    UpdateFailure(db, Edited(s, form), i);
  }

  /** After a successful post the student holds the posted profile, keeps its
      key, "STU-" identifier and password hash, and owns exactly the posted
      qualifications, in order, as new rows under fresh keys: none of its
      previous rows remains. Every other student is as before. */
  lemma EditPostStores(db: Store, caller: Option<string>, form: EditForm, i: int)
    requires Valid(db)
    requires 0 <= i < |db.students| && db.students[i].id == form.id
    requires EditPost(db, caller, true, form).0 == RedirectToIndex
    ensures var after := EditPost(db, caller, true, form).1.students;
      var s, t := db.students[i], after[i];
      && |after| == |db.students|
      && (forall k :: 0 <= k < |after| && k != i ==> after[k] == db.students[k])
      && t.id == s.id && t.publicId == s.publicId && t.passwordHash == s.passwordHash
      && t.firstName == form.firstName && t.lastName == form.lastName && t.age == form.age
      && t.dob == form.dob && t.gender == form.gender && t.email == form.email
      && t.phoneNumber == form.phoneNumber && t.username == form.username
      && |t.qualifications| == (if form.qualifications.None? then 0 else |form.qualifications.value|)
      && forall k :: 0 <= k < |t.qualifications| ==>
        && t.qualifications[k].ownerId == s.id && SameEntry(t.qualifications[k], form.qualifications.value[k])
        && t.qualifications[k].id >= db.nextQualificationId && t.qualifications[k] !in s.qualifications
  {
    var s := db.students[i];
    var e := Edited(s, form);
    assert forall k :: 0 <= k < |e.qualifications| ==> e.qualifications[k].id == Unsaved;
    GetByIdExact(db, form.id, s);
    var f := FirstWhere(db.students, (u: Student) => u.id == e.id);
    assert f == Some(i);
    var after := EditPost(db, caller, true, form).1.students;
    assert after == db.students[i := Stored(db, e).0];
  }

  /** A stored row carries the entry's fields. */
  predicate SameEntry(q: Qualification, e: QualificationEntry) {
    && q.courseName == e.courseName
    && q.university == e.university
    && q.yearOfPassing == e.yearOfPassing
    && q.percentage == e.percentage
  }

  /** No Edit POST disturbs the rising sequence numbers of the "STU-"
      identifiers: the edited student keeps its identifier. */
  lemma EditPostKeepsSequences(db: Store, caller: Option<string>, modelValid: bool, form: EditForm)
    requires Valid(db) && SequencesIncreasing(db.students)
    ensures SequencesIncreasing(EditPost(db, caller, modelValid, form).1.students)
  {
    if MayEdit(caller, form.id) && modelValid {
      match GetById(db, form.id)
      case None =>
      case Some(s) =>
        var e := Edited(s, form);
        if Update(db, e).Ok? {
          var i :| 0 <= i < |db.students| && db.students[i].id == e.id
            && Update(db, e).value.students == db.students[i := Stored(db, e).0];
          GetByIdExact(db, form.id, db.students[i]);
          ReplaceKeepsSequences(db.students, i, Stored(db, e).0);
        }
    }
  }

  /** Every Edit POST keeps the store valid. */
  lemma EditPostKeepsValid(db: Store, caller: Option<string>, modelValid: bool, form: EditForm)
    requires Valid(db)
    ensures Valid(EditPost(db, caller, modelValid, form).1)
  {
    if MayEdit(caller, form.id) && modelValid {
      match GetById(db, form.id)
      case None =>
      case Some(s) => UpdateStudentKeepsValid(db, Edited(s, form));
    }
  }
}
