# Student Management System: the verified core

This project is a Dafny model of the core of a small ASP.NET student-management application.
Students register, log in, browse a paged list of all students and edit their own profile.
Each profile carries a list of academic qualifications. The model covers four layers:

- **The identifier allocator** (module `StudentIds`, built on `Strings` and `Numbers`). Each new student
  receives a public identifier "STU-<year>-<seq>". The allocator derives `<seq>` from the identifier of
  the most recently created student. It checks the "STU-" prefix and splits the identifier on '-'.
  It then reads the third piece with `int.TryParse` and adds 1 in unchecked 32-bit arithmetic.
  A previous identifier of any other shape restarts the sequence at 1. The result is rendered with
  the `D4` format. `int.TryParse`, `D`/`D4` formatting and `string.Split(char)` follow the .NET
  runtime's rules, including white space, signs and wrap-around, for a culture whose signs are '+'
  and '-'. `StartsWith` is modelled as an ordinal comparison.
- **The database** (module `DbContext`). It holds the Students table in key order, with auto-increment
  counters for both tables. Each student holds its qualification rows. The constraints are the ones the
  context declares: unique Username, unique Email, and qualification rows owned by their student with
  cascade delete.
- **The repository** (module `Repository`). Queries are pure functions of the database state. Commands
  return the new state or the error `SaveChanges` would throw. The table is kept in key order, so
  "ordered by descending key" is its reversal.
- **The service and the controller** (modules `StudentService`, `StudentController`). The service
  covers registration, login and the update and delete commands; a failed command becomes `false`.
  The controller covers the paged list with its page flags and both Edit actions, each behind the
  guard "the caller's claim is the decimal text of the target key".

Parameters stand in for everything outside the core:

- the calendar year of the clock;
- the BCrypt scheme, a `Hasher` of `hash(password, salt)` and `verify(password, hash)` together with its salt;
- the caller's NameIdentifier claim, which sign-in sets to `student.Id.ToString()`;
- the outcome of model validation.

Files:

| file | module |
|---|---|
| results.dfy | `Results`: `Option`, `Result` |
| strings.dfy | `Strings` |
| numbers.dfy | `Numbers` |
| models.dfy | `Models`: `Student`, `Qualification` |
| student_ids.dfy | `StudentIds` |
| db_context.dfy | `DbContext` |
| repository.dfy | `Repository` |
| student_service.dfy | `StudentService` |
| student_controller.dfy | `StudentController` |

## Model

| member | source | states |
|---|---|---|
| Numbers.Wrap32 | SMS.BLL/StudentService.cs:103 | The result of unchecked `int` arithmetic is a 32-bit value congruent to the exact one modulo 2^32, and is the exact value when that fits. |
| Numbers.Digits | SMS.BLL/StudentService.cs:108 | The plain decimal rendering of a natural number is a non-empty digit string denoting it, with no leading zero. |
| Numbers.DigitsLength | SMS.BLL/StudentService.cs:108 | The plain rendering of `n` has exactly as many characters as `n` has decimal digits. |
| Numbers.PadLeft | SMS.BLL/StudentService.cs:108 | Zero padding lengthens a rendering to the minimum width and never shortens it. |
| Numbers.ValueOfLeadingZeros | SMS.BLL/StudentService.cs:108 | Leading zeros do not change the value a digit string denotes. |
| Numbers.DigitsUnique | SMS.BLL/StudentService.cs:108 | A digit string without leading zero is the plain rendering of its own value, so that rendering is unique. |
| Numbers.FormatNonNegative | SMS.BLL/StudentService.cs:108 | `D4` of a non-negative number is a digit string of exactly that value, with length the larger of its digit count and 4. |
| Numbers.FormatUnpadded | SMS.BLL/StudentService.cs:108 | Numbers of 10000 and more are rendered in full, without padding and without truncation. |
| Numbers.FormatInjective | SMS.Web/Controllers/StudentController.cs:47 | `int.ToString()` is injective: two keys with the same text are the same key. |
| Numbers.FormatD | SMS.BLL/StudentService.cs:108 | `ToString("D<n>")` is never empty, never shorter than `n` characters, and starts with '-' exactly when the number is negative. |
| Numbers.TryParseInt32 | SMS.BLL/StudentService.cs:101 | `int.TryParse` succeeds only with a value in the 32-bit range. |
| Numbers.ParseWithoutMinus | SMS.BLL/StudentService.cs:101 | Text without a '-' never parses to a negative number. |
| Numbers.ParseDigits | SMS.BLL/StudentService.cs:101 | A plain digit string within range parses to the value it denotes. |
| Numbers.ParseFormat | SMS.BLL/StudentService.cs:101-108 | `int.TryParse` reads back the zero-padded rendering of every non-negative `int`. |
| Strings.StartsWith | SMS.BLL/StudentService.cs:98 | `latestId.StartsWith("STU-")` holds exactly when the text begins with those characters, compared ordinally. |
| Strings.Split | SMS.BLL/StudentService.cs:100 | `Split('-')` returns at least one piece. |
| Strings.SplitPieces | SMS.BLL/StudentService.cs:100 | No piece of a split contains the separator. |
| Strings.JoinSplit | SMS.BLL/StudentService.cs:100 | Joining the pieces of a split with the separator gives back the original text. |
| Strings.SplitJoin | SMS.BLL/StudentService.cs:100 | Splitting joined separator-free pieces gives back exactly those pieces, empty ones included. |
| Strings.SplitThree | SMS.BLL/StudentService.cs:100 | Splitting "a-b-c" with separator-free `a`, `b` gives `a`, `b` and then the pieces of `c`. |
| StudentIds.LastSequence | SMS.BLL/StudentService.cs:98-104 | A recognised previous sequence number is never negative (the third piece holds no '-') and fits in an `int`. |
| StudentIds.NextSequence | SMS.BLL/StudentService.cs:96-104 | The next sequence number is an `int`, and it is at least 1 unless the previous one was `int.MaxValue` and the addition wrapped to `int.MinValue`. |
| StudentIds.FormatStudentId | SMS.BLL/StudentService.cs:107-108 | Every identifier text starts with "STU-". |
| StudentIds.GenerateStudentId | SMS.BLL/StudentService.cs:93-109 | Every allocated identifier starts with "STU-", so the allocator recognises its own output. |
| StudentIds.FormatSpelledOut | SMS.BLL/StudentService.cs:107-108 | An identifier is "STU-", the current year, "-" and the `D4` rendering of the number. |
| StudentIds.FormatSegments | SMS.BLL/StudentService.cs:98-108 | An identifier splits into "STU", the year and the rendered number; for a non-negative number these are exactly three pieces. |
| StudentIds.FormatRoundTrip | SMS.BLL/StudentService.cs:98-108 | Reading back the identifier of a non-negative `int` yields that number: formatting and parsing are inverse. |
| StudentIds.EmptyLatestId | SMS.BLL/StudentService.cs:96-98 | With no previous identifier the sequence number is 1. |
| StudentIds.FirstIdText | SMS.BLL/StudentService.cs:107-108 | The identifier for number 1 ends in "-0001". |
| StudentIds.FirstAllocation | SMS.BLL/StudentService.cs:96-108 | On an empty table the allocator yields "STU-<year>-0001". |
| StudentIds.IncrementAllocation | SMS.BLL/StudentService.cs:98-108 | A previous identifier with the "STU-" prefix, three pieces and a third piece parsing to `n` is followed by `n + 1`, rendered after the current year. |
| StudentIds.ResetAllocation | SMS.BLL/StudentService.cs:96-105 | An empty identifier, a missing prefix, a piece count other than 3, or an unparsable or out-of-range third piece each restart the sequence at 1. Restarting at 1 happens exactly then, or after a number 0. |
| StudentIds.AllocationRoundTrip | SMS.BLL/StudentService.cs:93-109 | Reading back a freshly allocated identifier yields the sequence number written into it. |
| StudentIds.ConsecutiveAllocations | SMS.BLL/StudentService.cs:93-109 | Allocating from the previous allocation's output gives the next number, whatever the two years are. |
| StudentIds.SequenceRendering | SMS.BLL/StudentService.cs:107-108 | The sequence piece is decimal, at least four digits, denotes the sequence number, and is unpadded and untruncated from 10000 on. |
| StudentIds.WrapAroundAllocation | SMS.BLL/StudentService.cs:101-108 | After `int.MaxValue` the number wraps to `int.MinValue`. Its rendering brings its own '-', so the identifier has four pieces with an empty third, and the following allocation restarts at 1. |
| StudentIds.NegativeIdSegments | SMS.BLL/StudentService.cs:100-108 | The identifier of a negative number splits into four pieces, the third empty. |
| StudentIds.NegativeSplit | SMS.BLL/StudentService.cs:100-108 | A negative number's `D4` rendering splits at its sign into "" and the magnitude. |
| StudentIds.Id2023Seven | SMS.BLL/StudentService.cs:108 | Year 2023 and number 7 give "STU-2023-0007". |
| StudentIds.SevenThenEight | SMS.BLL/StudentService.cs:98-104 | After "STU-2023-0007" the sequence number is 8. |
| StudentIds.EightText | SMS.BLL/StudentService.cs:107-108 | Number 8 renders as "-0008" after the year. |
| StudentIds.IncrementExample | SMS.BLL/StudentService.cs:93-109 | "STU-2023-0007" is followed by "STU-<year>-0008" in any year: the year piece is the current year, not the previous one. |
| StudentIds.TooFewSegmentsExample | SMS.BLL/StudentService.cs:100-101 | "STU-2023" has only two pieces, so the next identifier restarts at 0001. |
| StudentIds.EmptyYearSegmentExample | SMS.BLL/StudentService.cs:98-104 | The year piece is not inspected: "STU--0005" carries number 5. |
| StudentIds.LenientCore | SMS.BLL/StudentService.cs:101 | `int.TryParse` reads " +41 " as 41. |
| StudentIds.LenientParseExample | SMS.BLL/StudentService.cs:101 | Because of that leniency "STU-2024- +41 " carries number 41. |
| DbContext.RowsOfStudents | SMS.DAL/SMSDbContext.cs:20-24 | The Qualifications table holds the rows of every student and no other row. |
| DbContext.WithoutOwnerMembers | SMS.DAL/SMSDbContext.cs:20-24 | Removing an owner's rows keeps exactly the rows of other owners. |
| DbContext.Valid | SMS.DAL/SMSDbContext.cs:15-34 | The unique indexes and the cascading relationship the context declares, plus the auto-increment facts. Username and Email are each unique, and every qualification row is owned by the student holding it. Students are in ascending key order, both counters are at least 1, and each counter lies above every key it has handed out. |
| DbContext.FitsColumns | SMS.Models/Student.cs:13-48 | True exactly when every text field fits its column: the `[StringLength]` widths of Student.cs and of Qualification.cs:13-19. Strict MySQL refuses an update otherwise. |
| DbContext.QualificationRows | SMS.DAL/SMSDbContext.cs:13-24 | The Qualifications table is the rows of every student, student by student; an empty Students table gives an empty table. |
| DbContext.EmptyStoreValid | SMS.DAL/SMSDbContext.cs:15-34 | A fresh database satisfies every declared constraint and has no qualification rows. |
| DbContext.PublicIdNotEnforced | SMS.DAL/SMSDbContext.cs:27-33 | Only Username and Email are indexed: two students with the same "STU-" identifier satisfy every constraint. |
| Repository.FirstWhere | SMS.DAL/StudentRepository.cs:18-30 | `FirstOrDefaultAsync` finds the first row that matches, and reports no row only when none matches. |
| Repository.GetById | SMS.DAL/StudentRepository.cs:18-23 | A found student is stored and has the key; nothing found means no student has it. |
| Repository.GetByUsername | SMS.DAL/StudentRepository.cs:25-30 | A found student is stored and has the username; nothing found means no student has it. |
| Repository.GetByIdExact | SMS.DAL/StudentRepository.cs:18-23 | In a valid store the lookup returns a student if and only if it is the stored student with that key. |
| Repository.GetByUsernameExact | SMS.DAL/StudentRepository.cs:25-30 | In a valid store the lookup returns a student if and only if it is the stored student with that username. |
| Repository.Reverse | SMS.DAL/StudentRepository.cs:36 | The reversed list holds the element from the opposite end at every position. |
| Repository.GetAll | SMS.DAL/StudentRepository.cs:32-38 | The list has one entry per student. |
| Repository.GetAllOrdered | SMS.DAL/StudentRepository.cs:32-38 | In a valid store the list holds exactly the stored students, in strictly descending key order. |
| Repository.AnyWith | SMS.DAL/StudentRepository.cs:75-78 | `ExistsAsync(u, e)` holds if and only if some student has username `u` or email `e`. |
| Repository.Exists | SMS.DAL/StudentRepository.cs:75-78 | `ExistsAsync(u, e)` holds exactly when some stored student has username `u` or email `e`. |
| Repository.GetLatestStudentId | SMS.DAL/StudentRepository.cs:80-87 | An empty table gives ""; otherwise the answer is the identifier of the last row, the one inserted most recently. |
| Repository.LatestHasHighestKey | SMS.DAL/StudentRepository.cs:80-87 | In a valid store the latest identifier belongs to the student with the highest key. |
| Repository.Skip | SMS.DAL/StudentRepository.cs:46 | `Skip(n)` drops the first `n` entries: a non-positive count drops none, a count past the end leaves none, and the rest keep their order. |
| Repository.Take | SMS.DAL/StudentRepository.cs:47 | `Take(n)` keeps the first `n` entries in order: a non-positive count keeps none, a count past the end keeps all. |
| Repository.PageOffset | SMS.DAL/StudentRepository.cs:46 | The first page skips nothing, and no page from the first on skips a negative number of students. |
| Repository.PageOffsetAsWritten | SMS.DAL/StudentRepository.cs:46 | The offset the code computes is a 32-bit value, equal to the exact `(page - 1) * size` when that fits. |
| Repository.GetPagedAsWritten | SMS.DAL/StudentRepository.cs:40-51 | The page as the code computes it reports the count of all students. |
| Repository.GetPaged | SMS.DAL/StudentRepository.cs:40-51 | The count is that of all students, whatever the page and size. |
| Repository.PageWindow | SMS.DAL/StudentRepository.cs:43-48 | For page >= 1 a page holds `min(size, max(0, N - (page-1)*size))` students: the newest-first list from position `(page-1)*size` on. |
| Repository.PastTheEnd | SMS.DAL/StudentRepository.cs:42-50 | A page past the end is empty and still reports the full count. |
| Repository.PageOrdered | SMS.DAL/StudentRepository.cs:45-47 | In a valid store every page lists students in strictly descending key order. |
| Repository.PageOffsetOverflow | SMS.DAL/StudentRepository.cs:46 | Page 286331155 of size 15 starts at 4294967310, but the 32-bit product is 14. |
| Repository.FarPageAsWritten | SMS.DAL/StudentRepository.cs:40-51 | With 15 or more students that page should be empty, but the code returns students 15 onwards of the newest-first list. |
| Repository.AssignKeys | SMS.DAL/StudentRepository.cs:53-63 | Saving points every qualification row at its student and keeps the entered fields. Rows with a key keep it; rows without one get fresh keys from the counter. |
| Repository.Add | SMS.DAL/StudentRepository.cs:53-57 | An insert fails with a unique-index violation exactly when the username or email is taken. Otherwise it appends one student under the next key and leaves the rows before it unchanged. |
| Repository.InsertedFields | SMS.DAL/StudentRepository.cs:53-57 | The inserted student differs from the submitted one only in the keys the database assigns; its qualifications keep their fields and point at it. |
| Repository.AddKeepsValid | SMS.DAL/StudentRepository.cs:53-57 | A successful insert keeps every constraint of the database. |
| Repository.Update | SMS.DAL/StudentRepository.cs:59-63 | A successful update of a keyed student replaces the row with that key. It succeeds only when no other student has its username or email and every text fits its column, and it assigns no student key. A student without a key is inserted instead. |
| Repository.UpdateFailure | SMS.DAL/StudentRepository.cs:59-63 | In a valid store, updating an existing student fails if and only if another student has its username or email, it lists a qualification key that is not one of its rows, or a text is wider than its declared column. |
| Repository.UpdateKeepsValid | SMS.DAL/StudentRepository.cs:59-63 | A successful update keeps every constraint of the database. |
| Repository.Delete | SMS.DAL/StudentRepository.cs:65-73 | A delete changes no counter, does nothing for a missing key, keeps every student with another key and adds none. |
| Repository.DeleteExact | SMS.DAL/StudentRepository.cs:65-73 | In a valid store a delete removes exactly the student with that key. |
| Repository.RemovedKeyGone | SMS.DAL/StudentRepository.cs:65-73 | In a valid store no row with the deleted key remains. |
| Repository.RemoveKeepsValid | SMS.DAL/StudentRepository.cs:65-73 | Removing one student keeps every constraint. |
| Repository.DeleteKeepsValid | SMS.DAL/StudentRepository.cs:65-73 | A delete keeps every constraint of the database. |
| Repository.CascadeAt | SMS.DAL/SMSDbContext.cs:20-24 | Removing a student removes from the Qualifications table exactly the rows it owns. |
| Repository.DeleteCascades | SMS.DAL/SMSDbContext.cs:20-24 | After a delete the Qualifications table is the old one without the rows owned by the deleted key. |
| StudentService.Login | SMS.BLL/StudentService.cs:19-27 | A login returns a stored student with that username whose hash the password verifies. |
| StudentService.LoginExact | SMS.BLL/StudentService.cs:19-27 | In a valid store a login returns a student if and only if it is stored with that username and the password verifies against its hash. |
| StudentService.IsUsernameOrEmailAvailable | SMS.BLL/StudentService.cs:62-65 | The answer is true exactly when no student has the username and none has the email. |
| StudentService.Register | SMS.BLL/StudentService.cs:29-45 | A registration never fails. It reports true exactly when username and email are both free; on false the store is unchanged. |
| StudentService.RegisterAppends | SMS.BLL/StudentService.cs:37-44 | A successful registration appends exactly one student under the next key. The student has the allocated identifier and the hash of the password. Every other entered field is kept, and each qualification keeps its fields and points at the new student. |
| StudentService.RegisterKeepsValid | SMS.BLL/StudentService.cs:29-45 | Registration keeps every constraint of the database. |
| StudentService.RegisterThenLogin | SMS.BLL/StudentService.cs:19-45 | With a hash that verifies its own password, the new student can log in at once with the registration password. |
| StudentService.OtherPasswordRefused | SMS.BLL/StudentService.cs:19-45 | With a hash that verifies only its own password, no other password logs the new student in. |
| StudentService.RegistrationsConsecutive | SMS.BLL/StudentService.cs:29-45 | Back to back, the next registration's sequence number is one more than this one's. |
| StudentService.UpdateStudent | SMS.BLL/StudentService.cs:67-78 | The answer is true exactly when the repository update succeeds. On success the store is the updated one; a failed update leaves the store as it was. |
| StudentService.UpdateClashRefused | SMS.BLL/StudentService.cs:67-78 | An update that would give a student another student's username or email answers false and changes nothing. |
| StudentService.UpdateStudentKeepsValid | SMS.BLL/StudentService.cs:67-78 | Updating keeps every constraint, whether or not it succeeds. |
| StudentService.DeleteStudent | SMS.BLL/StudentService.cs:80-91 | Deleting always answers true, even for a missing key, and leaves the key counter where it was. |
| StudentService.DeleteStudentExact | SMS.BLL/StudentService.cs:80-91 | Deleting removes exactly the student with that key and keeps every constraint. |
| StudentService.SequencesDistinct | SMS.BLL/StudentService.cs:93-109 | When the sequence numbers of the identifiers rise in key order, no two students share a "STU-" identifier. |
| StudentService.AppendKeepsSequences | SMS.BLL/StudentService.cs:37-44 | Appending a student whose identifier carries a number above the last one keeps the sequence numbers rising. |
| StudentService.NextAfterLast | SMS.BLL/StudentService.cs:98-104 | Unless the addition wraps, the next sequence number is one past the recognised previous one. |
| StudentService.RegisterKeepsSequences | SMS.BLL/StudentService.cs:29-45 | Registration keeps the sequence numbers rising in key order, provided the allocator has not wrapped past `int.MaxValue`. So the allocator, not the database, keeps the identifiers unique. |
| StudentService.ReplaceKeepsSequences | SMS.BLL/StudentService.cs:67-78 | Replacing a student by one with the same identifier keeps the sequence numbers rising. |
| StudentService.DeleteKeepsSequences | SMS.BLL/StudentService.cs:80-91 | Deleting a student keeps the sequence numbers rising. |
| StudentController.TotalPages | SMS.Web/Controllers/StudentController.cs:36 | The page count is the ceiling of `N / 15`: zero for no students, else the least `t` with `N <= 15t`. |
| StudentController.Index | SMS.Web/Controllers/StudentController.cs:23-41 | The view shows the requested page, at most 15 students and the count of all students. |
| StudentController.PagedView.HasPreviousPage | SMS.Web/Models/StudentPagedViewModel.cs:15 | A page has a previous page when it is after page 1; PreviousPageExact states what this means for the list. |
| StudentController.PagedView.HasNextPage | SMS.Web/Models/StudentPagedViewModel.cs:16 | A page has a next page when it is before the last page; NextPageExact states what this means for the list. |
| StudentController.PreviousPageExact | SMS.Web/Models/StudentPagedViewModel.cs:15 | A page has a previous page exactly when it is page 2 or later, so page 1 never has one. |
| StudentController.EmptyStoreNoNextPage | SMS.Web/Models/StudentPagedViewModel.cs:16 | With no students no page has a next page, and every page is empty. |
| StudentController.LastPageNoNextPage | SMS.Web/Models/StudentPagedViewModel.cs:16 | The last page has no next page. |
| StudentController.NextPageExact | SMS.Web/Models/StudentPagedViewModel.cs:16 | A page offers a next page exactly when that next page has students on it. |
| StudentController.EveryStudentOnItsPage | SMS.Web/Controllers/StudentController.cs:23-41 | Every student appears, on a page within the page count, at the position its place in the newest-first list dictates. |
| StudentController.MayEdit | SMS.Web/Controllers/StudentController.cs:46-47 | The guard of both Edit actions admits exactly a caller whose claim equals the key's `ToString()` text. |
| StudentController.FormOf | SMS.Web/Controllers/StudentController.cs:61-80 | The edit form carries one qualification entry per stored qualification. |
| StudentController.EditGet | SMS.Web/Controllers/StudentController.cs:43-83 | A caller failing the guard gets Forbid. A caller passing it gets the form, filled from the stored student with the key, when that student exists, and NotFound exactly when no student has the key. |
| StudentController.EditGuardOwnKey | SMS.Web/Controllers/StudentController.cs:46-51 | A signed-in student passes the guard for its own key and for no other. |
| StudentController.NewRows | SMS.Web/Controllers/StudentController.cs:116-131 | The posted list becomes one new row per entry; no list becomes no rows. |
| StudentController.Edited | SMS.Web/Controllers/StudentController.cs:106-131 | Copying the form keeps the key, the "STU-" identifier and the password hash. |
| StudentController.EditPost | SMS.Web/Controllers/StudentController.cs:85-144 | Only a redirect changes the store. A caller failing the guard gets Forbid; an invalid model re-renders the form unchanged; a redirect implies guard and validation passed. |
| StudentController.EditPostMissing | SMS.Web/Controllers/StudentController.cs:99-104 | Posting for a key no student holds answers NotFound and changes nothing. |
| StudentController.EditPostOutcome | SMS.Web/Controllers/StudentController.cs:133-143 | A permitted, valid post redirects exactly when no other student has the posted username or email and every posted text fits its column. Otherwise the form returns with the error and the store is unchanged. |
| StudentController.EditPostStores | SMS.Web/Controllers/StudentController.cs:106-138 | After a successful post the student holds the eight posted fields, and its key, identifier and hash are untouched. Its qualifications are exactly the posted ones in order, owned by it, under fresh keys, so none of its previous rows remains. Every other student is unchanged. |
| StudentController.EditPostKeepsValid | SMS.Web/Controllers/StudentController.cs:85-144 | Every Edit POST keeps every constraint of the database. |
| StudentController.EditPostKeepsSequences | SMS.Web/Controllers/StudentController.cs:106-138 | No Edit POST disturbs the rising sequence numbers of the "STU-" identifiers: the edited student keeps its identifier. |

## Left out

- Entity Framework plumbing is replaced by pure functions of a `Store`: `Task`, `Include`, change tracking and `SaveChanges`. Thrown persistence exceptions become `Result` errors.
- Logging, dependency injection, cookie authentication and `Program.cs` configuration are left out. `AccountController` is modelled only through its NameIdentifier claim, a parameter of the Edit actions.
- BCrypt is a `Hasher` parameter with a salt. `Sound` and `Binding` are assumed where a lemma needs them; the cryptography is not modelled.
- `DateTime.Now.Year` is a `year` parameter, limited to the years `DateTime` represents.
- The read-then-insert race between `GetLatestStudentIdAsync` and `AddAsync` is not modelled. It needs two concurrent registrations, and the model is sequential.
- `int.TryParse` and `ToString("D4")` are modelled for a culture whose positive and negative signs are '+' and '-'. Under a culture with another negative sign, such as U+2212, the rendering of `int.MinValue` contains no '-', and the four-piece split after wrap-around would not arise.
- All string comparisons are ordinal and case-sensitive. `StartsWith("STU-")` is culture-sensitive in .NET, and the database collation may ignore case for the Username and Email indexes and lookups.
- Model validation checks only the bound view model, and the controller receives its outcome as `modelValid`. Entity Framework does not check the entity classes' attributes when it saves. Of those attributes, the model keeps the `[StringLength]` widths, which MySQL enforces as column widths (`DbContext.FitsColumns`). It drops `[Range]`, `[EmailAddress]`, `[Phone]` and `[RegularExpression]`, which nothing enforces on save. Text widths are counted in `char`s, so a character outside the Basic Multilingual Plane counts twice, where MySQL counts it once.
- Repository.UpdateFailure, StudentController.EditPostOutcome: the `decimal(5, 2)` column of `Percentage` is not modelled. Unless the form's own validation bounds it, a posted percentage of 1000 or more would make the database refuse the update. Neither if-and-only-if covers that refusal.
- Repository.Add: does not check column widths. The registration form's own validation limits are not part of this model.
- StudentService.RegisterKeepsSequences: holds only while the allocator has not wrapped. After `int.MaxValue` the next identifier ends in "-2147483648". That identifier splits into four pieces, so the following registration restarts at 0001, and identifiers can repeat.
- `Math.Ceiling` over `double` is integer ceiling division, which is exact for every possible count.
- `CountAsync` overflow beyond `int.MaxValue` rows is not modelled; the count is unbounded.
- How the SQL provider treats a negative offset is not modelled. `Skip` and `Take` follow LINQ: a non-positive count skips nothing or takes nothing.
- The service methods `GetAllStudentsAsync`, `GetPagedStudentsAsync` and `GetStudentByIdAsync` only forward to the repository. The controller model calls the repository functions directly.
- StudentService.OtherPasswordRefused: `Binding` is an idealisation that BCrypt does not meet. BCrypt hashes only the first 72 bytes of a password, so two passwords that agree on those bytes verify against each other's hash. The lemma holds for a binding scheme, not for the program as deployed.
- DbContext.Valid: distinct keys among qualification rows are not part of the invariant. Each row's key only lies below the counter.
- StudentController.Index: shows the page computed with the exact offset (`Repository.GetPaged`), not the wrapping one the code computes; see Findings.
- Repository.Add: requires a student and qualifications without keys, as the registration form builds them. An insert with explicit keys is not modelled.
- Repository.Update: a student without a key whose qualifications carry keys is refused as a concurrency failure. Entity Framework would insert the student and update the keyed rows.
- Repository.Update: a listed qualification key belonging to another student is refused as a concurrency failure. Entity Framework would move that row to this student.
- Repository.Update: the student's rows are replaced wholesale. Entity Framework does this for the tracked student the Edit action passes, deleting the orphaned rows. For a detached student it would leave unlisted rows in place.

## Findings

| source | as written | input that shows it | evidently intended | confidence | as-written member | corrected member |
|---|---|---|---|---|---|---|
| SMS.DAL/StudentRepository.cs:46 | `(pageNumber - 1) * pageSize` is evaluated in unchecked 32-bit `int` arithmetic | page 286331155 with size 15 (the `Index` action's size): the exact offset 4294967310 wraps to 14, so with 15 or more students this page shows students 15 onwards instead of nothing | the offset is the exact product, so a page past the end is empty | not executed; the page number comes from the query string, and C# arithmetic is unchecked by default | Repository.GetPagedAsWritten (shown by Repository.FarPageAsWritten) | Repository.GetPaged (proved by Repository.PageWindow and Repository.PastTheEnd) |
