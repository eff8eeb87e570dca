/** The two entities of the system: a student and the academic
    qualifications it owns. Field names follow the entity classes, except
    that the two different things both called `StudentId` there get distinct
    names here: `Student.publicId` is the human-readable "STU-<year>-<seq>"
    identifier, `Qualification.ownerId` is the integer foreign key holding
    the owning student's surrogate key `Student.id`. */
module Models {

  /** A calendar date. No operation of the core looks inside it. */
  datatype Date = Date(ticks: int)

  /** A fixed-point decimal (`decimal(5, 2)` in the database). No operation
      of the core looks inside it. */
  datatype Decimal = Decimal(unscaled: int, scale: nat)

  datatype Qualification = Qualification(
    id: int,
    ownerId: int,
    courseName: string,
    university: string,
    yearOfPassing: int,
    percentage: Decimal)

  datatype Student = Student(
    id: int,
    publicId: string,
    firstName: string,
    lastName: string,
    age: int,
    dob: Date,
    gender: string,
    email: string,
    phoneNumber: string,
    username: string,
    passwordHash: string,
    qualifications: seq<Qualification>)

  /** Key value of an entity the database has not assigned a key to yet. */
  const Unsaved: int := 0
}
