/**
 * The record types of the student management program and the fixed course catalog.
 * Nullable strings (`string?`) are `Option<string>`; C# lists are sequences.
 */
module Records {
  import opened Wrappers

  datatype Department = ComputerScience | BBA | English

  datatype Degree = BSC | BBA | BA | MSC | MBA | MA

  /** The name fields shared by students and instructors (the `Person` base class). */
  datatype Person = Person(firstName: Option<string>, middleName: Option<string>, lastName: Option<string>)

  datatype Semester = Semester(semesterCode: Option<string>, year: Option<string>)

  datatype Course = Course(
    courseId: Option<string>,
    courseName: Option<string>,
    instructorName: Option<string>,
    numberOfCredits: int)

  datatype Student = Student(
    person: Person,
    studentId: string,
    joiningBatch: Option<Semester>,
    department: Department,
    degree: Degree,
    semestersAttended: seq<Semester>,
    coursesInSemester: seq<Course>)

  datatype Instructor = Instructor(
    person: Person,
    instructorId: string,
    department: Department,
    coursesTaught: seq<Course>)

  /** The identifier the repository reads from a student: its `StudentID` property. */
  function StudentKey(s: Student): Option<string>
  {
    Some(s.studentId)
  }

  /**
   * The identifier the repository reads from an instructor. The repository looks for a
   * property literally named `ID`; `Instructor` only has `InstructorID`, so the property
   * lookup yields null and the identifier is always absent.
   */
  function InstructorKey(i: Instructor): Option<string>
  {
    None
  }

  /** The three courses of the hard-coded catalog, in catalog order. */
  function Catalog(): seq<Course>
  {
    [ Course(Some("CSC101"), Some("Introduction to Computer Science"), Some("Dr. Smith"), 3),
      Course(Some("ENG201"), Some("English Literature"), Some("Prof. Johnson"), 4),
      Course(Some("BBA301"), Some("Business Management"), Some("Mr. Brown"), 3) ]
  }

  /** Every catalog course has an identifier and no two share one. */
  lemma CatalogIdsDistinct()
    ensures |Catalog()| == 3
    ensures forall i :: 0 <= i < |Catalog()| ==> Catalog()[i].courseId.Some?
    ensures forall i, j :: 0 <= i < j < |Catalog()| ==> Catalog()[i].courseId != Catalog()[j].courseId
  {
  }
}
