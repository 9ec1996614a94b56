# Student management records: repository and course selection

A Dafny model of the in-memory record store and the course-selection logic of a console
application that keeps student and instructor records (`Student_Management_System/Program.cs`).

- `records.dfy` (module `Records`): the record types `Student`, `Instructor`, `Course`,
  `Semester`, the `Person` name fields, the two enumerations, the identifier accessors the
  repository uses (`StudentKey` reads `StudentID`; `InstructorKey` is always absent because
  the repository asks for a property named `ID`, which `Instructor` does not have), and the
  fixed three-course catalog.
- `search.dfy` (module `Search`): the list primitives the program relies on, as functions
  on sequences: `FirstOrDefault` as `FindFirst` (index of the first hit), `Where` as
  `Filter`, `List<T>.Remove` as `RemoveFirst`, and `Concat` for a loop that appends zero or
  more items per input element.
- `text.dfy` (module `Text`): `String.Split(',')` and `String.Trim()` with `char.IsWhiteSpace`,
  and the round trips between `Split` and `Join`.
- `repository.dfy` (module `Repository`): the generic store `JsonRepository<T>` as a class.
  `entities` is the owned list. `file` stands for the backing file: `None` while no file
  exists, otherwise the sequence it holds. The ghost `notifications` log records the
  `EntityAdded` and `EntityDeleted` events in the order they are raised. The key accessor
  `key` replaces the reflection on `StudentID` / `ID`.
- `courses.dfy` (module `Courses`): `CourseExtensions.GetCourseById`, the list of courses
  not yet taken, and the selection loop shared by `AddSemesterAndCourses` and
  `AddCoursesToSemester`.

Identifiers are `Option<string>`, `None` standing for a C# null, because the source compares
them with C# string equality, under which null equals null. The in-place append to the
`CoursesInSemester` list of the student object that `GetById` hands back is modelled by
writing the updated student back at that student's position in the store's list: the
source obtains the same effect through aliasing.

## Model

| member | source | states |
|---|---|---|
| `Search.FindFirst` | Student_Management_System/Program.cs:85-88 | the result is the smallest index whose element satisfies the predicate; absent exactly when no element does |
| `Search.FirstIsUnique` | Student_Management_System/Program.cs:87 | a first match is unique, so "first or default" has one answer |
| `Search.FindFirstAppend` | Student_Management_System/Program.cs:138-158 | searching `s + t` finds a hit in `s` first, otherwise the hit in `t` shifted by `|s|` |
| `Search.FindFirstAfterRemoval` | Student_Management_System/Program.cs:161-186 | once the first match at `i` is cut out, the next match is found one place earlier than before, or there is none |
| `Search.Filter` | Student_Management_System/Program.cs:426 | the result holds exactly the elements that satisfy the predicate, and is no longer than the input |
| `Search.FilterAppend` | Student_Management_System/Program.cs:426 | filtering a concatenation is the concatenation of the filtered parts, so input order is kept |
| `Search.FilterKeepsAll` | Student_Management_System/Program.cs:426 | when every element passes, the filter returns the whole input unchanged |
| `Search.RemoveFirst` | Student_Management_System/Program.cs:171 | `List.Remove`: if the value is present, one occurrence goes (length minus one, multiset minus that value); if absent, nothing changes |
| `Search.RemoveFirstAt` | Student_Management_System/Program.cs:168-171 | removing by value the element at index `i`, when no earlier element equals it, removes exactly position `i` |
| `Search.ConcatAppend` | Student_Management_System/Program.cs:441-453 | per-element appending over `xs + ys` gives the output for `xs` followed by the output for `ys` |
| `Text.TrimStart` | Student_Management_System/Program.cs:443 | the result is a suffix of the input; everything cut is white space; it does not start with white space |
| `Text.TrimEnd` | Student_Management_System/Program.cs:443 | the result is a prefix of the input; everything cut is white space; it does not end with white space |
| `Text.Trim` | Student_Management_System/Program.cs:443 | the result is a slice of the input, with only white space on either side, and it neither starts nor ends with white space |
| `Text.TrimKeepsClean` | Student_Management_System/Program.cs:474 | a string without white space at either end trims to itself |
| `Text.TrimIdempotent` | Student_Management_System/Program.cs:474 | trimming twice equals trimming once |
| `Text.TrimAllWhite` | Student_Management_System/Program.cs:443 | a string made only of white space trims to the empty string |
| `Text.Split` | Student_Management_System/Program.cs:438 | at least one piece; no piece contains the separator |
| `Text.JoinSplit` | Student_Management_System/Program.cs:438 | joining the pieces with the separator gives back the input, so empty pieces are kept and nothing is lost |
| `Text.SplitWithoutSeparator` | Student_Management_System/Program.cs:438 | an input without a comma is one token |
| `Text.SplitJoin` | Student_Management_System/Program.cs:438 | splitting a join of separator-free pieces gives back exactly those pieces |
| `Records.CatalogIdsDistinct` | Student_Management_System/Program.cs:515-526 | the catalog has three courses, each with an identifier, and no two share an identifier |
| `Repository.Lookup` | Student_Management_System/Program.cs:146-158 | the result is the record at the smallest index whose identifier equals `id`; absent exactly when no record has that identifier |
| `Repository.AfterDelete` | Student_Management_System/Program.cs:161-186 | on a hit at first index `i`, the result is the list without position `i`, with the others in order; on a miss, the list is unchanged |
| `Repository.JsonRepository.constructor` | Student_Management_System/Program.cs:132-136 | loads the backing file (a missing file gives an empty list); the log is empty; list and file agree |
| `Repository.JsonRepository.LoadEntities` | Student_Management_System/Program.cs:202-213 | the list becomes the file's sequence when the file exists, otherwise empty |
| `Repository.JsonRepository.SaveChanges` | Student_Management_System/Program.cs:196-200 | the file afterwards holds exactly the current list |
| `Repository.JsonRepository.GetAllEntities` | Student_Management_System/Program.cs:119-122 | returns the store's list in insertion order |
| `Repository.JsonRepository.Add` | Student_Management_System/Program.cs:138-144 | list becomes old list plus the record at the end; file equals the new list; exactly one `Added(entity)` is logged |
| `Repository.JsonRepository.GetById` | Student_Management_System/Program.cs:146-158 | the result is the first record whose identifier is `id`; absent exactly when none has it |
| `Repository.JsonRepository.Delete` | Student_Management_System/Program.cs:161-192 | hit: the first matching record is removed and the others keep their order, the file equals the new list, and exactly one `Deleted(id)` is logged; miss: list, file and log unchanged |
| `Repository.LookupAfterAdd` | Student_Management_System/Program.cs:138-158 | after an append, lookup still returns an earlier match; it returns the new record only when nothing matched before |
| `Repository.LookupPrefersEarlier` | Student_Management_System/Program.cs:151 | when two records share an identifier, lookup returns the earlier one |
| `Repository.LookupAfterDelete` | Student_Management_System/Program.cs:161-186 | once the first match of `id` at `i` is removed (as `Delete` does), lookup of `id` finds the next duplicate, if any: only the first is removed |
| `Repository.DeleteUndoesAdd` | Student_Management_System/Program.cs:138-186 | deleting the identifier of a record just added, when no earlier record had it, restores the previous list |
| `Repository.NoIdentifierNeverMatches` | Student_Management_System/Program.cs:153-157 | for a type without an identifier property, lookup of a non-null id misses and delete changes nothing |
| `Repository.InstructorLookup` | Student_Management_System/Program.cs:153-157 | instructor store: a non-null id never matches (no `ID` property, only `InstructorID`); a null id matches the first instructor |
| `Repository.SaveThenReload` | Student_Management_System/Program.cs:196-213 | save, then open a second store on the same file: it gets the same records in the same order |
| `Courses.GetCourseById` | Student_Management_System/Program.cs:85-88 | the result is the first course whose `CourseID` equals the id; absent exactly when no course has it |
| `Courses.CatalogLookup` | Student_Management_System/Program.cs:515-526 | looking up CSC101, ENG201 or BBA301 in the catalog finds that course; any other id finds nothing |
| `Courses.CoursesNotTaken` | Student_Management_System/Program.cs:426 | the result holds exactly the catalog courses whose `CourseID` matches no taken course |
| `Courses.CoursesNotTakenOrder` | Student_Management_System/Program.cs:426 | the not-taken list follows catalog order: for a catalog split into parts, it is the parts' results in sequence |
| `Courses.NothingTakenOffersAll` | Student_Management_System/Program.cs:426 | a student with no courses is offered the whole catalog |
| `Courses.NotTakenAfterFirstCourse` | Student_Management_System/Program.cs:423-426 | a student who has taken CSC101 is offered ENG201 then BBA301 |
| `Courses.SelectedAppend` | Student_Management_System/Program.cs:441-453 | tokens are processed in input order: the courses appended for `a + b` are those for `a` followed by those for `b` |
| `Courses.SelectedOneToken` | Student_Management_System/Program.cs:443-452 | one token appends the catalog course named by the trimmed token, or nothing when no course matches |
| `Courses.SelectedFromCatalog` | Student_Management_System/Program.cs:441-453 | every appended course is a catalog course whose id equals some trimmed token; at most one course is appended per token |
| `Courses.SelectingTwiceAppendsTwice` | Student_Management_System/Program.cs:441-453 | duplicates are not prevented: naming CSC101 twice appends it twice; an unknown id appends nothing |
| `Courses.SelectedNoLongerOffered` | Student_Management_System/Program.cs:426-453 | once the selected courses are appended, none of them is offered again as not taken |
| `Courses.AddCoursesToSemester` | Student_Management_System/Program.cs:470-485 | the student's courses become the old courses followed by the catalog hits for the ids, in order; nothing else about the student changes |
| `Courses.AddSemesterAndCourses` | Student_Management_System/Program.cs:406-467 | if no student has the id, list and file are unchanged; otherwise only the first such student changes: its courses gain the hits for the comma-split input, its semesters stay the same, and the file is saved; no event is raised |

## Left out

- Console prompting, the menu loop, and all success and error messages (`Main`, `AddNewEntity`, `ViewEntityDetails`, `DeleteEntity`, `DisplayStudentList`). They are input and output only.
- JSON serialisation and file access. The file is modelled as the sequence it holds, with an exact round trip. A malformed file failing at load time is not modelled. Loss of object identity on reload is not modelled either.
- A failing write is not modelled: saves always succeed, so after `Add`, `Delete` and `AddSemesterAndCourses` the file always equals the list. In the program a throwing `File.WriteAllText` leaves the list changed and the file stale. `Add` then raises no `EntityAdded` and lets the exception escape. `Delete` raises no `EntityDeleted` and prints a message. `AddSemesterAndCourses` keeps the appended courses in memory only.
- Reflection (`GetProperty`/`GetValue`) and the `typeof` dispatch. They are replaced by the key accessor.
- Records.StudentKey: always `Some`. A student whose `StudentID` is null is not modelled, so in the model a null id never matches a student. In the program such a student can arise: `StudentID` is a nullable reference despite its annotation, `ReadLine` yields null at end of input, and a loaded file may hold a null `StudentID`. `GetById(null)` and `Delete(null)` would then match that student.
- Event delegates. Only the ghost log of raised events is modelled; the log records an event even when no listener is subscribed. Listeners and their order are not modelled.
- The `try`/`catch` blocks in `Delete` and `AddSemesterAndCourses`, and the exceptions they catch. In particular, null elements in the list and a null input line (end of input) are not modelled.
- Repository.JsonRepository.GetAllEntities: returns the list's value, not the live `List<T>`. Changes a caller makes through that reference, or through the record `GetById` returns, without a later `SaveChanges` are not modelled.
- Courses.AddCoursesToSemester: the `semester` argument is dropped. It only appears in console messages, and nothing in the program calls this method.
- Courses.AddSemesterAndCourses: the semester code and year prompts are dropped, because they only form a console message. The displayed not-taken list has no effect on state and is modelled separately as `CoursesNotTaken`.
- `Semester.ToString`: it only feeds console messages.
- `Enum.TryParse`, the `dynamic` additional-info loop, and `DescriptionAttribute`. These are .NET library and dynamic-typing behaviour with no effect on the store.
- `NumberOfCredits` is an unbounded `int`. The program stores it but does no arithmetic on it.
