/**
 * Course lookup and course selection: `CourseExtensions.GetCourseById`, the list of
 * catalog courses a student has not taken yet, and the loop that appends the courses
 * named in a comma-separated input to the student's `CoursesInSemester`.
 */
module Courses {
  import opened Wrappers
  import opened Search
  import opened Records
  import opened Text
  import opened Repository

  /** The `CourseID` property, as a key accessor. */
  function CourseIdOf(c: Course): Option<string>
  {
    c.courseId
  }

  /** `GetCourseById`: the first course of the list whose identifier is `courseId`, or `None`. */
  function GetCourseById(courses: seq<Course>, courseId: string): (r: Option<Course>)
    ensures r.None? <==> forall i :: 0 <= i < |courses| ==> courses[i].courseId != Some(courseId)
    ensures r.Some? ==> exists i :: (0 <= i < |courses| && r.value == courses[i]
      && courses[i].courseId == Some(courseId)
      && forall j :: 0 <= j < i ==> courses[j].courseId != Some(courseId))
  {
    var r := Lookup(courses, CourseIdOf, Some(courseId));
    assert r.Some? ==> exists i :: IsFirst(courses, Matches(CourseIdOf, Some(courseId)), i) && r.value == courses[i];
    r
  }

  /** LINQ `Any`: some course of the list carries this identifier. */
  predicate AnyWithId(courses: seq<Course>, courseId: Option<string>)
  {
    exists k :: 0 <= k < |courses| && courses[k].courseId == courseId
  }

  /** The filter predicate of the not-taken query. */
  function NotTakenBy(taken: seq<Course>): Course -> bool
  {
    (c: Course) => !AnyWithId(taken, c.courseId)
  }

  /**
   * The catalog courses whose identifier is not among those of `taken`, in catalog order
   * (the `Where`/`Any` query that lists the courses not taken yet).
   */
  function CoursesNotTaken(catalog: seq<Course>, taken: seq<Course>): (r: seq<Course>)
    ensures forall k :: 0 <= k < |r| ==> r[k] in catalog && !AnyWithId(taken, r[k].courseId)
    ensures forall k :: 0 <= k < |catalog| && !AnyWithId(taken, catalog[k].courseId) ==> catalog[k] in r
  {
    Filter(catalog, NotTakenBy(taken))
  }

  /** The not-taken list keeps catalog order: it is computed piecewise over any split of the catalog. */
  lemma CoursesNotTakenOrder(front: seq<Course>, back: seq<Course>, taken: seq<Course>)
    ensures CoursesNotTaken(front + back, taken) == CoursesNotTaken(front, taken) + CoursesNotTaken(back, taken)
  {
    FilterAppend(front, back, NotTakenBy(taken));
  }

  /** A student who has taken nothing is offered the whole catalog. */
  lemma NothingTakenOffersAll(catalog: seq<Course>)
    ensures CoursesNotTaken(catalog, []) == catalog
  {
    FilterKeepsAll(catalog, NotTakenBy([]));
  }

  /** Having taken CSC101, a student is offered ENG201 and BBA301, in that order. */
  lemma NotTakenAfterFirstCourse()
    ensures CoursesNotTaken(Catalog(), [Catalog()[0]]) == Catalog()[1..]
  {
    var taken := [Catalog()[0]];
    var p := NotTakenBy(taken);
    assert Catalog() == [Catalog()[0]] + Catalog()[1..];
    CoursesNotTakenOrder([Catalog()[0]], Catalog()[1..], taken);
    assert AnyWithId(taken, Catalog()[0].courseId);
    assert Filter([Catalog()[0]], p) == [];
    FilterKeepsAll(Catalog()[1..], p);
  }

  /** The catalog course a token names once trimmed, as a list of zero or one course. */
  function Hit(catalog: seq<Course>, token: string): seq<Course>
  {
    match GetCourseById(catalog, Trim(token))
    case None => []
    case Some(c) => [c]
  }

  /** The courses the selection loop appends for these tokens, in token order. */
  function Selected(catalog: seq<Course>, tokens: seq<string>): seq<Course>
  {
    Concat(tokens, (t: string) => Hit(catalog, t))
  }

  /** Selection proceeds token by token: the hits of a concatenation are the hits of each part. */
  lemma SelectedAppend(catalog: seq<Course>, a: seq<string>, b: seq<string>)
    ensures Selected(catalog, a + b) == Selected(catalog, a) + Selected(catalog, b)
  {
    ConcatAppend(a, b, (t: string) => Hit(catalog, t));
  }

  /** The hits of the first `i + 1` tokens are those of the first `i` followed by the hit of token `i`. */
  lemma SelectedStep(catalog: seq<Course>, tokens: seq<string>, i: int)
    requires 0 <= i < |tokens|
    ensures Selected(catalog, tokens[..i + 1]) == Selected(catalog, tokens[..i]) + Hit(catalog, tokens[i])
  {
    assert tokens[..i + 1][..i] == tokens[..i];
  }

  /**
   * Every appended course is a catalog course named by one of the trimmed tokens, and at
   * most one course is appended per token.
   */
  lemma {:induction false} SelectedFromCatalog(catalog: seq<Course>, tokens: seq<string>)
    ensures |Selected(catalog, tokens)| <= |tokens|
    ensures forall k :: 0 <= k < |Selected(catalog, tokens)| ==>
      Selected(catalog, tokens)[k] in catalog
      && exists t :: 0 <= t < |tokens| && Selected(catalog, tokens)[k].courseId == Some(Trim(tokens[t]))
  {
    if |tokens| > 0 {
      var init := tokens[..|tokens| - 1];
      SelectedFromCatalog(catalog, init);
      var s := Selected(catalog, tokens);
      forall k | 0 <= k < |s|
        ensures s[k] in catalog && exists t :: 0 <= t < |tokens| && s[k].courseId == Some(Trim(tokens[t]))
      {
        if k < |Selected(catalog, init)| {
          var t :| 0 <= t < |init| && Selected(catalog, init)[k].courseId == Some(Trim(init[t]));
          assert init[t] == tokens[t];
        } else {
          assert s[k] == Hit(catalog, tokens[|tokens| - 1])[0];
        }
      }
    }
  }

  /** A token that names a catalog course once trimmed appends exactly that course; any other token appends nothing. */
  lemma SelectedOneToken(catalog: seq<Course>, token: string)
    ensures Selected(catalog, [token]) ==
      match GetCourseById(catalog, Trim(token))
      case None => []
      case Some(c) => [c]
  {
    assert [token][..0] == [];
    assert Selected(catalog, [token]) == Selected(catalog, []) + Hit(catalog, token);
  }

  /** Looking an identifier up in the catalog finds the course with that identifier, if there is one. */
  lemma CatalogLookup(courseId: string)
    ensures GetCourseById(Catalog(), courseId) ==
      if courseId == "CSC101" then Some(Catalog()[0])
      else if courseId == "ENG201" then Some(Catalog()[1])
      else if courseId == "BBA301" then Some(Catalog()[2])
      else None
  {
    CatalogIdsDistinct();
  }

  /** Duplicates are not prevented: naming CSC101 twice appends it twice, and an unknown token appends nothing. */
  lemma SelectingTwiceAppendsTwice()
    ensures Selected(Catalog(), ["CSC101", "CSC101", "XYZ"]) == [Catalog()[0], Catalog()[0]]
  {
    assert Trim("CSC101") == "CSC101" by { TrimKeepsClean("CSC101"); }
    assert Trim("XYZ") == "XYZ" by { TrimKeepsClean("XYZ"); }
    CatalogLookup("CSC101");
    CatalogLookup("XYZ");
    SelectedOneToken(Catalog(), "CSC101");
    SelectedOneToken(Catalog(), "XYZ");
    assert ["CSC101", "CSC101", "XYZ"] == ["CSC101"] + ["CSC101"] + ["XYZ"];
    SelectedAppend(Catalog(), ["CSC101"], ["CSC101"]);
    SelectedAppend(Catalog(), ["CSC101"] + ["CSC101"], ["XYZ"]);
  }

  /** Once the selected courses are appended, none of them is offered again as not taken. */
  lemma SelectedNoLongerOffered(catalog: seq<Course>, taken: seq<Course>, tokens: seq<string>)
    ensures var sel := Selected(catalog, tokens);
      var offered := CoursesNotTaken(catalog, taken + sel);
      forall k, m :: 0 <= k < |offered| && 0 <= m < |sel| ==> offered[k].courseId != sel[m].courseId
  {
    var sel := Selected(catalog, tokens);
    var offered := CoursesNotTaken(catalog, taken + sel);
    forall k, m | 0 <= k < |offered| && 0 <= m < |sel|
      ensures offered[k].courseId != sel[m].courseId
    {
      assert (taken + sel)[|taken| + m] == sel[m];
    }
  }

  /**
   * `AddCoursesToSemester`: for each identifier in order, look the trimmed identifier up in
   * the catalog and append the course found; unknown identifiers are skipped.
   */
  method AddCoursesToSemester(student: Student, courseIds: seq<string>) returns (updated: Student)
    ensures updated == student.(coursesInSemester := student.coursesInSemester + Selected(Catalog(), courseIds))
  {
    updated := student;
    var i := 0;
    while i < |courseIds|
      invariant 0 <= i <= |courseIds|
      invariant updated == student.(coursesInSemester := student.coursesInSemester + Selected(Catalog(), courseIds[..i]))
    {
      var selectedCourse := GetCourseById(Catalog(), Trim(courseIds[i]));
      SelectedStep(Catalog(), courseIds, i);
      if selectedCourse.Some? {
        updated := updated.(coursesInSemester := updated.coursesInSemester + [selectedCourse.value]);
      }
      i := i + 1;
    }
    assert courseIds[..|courseIds|] == courseIds;
  }

  /**
   * `AddSemesterAndCourses`: find the student by identifier; if found, append the catalog
   * courses named in the comma-separated `input` to that student's courses and save. The
   * semester entered is only echoed in messages and is not recorded; a student that is not
   * found leaves the store untouched.
   */
  method AddSemesterAndCourses(repo: JsonRepository<Student>, studentId: Option<string>, input: string)
    returns (found: bool)
    modifies repo`entities, repo`file
    ensures found == FindFirst(old(repo.entities), Matches(repo.key, studentId)).Some?
    ensures !found ==> repo.entities == old(repo.entities) && repo.file == old(repo.file)
    ensures found ==>
      var i := FindFirst(old(repo.entities), Matches(repo.key, studentId)).value;
      var s := old(repo.entities)[i];
      repo.entities == old(repo.entities)[i := s.(coursesInSemester := s.coursesInSemester + Selected(Catalog(), Split(input, ',')))]
      && repo.entities[i].semestersAttended == s.semestersAttended
      && repo.file == Some(repo.entities)
  {
    var index := FindFirst(repo.entities, Matches(repo.key, studentId));
    if index.Some? {
      var student := repo.entities[index.value];
      var updated := AddCoursesToSemester(student, Split(input, ','));
      repo.entities := repo.entities[index.value := updated];
      repo.SaveChanges();
      found := true;
    } else {
      found := false;
    }
  }
}
