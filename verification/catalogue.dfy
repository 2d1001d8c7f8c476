/** The course catalogue as the registration dialogue sees it: rows of the `courses`
    table, the inclusive age filter, lookup by id, and the inline buttons that carry a
    course id as `course_<id>`. */
module Catalogue {
  import opened Wrappers
  import opened Text
  import opened Sequences

  /** One row of the `courses` table (id, name, description, min_age, max_age). */
  datatype Course = Course(id: int, name: string, description: string, minAge: int, maxAge: int)

  /** `min_age <= age <= max_age`, inclusive at both ends. */
  predicate FitsAge(c: Course, age: int) {
    c.minAge <= age <= c.maxAge
  }

  /** The courses open to a child of `age`, in catalogue order: the comprehension over
      all courses in the older revision and the `WHERE min_age <= ? AND max_age >= ?`
      query in both revisions. */
  function AgeEligible(courses: seq<Course>, age: int): (r: seq<Course>)
    ensures IsSubsequence(r, courses)
    ensures forall c :: c in r <==> c in courses && FitsAge(c, age)
  {
    Filter(c => FitsAge(c, age), courses)
  }

  /** A course that admits the age is kept as often as it occurs, any other never. */
  lemma AgeEligibleCounts(courses: seq<Course>, age: int)
    ensures forall c :: multiset(AgeEligible(courses, age))[c]
                        == if FitsAge(c, age) then multiset(courses)[c] else 0
  {
    FilterCounts(c => FitsAge(c, age), courses);
  }

  /** The query finds nothing exactly when no course admits the age. */
  lemma AgeEligibleEmpty(courses: seq<Course>, age: int)
    ensures AgeEligible(courses, age) == [] <==> forall c :: c in courses ==> !FitsAge(c, age)
  {
    var r := AgeEligible(courses, age);
    if r != [] {
      assert r[0] in r;
    }
  }

  /** Course ids are the table's primary key. */
  predicate UniqueIds(courses: seq<Course>) {
    forall i, j :: 0 <= i < j < |courses| ==> courses[i].id != courses[j].id
  }

  /** With unique ids no course occurs twice, so neither does an age-eligible one. */
  lemma AgeEligibleDistinct(courses: seq<Course>, age: int)
    requires UniqueIds(courses)
    ensures Distinct(AgeEligible(courses, age))
  {
    assert Distinct(courses) by {
      forall i, j | 0 <= i < j < |courses|
        ensures courses[i] != courses[j]
      {
        assert courses[i].id != courses[j].id;
      }
    }
    SubsequenceDistinct(AgeEligible(courses, age), courses);
  }

  /** `SELECT ... FROM courses WHERE id = ?` followed by `fetchone()`. */
  function FindCourse(courses: seq<Course>, id: int): (r: Option<Course>)
    ensures r.Some? ==> r.value in courses && r.value.id == id
    ensures r.None? <==> forall c :: c in courses ==> c.id != id
  {
    if courses == [] then None
    else if courses[0].id == id then Some(courses[0])
    else FindCourse(courses[1..], id)
  }

  /** With unique ids the lookup returns the one course carrying that id. */
  lemma {:induction false} FindCourseUnique(courses: seq<Course>, c: Course)
    requires UniqueIds(courses) && c in courses
    ensures FindCourse(courses, c.id) == Some(c)
  {
    if courses[0] != c {
      assert c in courses[1..];
      var k :| 0 <= k < |courses| && courses[k] == c;
      assert k > 0;
      assert UniqueIds(courses[1..]) by {
        forall i, j | 0 <= i < j < |courses[1..]|
          ensures courses[1..][i].id != courses[1..][j].id
        {
          assert courses[1..][i] == courses[i + 1] && courses[1..][j] == courses[j + 1];
        }
      }
      FindCourseUnique(courses[1..], c);
    }
  }

  /** The callback data of a course button: `f"course_{course[0]}"`. */
  function CourseToken(id: int): string {
    "course_" + IntToString(id)
  }

  /** `int(query.data.split("_")[1])`: None where Python raises IndexError (no `_`) or
      ValueError (the second field is not an integer). */
  function ParseCourseToken(data: string): (r: Option<int>)
    ensures '_' !in data ==> r.None?
  {
    var fields := SplitOn(data, '_');
    if |fields| < 2 then None
    else
      assert '_' in data by {
        if '_' !in data { SplitOnField(data, '_'); }
      }
      ParseInt(fields[1])
  }

  /** Every token a course button carries reads back as that button's course id. */
  lemma CourseTokenRoundTrip(id: int)
    ensures ParseCourseToken(CourseToken(id)) == Some(id)
  {
    var digits := IntToString(id);
    assert '_' !in digits by {
      var n := if id < 0 then -id else id;
      assert forall i :: 0 <= i < |NatToString(n)| ==> IsDigit(NatToString(n)[i]);
      assert digits == (if id < 0 then "-" else "") + NatToString(n);
    }
    assert CourseToken(id) == "course" + ['_'] + digits;
    SplitOnTwoFields("course", digits, '_');
    ParseIntRoundTrip(id);
  }

  /** An inline keyboard button: its label and its callback data. */
  datatype Button = Button(text: string, data: string)

  /** `InlineKeyboardButton(course[1], callback_data=f"course_{course[0]}")`. */
  function CourseButton(c: Course): Button {
    Button(c.name, CourseToken(c.id))
  }

  /** One course button per course, in the given order (the keyboard's rows flattened). */
  function CourseButtons(courses: seq<Course>): (r: seq<Button>)
    ensures |r| == |courses|
    ensures forall k :: 0 <= k < |r| ==> r[k] == CourseButton(courses[k])
  {
    if courses == [] then [] else [CourseButton(courses[0])] + CourseButtons(courses[1..])
  }

  const ExitButton := Button("❌ Выйти", "exit")
  const ChooseManuallyButton := Button("Выбрать курс самостоятельно", "choose_manually")
  const YesButton := Button("Да", "confirm_yes")
  const NoButton := Button("Нет", "confirm_no")

  /** No course button can be mistaken for one of the fixed buttons. */
  lemma CourseButtonsAreNotFixed(c: Course)
    ensures CourseButton(c).data != ExitButton.data
    ensures CourseButton(c).data != ChooseManuallyButton.data
    ensures StartsWith(CourseButton(c).data, "course_")
  {
    var d := CourseButton(c).data;
    assert d[..7] == "course_";
    assert d[0] == 'c';
    assert d[1] == 'o';
  }

  /** Pressing a course button of a catalogue with unique ids selects exactly the
      course that button was built from. */
  lemma CourseButtonSelects(courses: seq<Course>, c: Course)
    requires UniqueIds(courses) && c in courses
    ensures ParseCourseToken(CourseButton(c).data) == Some(c.id)
    ensures FindCourse(courses, c.id) == Some(c)
  {
    CourseTokenRoundTrip(c.id);
    FindCourseUnique(courses, c);
  }
}
