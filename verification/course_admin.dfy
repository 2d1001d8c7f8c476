/** The administrators' course dialogues: creating a course (older revision) and
    editing one (current revision). Both collect a name, a description and an age range
    and write one row of `courses`. */
module CourseAdmin {
  import opened Wrappers
  import opened Text
  import opened Validators
  import opened Catalogue
  import Dialogue

  /** The values written to a `courses` row. */
  datatype CourseRow = CourseRow(name: string, description: string, minAge: int, maxAge: int)

  /** `context.user_data` during an administrator dialogue. */
  datatype AdminData = AdminData(
    courseId: Option<int>,
    current: Option<Course>,
    name: Option<string>,
    description: Option<string>,
    minAge: Option<int>,
    maxAge: Option<int>)

  const Cleared := AdminData(None, None, None, None, None, None)

  datatype AdminReply =
    | NoRights | NoCoursesToEdit | CourseList(courses: seq<Course>) | CourseNotFound
    | AskName | AskDescription | AskMinAge | AskMaxAge | AskNumber | NegativeMinAge
    | MaxNotAboveMin | Created(name: string) | Updated | CreationCancelled | Cancelled

  datatype AdminEffect =
    | Tell(reply: AdminReply)
    | InsertCourse(row: CourseRow)
    | UpdateCourse(id: int, row: CourseRow)
    | Raised

  /** The signed 64-bit range in which sqlite3 binds a Python int; outside it the older
      revision's `INSERT` raises `OverflowError`. */
  const SqliteMin: int := -0x8000_0000_0000_0000
  const SqliteMax: int := 0x7FFF_FFFF_FFFF_FFFF

  /** PostgreSQL's INTEGER, the type of `courses.min_age` and `max_age` (`database.py`);
      outside it the current revision's `UPDATE` fails with "integer out of range". */
  const PgIntegerMin: int := -0x8000_0000
  const PgIntegerMax: int := 0x7FFF_FFFF

  /** Both ages of a row lie in `lo..hi`. */
  predicate AgesWithin(row: CourseRow, lo: int, hi: int) {
    lo <= row.minAge <= hi && lo <= row.maxAge <= hi
  }

  /** The administrators, the catalogue and the chat an update comes from. */
  datatype AdminEnv = AdminEnv(admins: seq<int>, courses: seq<Course>, chatId: int)

  // ---------------------------------------------------------------------------
  // Creating a course (older revision)

  datatype CreateState = CreateIdle | CourseName | CourseDescription | CourseMinAge | CourseMaxAge

  datatype CreateOutcome = CreateOutcome(state: CreateState, data: AdminData, effects: seq<AdminEffect>)

  /** The row `get_course_max_age` inserts, or None where a key is missing. */
  function CreatedRow(d: AdminData): (r: Option<CourseRow>)
    ensures r.Some? <==> d.name.Some? && d.description.Some? && d.minAge.Some? && d.maxAge.Some?
    ensures r.Some? ==> r.value == CourseRow(d.name.value, d.description.value, d.minAge.value, d.maxAge.value)
  {
    if d.name.Some? && d.description.Some? && d.minAge.Some? && d.maxAge.Some?
    then Some(CourseRow(d.name.value, d.description.value, d.minAge.value, d.maxAge.value))
    else None
  }

  /** `get_course_max_age`: the typed maximum must exceed the stored minimum; then the
      course is inserted and the data cleared. An age sqlite3 cannot bind makes the
      insert raise, outside the handler's `except ValueError`, with the maximum stored. */
  function CreateMaxAge(d: AdminData, text: string): (o: CreateOutcome)
    ensures ParseInt(text).None? ==> o == CreateOutcome(CourseMaxAge, d, [Tell(AskNumber)])
    ensures forall e :: e in o.effects && e.InsertCourse? ==>
              e.row.minAge < e.row.maxAge && Some(e.row.minAge) == d.minAge
              && Some(e.row.maxAge) == ParseInt(text) && AgesWithin(e.row, SqliteMin, SqliteMax)
    ensures o.state == CreateIdle <==> exists e :: e in o.effects && e.InsertCourse?
  {
    match ParseInt(text)
    case None => CreateOutcome(CourseMaxAge, d, [Tell(AskNumber)])
    case Some(n) =>
      if d.minAge.None? then CreateOutcome(CourseMaxAge, d, [Raised])
      else
        match CheckMaxAge(text, d.minAge.value)
        case Err(_) => CreateOutcome(CourseMaxAge, d, [Tell(MaxNotAboveMin)])
        case Ok(max) =>
          var d1 := d.(maxAge := Some(max));
          match CreatedRow(d1)
          case None => CreateOutcome(CourseMaxAge, d1, [Raised])
          case Some(row) =>
            if !AgesWithin(row, SqliteMin, SqliteMax) then CreateOutcome(CourseMaxAge, d1, [Raised])
            else
            var effects := [InsertCourse(row), Tell(Created(row.name))];
            assert effects[0].InsertCourse?;
            CreateOutcome(CreateIdle, Cleared, effects)
  }

  /** One update through the course-creation conversation. */
  function CreateStep(env: AdminEnv, s: CreateState, d: AdminData, e: Dialogue.Event): (o: CreateOutcome)
    ensures s == CreateIdle && e != Dialogue.Command("create_course") ==> o == CreateOutcome(s, d, [])
    ensures e == Dialogue.Command("create_course") && s == CreateIdle ==>
              (o.state == CourseName <==> env.chatId in env.admins)
    ensures forall ef :: ef in o.effects && ef.InsertCourse? ==>
              s == CourseMaxAge && ef.row.minAge < ef.row.maxAge
    ensures s != CreateIdle && e == Dialogue.Command("cancel") ==> o.state == CreateIdle && o.data == Cleared
  {
    match e
    case Command(name) =>
      if s == CreateIdle then
        if name != "create_course" then CreateOutcome(s, d, [])
        else if env.chatId !in env.admins then CreateOutcome(CreateIdle, d, [Tell(NoRights)])
        else CreateOutcome(CourseName, d, [Tell(AskName)])
      else if name == "cancel" then CreateOutcome(CreateIdle, Cleared, [Tell(CreationCancelled)])
      else CreateOutcome(s, d, [])
    case Message(text) =>
      (match s
       case CreateIdle => CreateOutcome(s, d, [])
       case CourseName => CreateOutcome(CourseDescription, d.(name := Some(text)), [Tell(AskDescription)])
       case CourseDescription => CreateOutcome(CourseMinAge, d.(description := Some(text)), [Tell(AskMinAge)])
       case CourseMinAge =>
         (match CheckMinAge(text)
          case Ok(min) => CreateOutcome(CourseMaxAge, d.(minAge := Some(min)), [Tell(AskMaxAge)])
          case Err(NotANumber) => CreateOutcome(CourseMinAge, d, [Tell(AskNumber)])
          case Err(_) => CreateOutcome(CourseMinAge, d, [Tell(NegativeMinAge)]))
       case CourseMaxAge => CreateMaxAge(d, text))
    case Press(_) => CreateOutcome(s, d, [])
  }

  /** What each creation state can rely on. */
  predicate CreateCollected(s: CreateState, d: AdminData) {
    && ((s == CourseDescription || s == CourseMinAge || s == CourseMaxAge) ==> d.name.Some?)
    && ((s == CourseMinAge || s == CourseMaxAge) ==> d.description.Some?)
    && (s == CourseMaxAge ==> d.minAge.Some? && d.minAge.value >= 0)
  }

  /** Every course the dialogue creates has an age range `0 <= min < max`, and the
      dialogue keeps the keys it relies on. */
  lemma CreatedCoursesOrdered(env: AdminEnv, s: CreateState, d: AdminData, e: Dialogue.Event)
    requires CreateCollected(s, d)
    ensures var o := CreateStep(env, s, d, e);
            && CreateCollected(o.state, o.data)
            && forall ef :: ef in o.effects && ef.InsertCourse? ==> 0 <= ef.row.minAge < ef.row.maxAge
  {
  }

  /** Entered through `/create_course`, the creation dialogue raises only for a typed
      maximum too large for sqlite3 to bind: every key `get_course_max_age` reads is
      present, so the row to insert always exists, and its minimum is at least 0. */
  lemma CreateRaisesOnlyOnOverflow(env: AdminEnv, s: CreateState, d: AdminData, e: Dialogue.Event)
    requires CreateCollected(s, d)
    ensures var o := CreateStep(env, s, d, e);
            Raised in o.effects ==>
              && s == CourseMaxAge && e.Message?
              && ParseInt(e.text).Some? && ParseInt(e.text).value > SqliteMax
              && CreatedRow(o.data).Some? && !AgesWithin(CreatedRow(o.data).value, SqliteMin, SqliteMax)
    ensures s == CourseMaxAge ==> forall n :: CreatedRow(d.(maxAge := Some(n))).Some?
  {
    var o := CreateStep(env, s, d, e);
    if s == CourseMaxAge && e.Message? {
      assert o == CreateMaxAge(d, e.text);
    } else {
      assert Raised !in o.effects;
    }
  }

  // ---------------------------------------------------------------------------
  // Editing a course (current revision)

  datatype EditState =
    | EditIdle | EditCourseId | EditCourseName | EditCourseDescription | EditCourseMinAge | EditCourseMaxAge

  datatype EditOutcome = EditOutcome(state: EditState, data: AdminData, effects: seq<AdminEffect>)

  /** The `UPDATE` parameters, or None where a key is missing. */
  function EditedRow(d: AdminData): (r: Option<(int, CourseRow)>)
    ensures r.Some? <==> d.courseId.Some? && d.name.Some? && d.description.Some?
                         && d.minAge.Some? && d.maxAge.Some?
    ensures r.Some? ==> r.value.0 == d.courseId.value
                        && r.value.1 == CourseRow(d.name.value, d.description.value, d.minAge.value, d.maxAge.value)
  {
    if d.courseId.Some? && d.name.Some? && d.description.Some? && d.minAge.Some? && d.maxAge.Some?
    then Some((d.courseId.value, CourseRow(d.name.value, d.description.value, d.minAge.value, d.maxAge.value)))
    else None
  }

  /** Write the collected values and clear, as the end of `get_course_max_age_to_edit`.
      A missing key raises `KeyError`; an age outside INTEGER makes the `UPDATE` raise;
      either way nothing is written and the data is kept. */
  function SaveEdit(d: AdminData): (o: EditOutcome)
    ensures o.state == EditIdle <==>
              EditedRow(d).Some? && AgesWithin(EditedRow(d).value.1, PgIntegerMin, PgIntegerMax)
    ensures o.state == EditIdle ==>
              o.data == Cleared && |o.effects| == 2 && o.effects[0] == UpdateCourse(EditedRow(d).value.0, EditedRow(d).value.1)
    ensures o.state != EditIdle ==> o == EditOutcome(EditCourseMaxAge, d, [Raised])
    ensures forall ef :: ef in o.effects && ef.UpdateCourse? ==>
              o.data == Cleared && Some(ef.row.minAge) == d.minAge && Some(ef.row.maxAge) == d.maxAge
  {
    match EditedRow(d)
    case None => EditOutcome(EditCourseMaxAge, d, [Raised])
    case Some(r) =>
      if !AgesWithin(r.1, PgIntegerMin, PgIntegerMax) then EditOutcome(EditCourseMaxAge, d, [Raised])
      else EditOutcome(EditIdle, Cleared, [UpdateCourse(r.0, r.1), Tell(Updated)])
  }

  /** `get_course_max_age_to_edit`. `/skip` takes the course's current maximum; a typed
      maximum must exceed the collected minimum (0 when none was collected). With
      `checkSkipped` the skipped maximum is held to the same rule. */
  function EditMaxAge(checkSkipped: bool, d: AdminData, e: Dialogue.Event): (o: EditOutcome)
    requires e.Message? || e == Dialogue.Command("skip")
    ensures (o.state == EditCourseMaxAge || o.state == EditIdle)
    ensures forall ef :: ef in o.effects && ef.UpdateCourse? ==> o.data == Cleared
    ensures forall ef :: ef in o.effects && ef.UpdateCourse? && (checkSkipped || e.Message?) ==>
              ef.row.minAge < ef.row.maxAge
    ensures EditCollected(EditCourseMaxAge, d) ==> EditCollected(o.state, o.data)
  {
    if e.Command? then
      if d.current.None? then EditOutcome(EditCourseMaxAge, d, [Raised])
      else if checkSkipped && d.current.value.maxAge <= d.minAge.GetOr(0) then
        EditOutcome(EditCourseMaxAge, d, [Tell(MaxNotAboveMin)])
      else SaveEdit(d.(maxAge := Some(d.current.value.maxAge)))
    else
      match ParseInt(e.text)
      case None => EditOutcome(EditCourseMaxAge, d, [Tell(AskNumber)])
      case Some(n) =>
        if n <= d.minAge.GetOr(0) then EditOutcome(EditCourseMaxAge, d, [Tell(MaxNotAboveMin)])
        else SaveEdit(d.(maxAge := Some(n)))
  }

  /** What each editing state can rely on: the course picked, and every value collected
      before it. */
  predicate EditCollected(s: EditState, d: AdminData) {
    && (s != EditIdle && s != EditCourseId ==>
          d.courseId.Some? && d.current.Some? && d.current.value.id == d.courseId.value)
    && ((s == EditCourseDescription || s == EditCourseMinAge || s == EditCourseMaxAge) ==> d.name.Some?)
    && ((s == EditCourseMinAge || s == EditCourseMaxAge) ==> d.description.Some?)
    && (s == EditCourseMaxAge ==> d.minAge.Some?)
  }

  /** A command in the editing conversation: `/edit_course` starts it, `/cancel` ends it,
      `/skip` keeps the current value of the field being asked for. */
  function EditCommand(checkSkipped: bool, env: AdminEnv, s: EditState, d: AdminData, name: string): (o: EditOutcome)
    ensures s == EditIdle && name != "edit_course" ==> o == EditOutcome(s, d, [])
    ensures s != EditIdle && name == "cancel" ==> o.state == EditIdle && o.data == Cleared
    ensures forall ef :: ef in o.effects && ef.UpdateCourse? ==> s == EditCourseMaxAge && o.data == Cleared
    ensures forall ef :: ef in o.effects && ef.UpdateCourse? && checkSkipped ==> ef.row.minAge < ef.row.maxAge
    ensures EditCollected(s, d) ==> EditCollected(o.state, o.data)
  {
    if s == EditIdle then
      if name != "edit_course" then EditOutcome(s, d, [])
      else if env.chatId !in env.admins then EditOutcome(EditIdle, d, [Tell(NoRights)])
      else if env.courses == [] then EditOutcome(EditIdle, d, [Tell(NoCoursesToEdit)])
      else EditOutcome(EditCourseId, d, [Tell(CourseList(env.courses))])
    else if name == "cancel" then EditOutcome(EditIdle, Cleared, [Tell(Cancelled)])
    else if name != "skip" || s == EditCourseId then EditOutcome(s, d, [])
    else if s == EditCourseMaxAge then EditMaxAge(checkSkipped, d, Dialogue.Command(name))
    else if d.current.None? then EditOutcome(s, d, [Raised])
    else
      match s
      case EditCourseName =>
        EditOutcome(EditCourseDescription, d.(name := Some(d.current.value.name)), [Tell(AskDescription)])
      case EditCourseDescription =>
        EditOutcome(EditCourseMinAge, d.(description := Some(d.current.value.description)), [Tell(AskMinAge)])
      case EditCourseMinAge =>
        EditOutcome(EditCourseMaxAge, d.(minAge := Some(d.current.value.minAge)), [Tell(AskMaxAge)])
  }

  /** A text answer in the editing conversation. */
  function EditMessage(checkSkipped: bool, env: AdminEnv, s: EditState, d: AdminData, text: string): (o: EditOutcome)
    ensures s == EditIdle ==> o == EditOutcome(s, d, [])
    ensures forall ef :: ef in o.effects && ef.UpdateCourse? ==>
              s == EditCourseMaxAge && o.data == Cleared && ef.row.minAge < ef.row.maxAge
    ensures EditCollected(s, d) ==> EditCollected(o.state, o.data)
  {
    match s
    case EditIdle => EditOutcome(s, d, [])
    case EditCourseId =>
      (match ParseInt(text)
       case None => EditOutcome(EditCourseId, d, [Tell(AskNumber)])
       case Some(id) =>
         (match FindCourse(env.courses, id)
          case None => EditOutcome(EditCourseId, d, [Tell(CourseNotFound)])
          case Some(c) => EditOutcome(EditCourseName, d.(courseId := Some(id), current := Some(c)), [Tell(AskName)])))
    case EditCourseName =>
      var d1 := d.(name := Some(text));
      if d1.current.None? then EditOutcome(s, d1, [Raised])
      else EditOutcome(EditCourseDescription, d1, [Tell(AskDescription)])
    case EditCourseDescription =>
      var d1 := d.(description := Some(text));
      if d1.current.None? then EditOutcome(s, d1, [Raised])
      else EditOutcome(EditCourseMinAge, d1, [Tell(AskMinAge)])
    case EditCourseMinAge =>
      (match CheckMinAge(text)
       case Err(NotANumber) => EditOutcome(EditCourseMinAge, d, [Tell(AskNumber)])
       case Err(_) => EditOutcome(EditCourseMinAge, d, [Tell(NegativeMinAge)])
       case Ok(min) =>
         var d1 := d.(minAge := Some(min));
         if d1.current.None? then EditOutcome(s, d1, [Raised])
         else EditOutcome(EditCourseMaxAge, d1, [Tell(AskMaxAge)]))
    case EditCourseMaxAge => EditMaxAge(checkSkipped, d, Dialogue.Message(text))
  }

  /** One update through the course-editing conversation; `checkSkipped` selects the
      rule for a skipped maximum (false: as the current revision does it). */
  function EditStepWith(checkSkipped: bool, env: AdminEnv, s: EditState, d: AdminData, e: Dialogue.Event): EditOutcome {
    match e
    case Press(_) => EditOutcome(s, d, [])
    case Command(name) => EditCommand(checkSkipped, env, s, d, name)
    case Message(text) => EditMessage(checkSkipped, env, s, d, text)
  }

  /** The current revision's editing step. */
  function EditStep(env: AdminEnv, s: EditState, d: AdminData, e: Dialogue.Event): (o: EditOutcome)
    ensures s == EditIdle && e != Dialogue.Command("edit_course") ==> o == EditOutcome(s, d, [])
    ensures s != EditIdle && e == Dialogue.Command("cancel") ==> o.state == EditIdle && o.data == Cleared
    ensures forall ef :: ef in o.effects && ef.UpdateCourse? ==> s == EditCourseMaxAge && o.data == Cleared
    ensures EditCollected(s, d) ==> EditCollected(o.state, o.data)
  {
    EditStepWith(false, env, s, d, e)
  }

  /** Entered through `/edit_course`, the editing dialogue raises only when the
      database refuses an age outside INTEGER: the picked course and every key
      `get_course_max_age_to_edit` reads are present, so the `UPDATE` parameters always
      exist. */
  lemma EditRaisesOnlyOnOverflow(env: AdminEnv, s: EditState, d: AdminData, e: Dialogue.Event)
    requires EditCollected(s, d)
    ensures var o := EditStep(env, s, d, e);
            Raised in o.effects ==>
              && s == EditCourseMaxAge && o.state == EditCourseMaxAge
              && EditedRow(o.data).Some? && !AgesWithin(EditedRow(o.data).value.1, PgIntegerMin, PgIntegerMax)
    ensures s == EditCourseMaxAge ==> forall n :: EditedRow(d.(maxAge := Some(n))).Some?
  {
    var o := EditStep(env, s, d, e);
    if s == EditCourseMaxAge && (e.Message? || e == Dialogue.Command("skip")) {
      assert o == EditMaxAge(false, d, e);
      if e.Command? {
        assert o == SaveEdit(d.(maxAge := Some(d.current.value.maxAge)));
      } else if ParseInt(e.text).Some? && ParseInt(e.text).value > d.minAge.GetOr(0) {
        assert o == SaveEdit(d.(maxAge := ParseInt(e.text)));
      }
    } else {
      assert Raised !in o.effects;
    }
  }

  /** A maximum of 3000000000 passes the handler's own check but not the INTEGER column:
      the `UPDATE` raises, nothing is written, and the dialogue stays at the maximum with
      the data kept. */
  lemma EditOverflowRaises()
    ensures var c := Course(1, "Робототехника", "", 6, 10);
            var d := AdminData(Some(1), Some(c), Some(c.name), Some(c.description), Some(0), None);
            var o := EditStep(AdminEnv([], [c], 0), EditCourseMaxAge, d, Dialogue.Message("3000000000"));
            o == EditOutcome(EditCourseMaxAge, d.(maxAge := Some(3000000000)), [Raised])
  {
    var c := Course(1, "Робототехника", "", 6, 10);
    var d := AdminData(Some(1), Some(c), Some(c.name), Some(c.description), Some(0), None);
    var e := Dialogue.Message("3000000000");
    ParseThreeBillion();
    assert EditStep(AdminEnv([], [c], 0), EditCourseMaxAge, d, e) == EditMaxAge(false, d, e);
    assert EditMaxAge(false, d, e) == SaveEdit(d.(maxAge := Some(3000000000)));
  }

  lemma ParseThreeBillion()
    ensures ParseInt("3000000000") == Some(3000000000)
  {
    assert NatToString(3) == "3";
    assert NatToString(30) == "30";
    assert NatToString(300) == "300";
    assert NatToString(3000) == "3000";
    assert NatToString(30000) == "30000";
    assert NatToString(300000) == "300000";
    assert NatToString(3000000) == "3000000";
    assert NatToString(30000000) == "30000000";
    assert NatToString(300000000) == "300000000";
    assert NatToString(3000000000) == "3000000000";
    ParseIntRoundTrip(3000000000);
  }

  /** `/skip` keeps the course's current value of the field being asked for. */
  lemma SkipKeepsCurrent(env: AdminEnv, s: EditState, d: AdminData)
    requires EditCollected(s, d) && (s == EditCourseName || s == EditCourseDescription || s == EditCourseMinAge)
    ensures var o := EditStep(env, s, d, Dialogue.Command("skip"));
            var c := d.current.value;
            && (s == EditCourseName ==> o.data == d.(name := Some(c.name)))
            && (s == EditCourseDescription ==> o.data == d.(description := Some(c.description)))
            && (s == EditCourseMinAge ==> o.data == d.(minAge := Some(c.minAge)))
  {
  }

  /** A typed minimum below 0 and a typed maximum not above the minimum are refused
      and asked for again, with nothing stored. */
  lemma EditRejectsBadAges(env: AdminEnv, d: AdminData, text: string)
    requires ParseInt(text).Some?
    ensures ParseInt(text).value < 0 ==>
              EditStep(env, EditCourseMinAge, d, Dialogue.Message(text)) == EditOutcome(EditCourseMinAge, d, [Tell(NegativeMinAge)])
    ensures ParseInt(text).value <= d.minAge.GetOr(0) ==>
              EditStep(env, EditCourseMaxAge, d, Dialogue.Message(text)) == EditOutcome(EditCourseMaxAge, d, [Tell(MaxNotAboveMin)])
  {
    var e := Dialogue.Message(text);
    if ParseInt(text).value < 0 {
      assert EditStep(env, EditCourseMinAge, d, e) == EditMessage(false, env, EditCourseMinAge, d, text);
      assert CheckMinAge(text) == Err(OutOfRange);
    }
    if ParseInt(text).value <= d.minAge.GetOr(0) {
      assert EditStep(env, EditCourseMaxAge, d, e) == EditMaxAge(false, d, e);
    }
  }

  /** The update writes exactly the collected values for the picked course, when the
      ages fit INTEGER; otherwise it raises with the maximum stored and nothing written. */
  lemma EditWritesCollected(env: AdminEnv, d: AdminData, text: string)
    requires EditCollected(EditCourseMaxAge, d)
    requires ParseInt(text).Some? && ParseInt(text).value > d.minAge.value
    ensures var row := CourseRow(d.name.value, d.description.value, d.minAge.value, ParseInt(text).value);
            var o := EditStep(env, EditCourseMaxAge, d, Dialogue.Message(text));
            && (AgesWithin(row, PgIntegerMin, PgIntegerMax) ==>
                  o.effects[0] == UpdateCourse(d.courseId.value, row))
            && (!AgesWithin(row, PgIntegerMin, PgIntegerMax) ==>
                  o == EditOutcome(EditCourseMaxAge, d.(maxAge := ParseInt(text)), [Raised]))
  {
  }

  /** As written, `/skip` at the maximum is not checked against the new minimum: raising
      a course's minimum to 12 and skipping its maximum of 10 saves the range 12..10. */
  lemma SkippedMaximumUnchecked()
    ensures var c := Course(1, "Робототехника", "", 6, 10);
            var d := AdminData(Some(1), Some(c), Some(c.name), Some(c.description), Some(12), None);
            var o := EditStep(AdminEnv([], [c], 0), EditCourseMaxAge, d, Dialogue.Command("skip"));
            && o.state == EditIdle
            && o.effects[0] == UpdateCourse(1, CourseRow(c.name, c.description, 12, 10))
  {
  }

  /** The editing step with the skipped maximum checked like a typed one. */
  function EditStepChecked(env: AdminEnv, s: EditState, d: AdminData, e: Dialogue.Event): (o: EditOutcome)
    ensures forall ef :: ef in o.effects && ef.UpdateCourse? ==> ef.row.minAge < ef.row.maxAge
    ensures EditCollected(s, d) ==> EditCollected(o.state, o.data)
  {
    EditStepWith(true, env, s, d, e)
  }

  /** With the check in place, `/skip` at the maximum is refused exactly when the course's
      current maximum is not above the collected minimum. The current ages were read from
      the INTEGER columns, so they lie in that range, and the minimum is either typed
      (at least 0) or the current one. */
  lemma CheckedSkip(env: AdminEnv, d: AdminData)
    requires EditCollected(EditCourseMaxAge, d)
    requires PgIntegerMin <= d.current.value.minAge && d.current.value.maxAge <= PgIntegerMax
    requires d.minAge.value >= 0 || d.minAge == Some(d.current.value.minAge)
    ensures EditStepChecked(env, EditCourseMaxAge, d, Dialogue.Command("skip")).state == EditCourseMaxAge
            <==> d.current.value.maxAge <= d.minAge.value
  {
  }
}
