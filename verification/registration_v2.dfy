/** The registration conversation of the current revision: the menu is every
    age-eligible course, a phone step with no such course ends the conversation, and
    each administrator notice is sent under its own `try`. */
module RegistrationV2 {
  import opened Wrappers
  import opened Text
  import opened Validators
  import opened Catalogue
  import opened Notify
  import opened Dialogue

  /** The keyboard after a valid phone: one button per eligible course in query order,
      then "exit". */
  function Menu(eligible: seq<Course>): (r: seq<Button>)
    ensures |r| == |eligible| + 1 && r[|r| - 1] == ExitButton
    ensures r[..|eligible|] == CourseButtons(eligible)
  {
    CourseButtons(eligible) + [ExitButton]
  }

  /** "Exit" appears exactly once, as the last button; "choose manually" is never
      offered; the other buttons are the eligible courses', one each, in query order. */
  lemma MenuShape(eligible: seq<Course>)
    ensures var r := Menu(eligible);
            && r[|r| - 1] == ExitButton
            && (forall k :: 0 <= k < |r| - 1 ==> r[k] != ExitButton)
            && ChooseManuallyButton !in r
            && (forall k :: 0 <= k < |eligible| ==> r[k] == CourseButton(eligible[k]))
  {
    var r := Menu(eligible);
    forall k | 0 <= k < |eligible|
      ensures r[k] == CourseButton(eligible[k]) && r[k] != ExitButton && r[k] != ChooseManuallyButton
    {
      assert r[..|eligible|][k] == r[k];
      CourseButtonsAreNotFixed(eligible[k]);
    }
  }

  /** With unique course ids, pressing any menu button other than "exit" moves to the
      confirmation of the eligible course that button was built from, storing its id. */
  lemma MenuButtonsSelect(env: Env, d: UserData, age: int)
    requires UniqueIds(env.courses)
    ensures var eligible := AgeEligible(env.courses, age);
            var r := Menu(eligible);
            forall k :: 0 <= k < |eligible| ==>
              Step(env, CourseSelection, d, Press(r[k].data))
              == Outcome(Confirmation, d.(selectedCourse := Some(eligible[k].id)),
                         [Say(ConfirmCourse(eligible[k], [YesButton, NoButton, ExitButton]))])
  {
    var eligible := AgeEligible(env.courses, age);
    MenuShape(eligible);
    forall k | 0 <= k < |eligible|
      ensures Step(env, CourseSelection, d, Press(Menu(eligible)[k].data))
              == Outcome(Confirmation, d.(selectedCourse := Some(eligible[k].id)),
                         [Say(ConfirmCourse(eligible[k], [YesButton, NoButton, ExitButton]))])
    {
      assert eligible[k] in eligible;
      PressingCourseButton(env, d, eligible[k]);
    }
  }

  /** `get_phone`. */
  function PhoneStep(env: Env, d: UserData, text: string): (o: Outcome)
    ensures !IsValidPhone(text) ==> o == Outcome(Phone, d, [Say(PhoneRejected)])
    ensures IsValidPhone(text) ==> o == PhoneAccepted(env, d, text)
    ensures (o.state == Phone || o.state == CourseSelection || o.state == Idle)
    ensures forall k :: 0 <= k < |o.effects| ==> NotAWrite(o.effects[k])
  {
    if !IsValidPhone(text) then Outcome(Phone, d, [Say(PhoneRejected)])
    else PhoneAccepted(env, d, text)
  }

  /** `get_phone` once the pattern accepted the text: the phone is stored, then the
      menu of eligible courses is offered, or the conversation ends when there is none. */
  function PhoneAccepted(env: Env, d: UserData, text: string): (o: Outcome)
    ensures o.data == d.(phone := Some(text)) && o.data != Empty
    ensures d.childAge.None? ==> o == Crashed(Phone, o.data)
    ensures d.childAge.Some? ==>
              (o.state == CourseSelection <==> exists c :: c in env.courses && FitsAge(c, d.childAge.value))
    ensures d.childAge.Some? && o.state != CourseSelection ==> o.state == Idle
    ensures o.state == CourseSelection ==>
              o.effects == [Say(CourseMenu(Menu(AgeEligible(env.courses, d.childAge.value))))]
    ensures (o.state == Phone || o.state == CourseSelection || o.state == Idle)
    ensures forall k :: 0 <= k < |o.effects| ==> NotAWrite(o.effects[k])
  {
    var d1 := d.(phone := Some(text));
    if d1.childAge.None? then Crashed(Phone, d1)
    else
      var eligible := AgeEligible(env.courses, d1.childAge.value);
      AgeEligibleEmpty(env.courses, d1.childAge.value);
      if eligible == [] then Outcome(Idle, d1, [Say(NoCoursesForAge)])
      else Outcome(CourseSelection, d1, [Say(CourseMenu(Menu(eligible)))])
  }

  /** A valid phone leads to the menu of eligible courses when there is one, and
      otherwise ends the conversation while keeping every answer collected so far. */
  lemma PhoneStepRule(env: Env, d: UserData, text: string)
    requires Collected(Phone, d) && IsValidPhone(text)
    ensures var o := PhoneStep(env, d, text);
            var eligible := AgeEligible(env.courses, d.childAge.value);
            && (eligible != [] ==> o.state == CourseSelection && o.effects == [Say(CourseMenu(Menu(eligible)))])
            && (eligible == [] ==> o.state == Idle && o.data == d.(phone := Some(text)) && o.data != Empty)
            && (o.state == CourseSelection <==> exists c :: c in env.courses && FitsAge(c, d.childAge.value))
  {
    var o := PhoneAccepted(env, d, text);
    assert PhoneStep(env, d, text) == o;
    AgeEligibleEmpty(env.courses, d.childAge.value);
  }

  /** `select_course`. */
  function SelectCourse(env: Env, d: UserData, data: string): (o: Outcome)
    ensures data == "exit" ==> o == Outcome(Idle, Empty, [Say(Finished)])
    ensures data != "exit" ==> OnlyItsField(CourseSelection, d, o.data)
    ensures o.state == Confirmation <==>
              data != "exit" && ParseCourseToken(data).Some?
              && FindCourse(env.courses, ParseCourseToken(data).value).Some?
    ensures o.state == Confirmation ==> o.data == d.(selectedCourse := ParseCourseToken(data))
    ensures (o.state == Idle || o.state == CourseSelection || o.state == Confirmation)
    ensures forall k :: 0 <= k < |o.effects| ==> NotAWrite(o.effects[k])
  {
    if data == "exit" then Outcome(Idle, Empty, [Say(Finished)])
    else
      PickCourse(env.courses, d, data)
  }

  /** `confirm_signup`. The booking is committed before the course is read back for
      the notice, and nothing is committed when the `trial_lessons` insert is refused. */
  function ConfirmSignup(env: Env, d: UserData, data: string): (o: Outcome)
    ensures data != "confirm_yes" ==> o.state == Idle && o.data == Empty && Writes(o.effects) == []
    ensures Writes(o.effects) == [] || (IsBooking(env, d, Writes(o.effects)) && !env.locationRequired)
    ensures o.state == Confirmation ==> o.data == d && Raised in o.effects
    ensures o.state != Confirmation ==> o.state == Idle && o.data == Empty
    ensures data == "confirm_yes" && UserRowOf(env.chatId, d).Some? && d.selectedCourse.Some?
            && FindCourse(env.courses, d.selectedCourse.value).Some? && !env.locationRequired ==>
              o.state == Idle && IsBooking(env, d, Writes(o.effects))
  {
    if data == "exit" then
      NoWrites([Say(Finished)]);
      Outcome(Idle, Empty, [Say(Finished)])
    else if data == "confirm_yes" then
      match UserRowOf(env.chatId, d)
      case None => NoWrites([Raised]); Crashed(Confirmation, d)
      case Some(row) =>
        if d.selectedCourse.None? || env.locationRequired then NoWrites([Raised]); Crashed(Confirmation, d)
        else
          var booking := [InsertUser(row), InsertTrial(d.selectedCourse.value, false)];
          match FindCourse(env.courses, d.selectedCourse.value)
          case None =>
            BookingWrites(row, d.selectedCourse.value, [Raised]);
            Outcome(Confirmation, d, booking + [Raised])
          case Some(c) =>
            var tail := Notices(NotifyEach(env.admins, env.unreachable), row, c) + [Say(Thanks)];
            BookingWrites(row, d.selectedCourse.value, tail);
            Outcome(Idle, Empty, booking + tail)
    else
      NoWrites([Say(MaybeLater)]);
      Outcome(Idle, Empty, [Say(MaybeLater)])
  }

  /** The callback patterns registered for the two button states. */
  predicate CourseSelectionPattern(data: string) {
    StartsWith(data, "course_") || WholeMatch(data, "exit")
  }

  predicate ConfirmationPattern(data: string) {
    WholeMatch(data, "confirm_yes") || WholeMatch(data, "confirm_no") || WholeMatch(data, "exit")
  }

  /** One update through the conversation handler and the global `/cancel`. */
  function Step(env: Env, s: State, d: UserData, e: Event): (o: Outcome)
    ensures o.state != LocationSelection || s == LocationSelection
    ensures e == Command("cancel") ==> o.state == Idle && o.data == Empty
    ensures s == Idle && e != Command("start") && e != Command("cancel") ==> o == Ignored(s, d)
    ensures Writes(o.effects) != [] ==>
              s == Confirmation && e == Press("confirm_yes") && IsBooking(env, d, Writes(o.effects))
              && !env.locationRequired
  {
    match e
    case Command(name) =>
      if name == "cancel" then NoWrites(CancelStep().effects); CancelStep()
      else if name == "start" then NoWrites(StartStep(s, d).effects); StartStep(s, d)
      else NoWrites([]); Ignored(s, d)
    case Message(text) =>
      if IsTextState(s) then NoWrites(TextStep(s, d, text).effects); TextStep(s, d, text)
      else if s == Phone then NoWrites(PhoneStep(env, d, text).effects); PhoneStep(env, d, text)
      else NoWrites([]); Ignored(s, d)
    case Press(data) =>
      if s == CourseSelection && CourseSelectionPattern(data) then
        NoWrites(SelectCourse(env, d, data).effects); SelectCourse(env, d, data)
      else if s == Confirmation && ConfirmationPattern(data) then ConfirmSignup(env, d, data)
      else NoWrites([]); Ignored(s, d)
  }

  /** Every step keeps the keys each state relies on; `LocationSelection` is never
      entered. */
  lemma StepKeepsCollected(env: Env, s: State, d: UserData, e: Event)
    requires Collected(s, d)
    ensures Collected(Step(env, s, d, e).state, Step(env, s, d, e).data)
  {
    match e
    case Command(name) =>
    case Message(text) =>
      if IsTextState(s) {
        TextStepKeepsCollected(s, d, text);
      } else if s == Phone {
        assert Step(env, s, d, e) == PhoneStep(env, d, text);
        PhoneKeepsCollected(env, d, text);
      }
    case Press(data) =>
      if s == CourseSelection && CourseSelectionPattern(data) {
        assert Step(env, s, d, e) == SelectCourse(env, d, data);
        SelectKeepsCollected(env, d, data);
      } else if s == Confirmation && ConfirmationPattern(data) {
        assert Step(env, s, d, e) == ConfirmSignup(env, d, data);
        ConfirmKeepsCollected(env, d, data);
      }
  }

  lemma PhoneKeepsCollected(env: Env, d: UserData, text: string)
    requires Collected(Phone, d)
    ensures Collected(PhoneStep(env, d, text).state, PhoneStep(env, d, text).data)
  {
    var o := PhoneStep(env, d, text);
    if IsValidPhone(text) {
      StoringPhoneKeepsCollected(o.state, d, text);
    }
  }

  lemma SelectKeepsCollected(env: Env, d: UserData, data: string)
    requires Collected(CourseSelection, d)
    ensures Collected(SelectCourse(env, d, data).state, SelectCourse(env, d, data).data)
  {
    var o := SelectCourse(env, d, data);
    if data != "exit" {
      var p := PickCourse(env.courses, d, data);
      assert o == p;
      assert p.data == d.(selectedCourse := p.data.selectedCourse);
      StoringCourseKeepsCollected(p.state, d, p.data.selectedCourse);
    }
  }

  lemma ConfirmKeepsCollected(env: Env, d: UserData, data: string)
    requires Collected(Confirmation, d)
    ensures Collected(ConfirmSignup(env, d, data).state, ConfirmSignup(env, d, data).data)
  {
  }

  /** Pressing the button of an offered course selects exactly that course. */
  lemma PressingCourseButton(env: Env, d: UserData, c: Course)
    requires UniqueIds(env.courses) && c in env.courses
    ensures Step(env, CourseSelection, d, Press(CourseButton(c).data))
            == Outcome(Confirmation, d.(selectedCourse := Some(c.id)),
                       [Say(ConfirmCourse(c, [YesButton, NoButton, ExitButton]))])
  {
    CourseButtonsAreNotFixed(c);
    CourseButtonSelects(env.courses, c);
  }

  /** A confirmed signup ends the conversation whatever happens to the notices, so a
      second "yes" (a stale button) finds no conversation and books nothing. */
  lemma SingleBooking(env: Env, d: UserData)
    requires Collected(Confirmation, d)
    requires FindCourse(env.courses, d.selectedCourse.value).Some? && !env.locationRequired
    ensures var first := Step(env, Confirmation, d, Press("confirm_yes"));
            var second := Step(env, first.state, first.data, Press("confirm_yes"));
            && first.state == Idle && first.data == Empty
            && IsBooking(env, d, Writes(first.effects))
            && Writes(second.effects) == []
  {
    ConfirmYesStep(env, d);
  }

  /** Every admin is sent the notice of a confirmed signup, in order, whichever of them
      cannot be reached. */
  lemma EveryAdminTried(env: Env, d: UserData)
    requires Collected(Confirmation, d)
    requires FindCourse(env.courses, d.selectedCourse.value).Some? && !env.locationRequired
    ensures var o := Step(env, Confirmation, d, Press("confirm_yes"));
            var row := UserRowOf(env.chatId, d).value;
            var c := FindCourse(env.courses, d.selectedCourse.value).value;
            o.effects == [InsertUser(row), InsertTrial(c.id, false)]
                         + Notices(NotifyEach(env.admins, env.unreachable), row, c) + [Say(Thanks)]
  {
    ConfirmYesStep(env, d);
    assert FindCourse(env.courses, d.selectedCourse.value).value.id == d.selectedCourse.value;
  }

  /** A "yes" press in `Confirmation` is handled by `confirm_signup`. */
  lemma ConfirmYesStep(env: Env, d: UserData)
    ensures Step(env, Confirmation, d, Press("confirm_yes")) == ConfirmSignup(env, d, "confirm_yes")
  {
    assert WholeMatch("confirm_yes", "confirm_yes");
  }

  /** With the schema's `location_id NOT NULL`, the trial insert that omits the column is
      refused: "yes" commits nothing, and the conversation stays in `Confirmation`. */
  lemma LocationColumnBlocksBooking(env: Env, s: State, d: UserData, e: Event)
    requires env.locationRequired
    ensures Writes(Step(env, s, d, e).effects) == []
    ensures s == Confirmation && e == Press("confirm_yes") ==>
              Step(env, s, d, e) == Crashed(Confirmation, d)
  {
    assert WholeMatch("confirm_yes", "confirm_yes");
  }

  /** The conversation handler of this revision, as a step function. */
  function Handler(env: Env): (State, UserData, Event) -> Outcome {
    (s, d, e) => Step(env, s, d, e)
  }

  /** Running a conversation keeps `Collected` at every point, so it holds at the end. */
  lemma {:induction false} RunKeepsCollected(env: Env, s: State, d: UserData, events: seq<Event>)
    requires Collected(s, d)
    ensures Collected(Run(Handler(env), s, d, events).state, Run(Handler(env), s, d, events).data)
    decreases |events|
  {
    if events != [] {
      StepKeepsCollected(env, s, d, events[0]);
      var first := Step(env, s, d, events[0]);
      RunKeepsCollected(env, first.state, first.data, events[1..]);
    }
  }

  /** However the updates arrive, every `users` row the conversation writes carries a
      phone the pattern accepted and an age in 6..18. */
  lemma {:induction false} RunWritesValidated(env: Env, s: State, d: UserData, events: seq<Event>)
    requires Collected(s, d)
    ensures ValidatedWrites(Writes(Run(Handler(env), s, d, events).effects))
    decreases |events|
  {
    if events != [] {
      var e := events[0];
      var first := Step(env, s, d, e);
      assert Handler(env)(s, d, e) == first;
      if Writes(first.effects) != [] {
        BookingValidated(env, d, Writes(first.effects));
      }
      StepKeepsCollected(env, s, d, e);
      RunWritesValidated(env, first.state, first.data, events[1..]);
      assert [e] + events[1..] == events;
      RunCons(Handler(env), s, d, e, events[1..]);
    }
  }

  /** The four text answers, each valid, lead from `/start` to the phone question with
      every answer stored. */
  lemma TextAnswers(env: Env, child: string, age: int, interests: string, parent: string)
    requires MinAge <= age <= MaxAge
    ensures var d1 := Empty.(childName := Some(child));
            var d2 := d1.(childAge := Some(age));
            var d3 := d2.(childInterests := Some(interests));
            var d4 := d3.(parentName := Some(parent));
            && Step(env, Idle, Empty, Command("start")) == Outcome(Name, Empty, [Say(Greeting)])
            && Step(env, Name, Empty, Message(child)).state == Age
            && Step(env, Name, Empty, Message(child)).data == d1
            && Step(env, Age, d1, Message(IntToString(age))).state == Interests
            && Step(env, Age, d1, Message(IntToString(age))).data == d2
            && Step(env, Interests, d2, Message(interests)).state == ParentName
            && Step(env, Interests, d2, Message(interests)).data == d3
            && Step(env, ParentName, d3, Message(parent)).state == Phone
            && Step(env, ParentName, d3, Message(parent)).data == d4
  {
    ValidateAgeAcceptsRange(age);
  }

  /** The button steps of a successful signup: a valid phone reaches the menu, the
      course button selects the course, "yes" books it and ends. */
  lemma ButtonAnswers(env: Env, d4: UserData, phone: string, c: Course)
    requires Collected(Phone, d4) && !env.locationRequired
    requires UniqueIds(env.courses) && c in env.courses && FitsAge(c, d4.childAge.value)
    requires IsValidPhone(phone)
    ensures var d5 := d4.(phone := Some(phone));
            var d6 := d5.(selectedCourse := Some(c.id));
            && Step(env, Phone, d4, Message(phone)).state == CourseSelection
            && Step(env, Phone, d4, Message(phone)).data == d5
            && Step(env, CourseSelection, d5, Press(CourseButton(c).data)).state == Confirmation
            && Step(env, CourseSelection, d5, Press(CourseButton(c).data)).data == d6
            && Step(env, Confirmation, d6, Press("confirm_yes")).state == Idle
            && Step(env, Confirmation, d6, Press("confirm_yes")).data == Empty
            && IsBooking(env, d6, Writes(Step(env, Confirmation, d6, Press("confirm_yes")).effects))
  {
    var d5 := d4.(phone := Some(phone));
    var d6 := d5.(selectedCourse := Some(c.id));
    PhoneReachesMenu(env, d4, phone, c);
    PressingCourseButton(env, d5, c);
    FindCourseUnique(env.courses, c);
    SingleBooking(env, d6);
  }

  /** A valid phone, when the catalogue holds a course for the child's age, opens the
      course menu with the phone stored. */
  lemma PhoneReachesMenu(env: Env, d: UserData, phone: string, c: Course)
    requires Collected(Phone, d) && c in env.courses && FitsAge(c, d.childAge.value)
    requires IsValidPhone(phone)
    ensures Step(env, Phone, d, Message(phone)).state == CourseSelection
    ensures Step(env, Phone, d, Message(phone)).data == d.(phone := Some(phone))
  {
    PhoneStepRule(env, d, phone);
  }

  /** The updates that answer the four text questions, from `/start` on. */
  function TextEvents(child: string, age: int, interests: string, parent: string): seq<Event> {
    [Command("start"), Message(child), Message(IntToString(age)), Message(interests), Message(parent)]
  }

  /** The updates after the text answers: the phone, the course button and "yes". */
  function ButtonEvents(phone: string, c: Course): seq<Event> {
    [Message(phone), Press(CourseButton(c).data), Press("confirm_yes")]
  }

  /** The updates of a complete signup. */
  function SignupEvents(child: string, age: int, interests: string, parent: string,
                        phone: string, c: Course): seq<Event> {
    TextEvents(child, age, interests, parent) + ButtonEvents(phone, c)
  }

  /** The whole dialogue, answered correctly from a fresh start, ends with the data
      cleared and exactly one booking of the chosen course, made from the answers. */
  lemma HappyPath(env: Env, child: string, age: int, interests: string, parent: string,
                  phone: string, c: Course)
    requires UniqueIds(env.courses) && c in env.courses && FitsAge(c, age)
    requires MinAge <= age <= MaxAge && IsValidPhone(phone) && !env.locationRequired
    ensures var o := Run(Handler(env), Idle, Empty, SignupEvents(child, age, interests, parent, phone, c));
            && o.state == Idle && o.data == Empty
            && Writes(o.effects) == [InsertUser(UserRow(env.chatId, parent, phone, child, age, interests)),
                                     InsertTrial(c.id, false)]
  {
    PhoneParseSound(phone);
    SignupWithParts(env, child, age, interests, parent, ParsePhone(phone).value, c);
  }

  /** `HappyPath` for a phone given as the parts the pattern reads. */
  lemma SignupWithParts(env: Env, child: string, age: int, interests: string, parent: string,
                        p: PhoneParts, c: Course)
    requires UniqueIds(env.courses) && c in env.courses && FitsAge(c, age)
    requires MinAge <= age <= MaxAge && WellFormedPhone(p) && !env.locationRequired
    ensures var o := Run(Handler(env), Idle, Empty, SignupEvents(child, age, interests, parent, RenderPhone(p), c));
            && o.state == Idle && o.data == Empty
            && Writes(o.effects) == [InsertUser(UserRow(env.chatId, parent, RenderPhone(p), child, age, interests)),
                                     InsertTrial(c.id, false)]
  {
    var d4 := Empty.(childName := Some(child), childAge := Some(age),
                     childInterests := Some(interests), parentName := Some(parent));
    var a := TextEvents(child, age, interests, parent);
    var phone := RenderPhone(p);
    TextRun(env, child, age, interests, parent);
    FinishSignup(env, a, d4, p, c);
    AnswersBooking(env, d4, child, age, interests, parent, phone, c.id,
                   Writes(Run(Handler(env), Idle, Empty, a + ButtonEvents(phone, c)).effects));
  }

  /** After any updates that reach the phone question quietly, a well-formed phone, the
      button of a course for the child's age and "yes" end the conversation with that
      course booked from the collected answers. */
  lemma FinishSignup(env: Env, a: seq<Event>, d4: UserData, p: PhoneParts, c: Course)
    requires Run(Handler(env), Idle, Empty, a).state == Phone && Run(Handler(env), Idle, Empty, a).data == d4
    requires Writes(Run(Handler(env), Idle, Empty, a).effects) == []
    requires Collected(Phone, d4) && WellFormedPhone(p) && !env.locationRequired
    requires UniqueIds(env.courses) && c in env.courses && FitsAge(c, d4.childAge.value)
    ensures var o := Run(Handler(env), Idle, Empty, a + ButtonEvents(RenderPhone(p), c));
            && o.state == Idle && o.data == Empty
            && IsBooking(env, d4.(phone := Some(RenderPhone(p)), selectedCourse := Some(c.id)), Writes(o.effects))
  {
    PhoneRenderParse(p);
    ButtonRun(env, d4, RenderPhone(p), c);
    RunThrough(Handler(env), Idle, Empty, a, ButtonEvents(RenderPhone(p), c), Phone, d4);
  }

  /** The booking made from the four text answers and the phone inserts exactly the row
      those answers spell out. */
  lemma AnswersBooking(env: Env, d4: UserData, child: string, age: int, interests: string, parent: string,
                       phone: string, id: int, writes: seq<Effect>)
    requires d4 == Empty.(childName := Some(child), childAge := Some(age),
                          childInterests := Some(interests), parentName := Some(parent))
    requires IsBooking(env, d4.(phone := Some(phone), selectedCourse := Some(id)), writes)
    ensures writes == [InsertUser(UserRow(env.chatId, parent, phone, child, age, interests)), InsertTrial(id, false)]
  {
  }

  /** The text answers reach the phone question with every answer stored and nothing
      written. */
  lemma TextRun(env: Env, child: string, age: int, interests: string, parent: string)
    requires MinAge <= age <= MaxAge
    ensures var o := Run(Handler(env), Idle, Empty, TextEvents(child, age, interests, parent));
            && o.state == Phone
            && o.data == Empty.(childName := Some(child), childAge := Some(age),
                                childInterests := Some(interests), parentName := Some(parent))
            && Writes(o.effects) == []
  {
    var d1 := Empty.(childName := Some(child));
    var d2 := d1.(childAge := Some(age));
    var d3 := d2.(childInterests := Some(interests));
    var d4 := d3.(parentName := Some(parent));
    TextAnswers(env, child, age, interests, parent);
    var h := Handler(env);
    var r5: seq<Event> := [];
    var r4 := [Message(parent)] + r5;
    var r3 := [Message(interests)] + r4;
    var r2 := [Message(IntToString(age))] + r3;
    var r1 := [Message(child)] + r2;
    var r0 := [Command("start")] + r1;
    TextEventsShape(child, age, interests, parent);
    assert Run(h, Phone, d4, r5) == Outcome(Phone, d4, []);
    RunSkip(h, ParentName, d3, Message(parent), r5, Phone, d4);
    RunSkip(h, Interests, d2, Message(interests), r4, ParentName, d3);
    RunSkip(h, Age, d1, Message(IntToString(age)), r3, Interests, d2);
    RunSkip(h, Name, Empty, Message(child), r2, Age, d1);
    RunSkip(h, Idle, Empty, Command("start"), r1, Name, Empty);
  }

  lemma TextEventsShape(child: string, age: int, interests: string, parent: string)
    ensures TextEvents(child, age, interests, parent)
            == [Command("start")] + ([Message(child)] + ([Message(IntToString(age))]
               + ([Message(interests)] + ([Message(parent)] + []))))
  {
  }

  /** From the phone question, a valid phone, the course button and "yes" end the
      conversation with the booking written. */
  lemma ButtonRun(env: Env, d4: UserData, phone: string, c: Course)
    requires Collected(Phone, d4) && !env.locationRequired
    requires UniqueIds(env.courses) && c in env.courses && FitsAge(c, d4.childAge.value)
    requires IsValidPhone(phone)
    ensures var o := Run(Handler(env), Phone, d4, ButtonEvents(phone, c));
            var d6 := d4.(phone := Some(phone), selectedCourse := Some(c.id));
            && o.state == Idle && o.data == Empty
            && IsBooking(env, d6, Writes(o.effects))
  {
    var d5 := d4.(phone := Some(phone));
    var d6 := d5.(selectedCourse := Some(c.id));
    ButtonAnswers(env, d4, phone, c);
    var r7 := [Press("confirm_yes")];
    var r6 := [Press(CourseButton(c).data)] + r7;
    var r5 := [Message(phone)] + r6;
    ButtonEventsShape(phone, c);
    var h := Handler(env);
    RunSingle(h, Confirmation, d6, Press("confirm_yes"));
    RunSkip(h, CourseSelection, d5, Press(CourseButton(c).data), r7, Confirmation, d6);
    RunSkip(h, Phone, d4, Message(phone), r6, CourseSelection, d5);
  }

  lemma ButtonEventsShape(phone: string, c: Course)
    ensures ButtonEvents(phone, c)
            == [Message(phone)] + ([Press(CourseButton(c).data)] + [Press("confirm_yes")])
  {
  }
}
