/** The registration conversation of the older revision: interest-based recommendation
    after the phone number, a "choose manually" button, and a notification loop whose
    first failing send escapes the handler. */
module RegistrationV1 {
  import opened Wrappers
  import opened Text
  import opened Sequences
  import opened Validators
  import opened Catalogue
  import opened Recommend
  import opened Notify
  import opened Dialogue

  /** The keyboard after a valid phone: the recommended courses and "choose manually"
      when there are recommendations, otherwise every age-eligible course; "exit" last. */
  function Menu(eligible: seq<Course>, recommended: seq<Course>): (r: seq<Button>)
    ensures |r| >= 1 && r[|r| - 1] == ExitButton
    ensures recommended != [] ==>
              |r| == |recommended| + 2 && r[..|recommended|] == CourseButtons(recommended)
              && r[|recommended|] == ChooseManuallyButton
    ensures recommended == [] ==> |r| == |eligible| + 1 && r[..|eligible|] == CourseButtons(eligible)
  {
    if recommended != [] then CourseButtons(recommended) + [ChooseManuallyButton, ExitButton]
    else CourseButtons(eligible) + [ExitButton]
  }

  /** "Choose manually" is on the menu exactly when something was recommended, "exit"
      exactly once, and every course button belongs to an age-eligible course. */
  lemma MenuShape(eligible: seq<Course>, recommended: seq<Course>)
    requires IsSubsequence(recommended, eligible)
    ensures ChooseManuallyButton in Menu(eligible, recommended) <==> recommended != []
    ensures forall k :: 0 <= k < |Menu(eligible, recommended)| - 1 ==>
              Menu(eligible, recommended)[k] != ExitButton
    ensures forall b :: b in Menu(eligible, recommended) ==>
              b == ExitButton || b == ChooseManuallyButton || exists c :: c in eligible && b == CourseButton(c)
  {
    var r := Menu(eligible, recommended);
    var shown := if recommended != [] then recommended else eligible;
    SubsequenceMembers(recommended, eligible);
    forall k | 0 <= k < |shown|
      ensures r[k] == CourseButton(shown[k]) && r[k] != ExitButton && r[k] != ChooseManuallyButton
    {
      assert r[..|shown|][k] == r[k];
      CourseButtonsAreNotFixed(shown[k]);
    }
    forall b | b in r
      ensures b == ExitButton || b == ChooseManuallyButton || exists c :: c in eligible && b == CourseButton(c)
    {
      var k :| 0 <= k < |r| && r[k] == b;
      if k < |shown| {
        assert shown[k] in eligible;
      }
    }
  }

  /** `get_phone`. */
  function PhoneStep(env: Env, d: UserData, text: string): (o: Outcome)
    ensures !IsValidPhone(text) ==> o == Outcome(Phone, d, [Say(PhoneRejected)])
    ensures IsValidPhone(text) ==> o == PhoneAccepted(env, d, text)
    ensures (o.state == Phone || o.state == CourseSelection)
    ensures forall k :: 0 <= k < |o.effects| ==> NotAWrite(o.effects[k])
  {
    if !IsValidPhone(text) then Outcome(Phone, d, [Say(PhoneRejected)])
    else PhoneAccepted(env, d, text)
  }

  /** `get_phone` once the pattern accepted the text: the phone is stored, and the menu
      of age-eligible courses, recommended ones first, is offered even when it holds
      no course at all. */
  function PhoneAccepted(env: Env, d: UserData, text: string): (o: Outcome)
    ensures o.data == d.(phone := Some(text))
    ensures d.childAge.None? || d.childInterests.None? ==> o == Crashed(Phone, o.data)
    ensures d.childAge.Some? && d.childInterests.Some? ==>
              var eligible := AgeEligible(env.courses, d.childAge.value);
              var recommended := Recommended(eligible, d.childInterests.value);
              && o.state == CourseSelection
              && Say(CourseMenu(Menu(eligible, recommended))) in o.effects
    ensures (o.state == Phone || o.state == CourseSelection)
    ensures forall k :: 0 <= k < |o.effects| ==> NotAWrite(o.effects[k])
  {
    var d1 := d.(phone := Some(text));
    if d1.childAge.None? || d1.childInterests.None? then Crashed(Phone, d1)
    else
      var eligible := AgeEligible(env.courses, d1.childAge.value);
      var recommended := Recommended(eligible, d1.childInterests.value);
      var intro := if recommended != [] then InterestsMatched else NoInterestMatch;
      Outcome(CourseSelection, d1, [Say(intro), Say(CourseMenu(Menu(eligible, recommended)))])
  }

  /** With the earlier answers collected, a valid phone always reaches the course menu
      built from the catalogue (even an empty one: the menu is then just "exit"). */
  lemma PhoneStepOffersMenu(env: Env, d: UserData, text: string)
    requires Collected(Phone, d) && IsValidPhone(text)
    ensures PhoneStep(env, d, text).state == CourseSelection
    ensures var eligible := AgeEligible(env.courses, d.childAge.value);
            var recommended := Recommended(eligible, d.childInterests.value);
            Say(CourseMenu(Menu(eligible, recommended))) in PhoneStep(env, d, text).effects
  {
    var o := PhoneAccepted(env, d, text);
    assert PhoneStep(env, d, text) == o;
  }

  /** `select_course`. */
  function SelectCourse(env: Env, d: UserData, data: string): (o: Outcome)
    ensures data == "exit" ==> o == Outcome(Idle, Empty, [Say(Finished)])
    ensures o.state == Confirmation ==>
              ParseCourseToken(data).Some? && o.data == d.(selectedCourse := ParseCourseToken(data))
              && FindCourse(env.courses, ParseCourseToken(data).value).Some?
    ensures (o.state == Idle || o.state == CourseSelection || o.state == Confirmation)
    ensures forall k :: 0 <= k < |o.effects| ==> NotAWrite(o.effects[k])
    ensures OnlyItsField(CourseSelection, d, o.data) || o.data == Empty
  {
    if data == "exit" then Outcome(Idle, Empty, [Say(Finished)])
    else if data == "choose_manually" then
      if d.childAge.None? then Crashed(CourseSelection, d)
      else
        var eligible := AgeEligible(env.courses, d.childAge.value);
        if eligible == [] then Outcome(Idle, d, [Say(NoCoursesForAge)])
        else Outcome(CourseSelection, d, [Say(AllCoursesForAge(CourseButtons(eligible) + [ExitButton]))])
    else
      PickCourse(env.courses, d, data)
  }

  /** "Choose manually" re-offers every age-eligible course and stays, or ends without
      clearing the data when there is none. */
  lemma ChooseManually(env: Env, d: UserData)
    requires Collected(CourseSelection, d)
    ensures var o := SelectCourse(env, d, "choose_manually");
            var eligible := AgeEligible(env.courses, d.childAge.value);
            && o.data == d
            && (eligible == [] ==> o.state == Idle)
            && (eligible != [] ==> o.state == CourseSelection
                                   && o.effects == [Say(AllCoursesForAge(CourseButtons(eligible) + [ExitButton]))])
  {
  }

  /** `confirm_signup`. */
  function ConfirmSignup(env: Env, d: UserData, data: string): (o: Outcome)
    ensures data != "confirm_yes" ==> o.state == Idle && o.data == Empty && Writes(o.effects) == []
    ensures Writes(o.effects) == [] || IsBooking(env, d, Writes(o.effects))
    ensures o.state == Confirmation ==> o.data == d && Raised in o.effects
    ensures o.state != Confirmation ==> o.state == Idle && o.data == Empty
    ensures data == "confirm_yes" && UserRowOf(env.chatId, d).Some? && d.selectedCourse.Some?
            && FindCourse(env.courses, d.selectedCourse.value).Some? ==>
              IsBooking(env, d, Writes(o.effects))
              && (o.state == Confirmation <==> exists a :: a in env.admins && a in env.unreachable)
  {
    if data == "exit" then
      NoWrites([Say(Finished)]);
      Outcome(Idle, Empty, [Say(Finished)])
    else if data == "confirm_yes" then
      match UserRowOf(env.chatId, d)
      case None => NoWrites([Raised]); Crashed(Confirmation, d)
      case Some(row) =>
        if d.selectedCourse.None? then NoWrites([Raised]); Crashed(Confirmation, d)
        else
          match FindCourse(env.courses, d.selectedCourse.value)
          case None => NoWrites([Raised]); Crashed(Confirmation, d)
          case Some(c) =>
            var booking := [InsertUser(row), InsertTrial(d.selectedCourse.value, false)];
            var sent := NotifyUntilFailure(env.admins, env.unreachable);
            var tail := Notices(sent.0, row, c) + (if sent.1 then [Raised] else [Say(Thanks)]);
            BookingWrites(row, d.selectedCourse.value, tail);
            assert booking + tail == [InsertUser(row), InsertTrial(d.selectedCourse.value, false)] + tail;
            if sent.1 then Outcome(Confirmation, d, booking + tail)
            else Outcome(Idle, Empty, booking + tail)
    else
      NoWrites([Say(MaybeLater)]);
      Outcome(Idle, Empty, [Say(MaybeLater)])
  }

  /** The callback patterns registered for the two button states. */
  predicate CourseSelectionPattern(data: string) {
    StartsWith(data, "course_") || WholeMatch(data, "choose_manually") || WholeMatch(data, "exit")
  }

  predicate ConfirmationPattern(data: string) {
    WholeMatch(data, "confirm_yes") || WholeMatch(data, "confirm_no") || WholeMatch(data, "exit")
  }

  /** One update through the conversation handler and the global `/cancel`. */
  function Step(env: Env, s: State, d: UserData, e: Event): (o: Outcome)
    ensures o.state != LocationSelection || s == LocationSelection
    ensures e == Command("cancel") ==> o.state == Idle && o.data == Empty
    ensures s == Idle && e != Command("start") && e != Command("cancel") ==> o == Ignored(s, d)
    ensures Writes(o.effects) != [] ==>
              s == Confirmation && e == Press("confirm_yes") && IsBooking(env, d, Writes(o.effects))
  {
    match e
    case Command(name) =>
      if name == "cancel" then NoWrites(CancelStep().effects); CancelStep()
      else if name == "start" then NoWrites(StartStep(s, d).effects); StartStep(s, d)
      else NoWrites([]); Ignored(s, d)
    case Message(text) =>
      if IsTextState(s) then NoWrites(TextStep(s, d, text).effects); TextStep(s, d, text)
      else if s == Phone then NoWrites(PhoneStep(env, d, text).effects); PhoneStep(env, d, text)
      else NoWrites([]); Ignored(s, d)
    case Press(data) =>
      if s == CourseSelection && CourseSelectionPattern(data) then
        NoWrites(SelectCourse(env, d, data).effects); SelectCourse(env, d, data)
      else if s == Confirmation && ConfirmationPattern(data) then ConfirmSignup(env, d, data)
      else NoWrites([]); Ignored(s, d)
  }

  /** Every step keeps the keys each state relies on; in particular `LocationSelection`
      is never entered. */
  lemma StepKeepsCollected(env: Env, s: State, d: UserData, e: Event)
    requires Collected(s, d)
    ensures Collected(Step(env, s, d, e).state, Step(env, s, d, e).data)
  {
    match e
    case Command(name) =>
    case Message(text) =>
      if IsTextState(s) {
        TextStepKeepsCollected(s, d, text);
      } else if s == Phone {
        assert Step(env, s, d, e) == PhoneStep(env, d, text);
        PhoneKeepsCollected(env, d, text);
      }
    case Press(data) =>
      if s == CourseSelection && CourseSelectionPattern(data) {
        assert Step(env, s, d, e) == SelectCourse(env, d, data);
        SelectKeepsCollected(env, d, data);
      } else if s == Confirmation && ConfirmationPattern(data) {
        assert Step(env, s, d, e) == ConfirmSignup(env, d, data);
        ConfirmKeepsCollected(env, d, data);
      }
  }

  lemma ConfirmKeepsCollected(env: Env, d: UserData, data: string)
    requires Collected(Confirmation, d)
    ensures Collected(ConfirmSignup(env, d, data).state, ConfirmSignup(env, d, data).data)
  {
  }

  lemma PhoneKeepsCollected(env: Env, d: UserData, text: string)
    requires Collected(Phone, d)
    ensures Collected(PhoneStep(env, d, text).state, PhoneStep(env, d, text).data)
  {
    var o := PhoneStep(env, d, text);
    if IsValidPhone(text) {
      StoringPhoneKeepsCollected(o.state, d, text);
    }
  }

  lemma SelectKeepsCollected(env: Env, d: UserData, data: string)
    requires Collected(CourseSelection, d)
    ensures Collected(SelectCourse(env, d, data).state, SelectCourse(env, d, data).data)
  {
    var o := SelectCourse(env, d, data);
    if data != "exit" && data != "choose_manually" {
      var p := PickCourse(env.courses, d, data);
      assert o == p;
      assert p.data == d.(selectedCourse := p.data.selectedCourse);
      StoringCourseKeepsCollected(p.state, d, p.data.selectedCourse);
    }
  }

  /** Every `users` row an update writes, the repeated bookings included, carries a
      phone the pattern accepted and an age in 6..18. */
  lemma StepWritesValidated(env: Env, s: State, d: UserData, e: Event)
    requires Collected(s, d)
    ensures ValidatedWrites(Writes(Step(env, s, d, e).effects))
  {
    var writes := Writes(Step(env, s, d, e).effects);
    if writes != [] {
      BookingValidated(env, d, writes);
    }
  }

  /** Pressing the button of an offered course selects exactly that course. */
  lemma PressingCourseButton(env: Env, d: UserData, c: Course)
    requires Collected(CourseSelection, d) && UniqueIds(env.courses) && c in env.courses
    ensures Step(env, CourseSelection, d, Press(CourseButton(c).data))
            == Outcome(Confirmation, d.(selectedCourse := Some(c.id)),
                       [Say(ConfirmCourse(c, [YesButton, NoButton, ExitButton]))])
  {
    var data := CourseButton(c).data;
    CourseButtonsAreNotFixed(c);
    CourseButtonSelects(env.courses, c);
    assert data != "choose_manually";
  }

  /** In `Confirmation`, "yes" books the child: one user row from the collected answers
      and one unconfirmed trial lesson for the selected course. */
  lemma ConfirmYesBooks(env: Env, d: UserData)
    requires Collected(Confirmation, d)
    requires FindCourse(env.courses, d.selectedCourse.value).Some?
    ensures IsBooking(env, d, Writes(Step(env, Confirmation, d, Press("confirm_yes")).effects))
  {
    ConfirmYesStep(env, d);
  }

  /** A "yes" press in `Confirmation` is handled by `confirm_signup`. */
  lemma ConfirmYesStep(env: Env, d: UserData)
    ensures Step(env, Confirmation, d, Press("confirm_yes")) == ConfirmSignup(env, d, "confirm_yes")
  {
    assert WholeMatch("confirm_yes", "confirm_yes");
  }

  /** When a notice cannot be delivered, the handler raises after the booking has been
      committed: the conversation stays in `Confirmation` with its data, and pressing
      "yes" again commits a second identical booking. */
  lemma DoubleBooking(env: Env, d: UserData, a: int)
    requires Collected(Confirmation, d)
    requires FindCourse(env.courses, d.selectedCourse.value).Some?
    requires a in env.admins && a in env.unreachable
    ensures var first := Step(env, Confirmation, d, Press("confirm_yes"));
            var second := Step(env, first.state, first.data, Press("confirm_yes"));
            && first.state == Confirmation && first.data == d
            && IsBooking(env, d, Writes(first.effects))
            && IsBooking(env, d, Writes(second.effects))
            && |Writes(first.effects + second.effects)| == 4
  {
    ConfirmYesStep(env, d);
    var first := Step(env, Confirmation, d, Press("confirm_yes"));
    assert first.state == Confirmation && first.data == d;
    WritesAppend(first.effects, first.effects);
  }
}
