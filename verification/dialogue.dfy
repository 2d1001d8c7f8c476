/** What the two revisions of the registration conversation share: its states, the
    per-user data it collects, the events it reacts to, what a step produces, and the
    four text-input steps that are identical in both revisions. */
module Dialogue {
  import opened Wrappers
  import opened Text
  import opened Validators
  import opened Catalogue
  import opened Notify

  /** The conversation states. `Idle` is `ConversationHandler.END`, i.e. no conversation
      in progress. `LocationSelection` is declared by the current revision but no handler
      is ever registered for it. */
  datatype State =
    | Idle | Name | Age | Interests | ParentName | Phone
    | CourseSelection | LocationSelection | Confirmation

  /** `context.user_data`: each key is absent until its step stores it. */
  datatype UserData = UserData(
    childName: Option<string>,
    childAge: Option<int>,
    childInterests: Option<string>,
    parentName: Option<string>,
    phone: Option<string>,
    selectedCourse: Option<int>)

  /** `user_data.clear()` leaves every key absent. */
  const Empty := UserData(None, None, None, None, None, None)

  /** An update from the chat: a bot command (its name without the slash), a plain text
      message, or an inline-button press with its callback data. */
  datatype Event = Command(name: string) | Message(text: string) | Press(data: string)

  /** The bot's messages, by meaning; the keyboard is kept where one is attached. */
  datatype Reply =
    | Greeting | AskAge(childName: string) | AgeOutOfRange | AgeNotANumber
    | AskInterests | AskParentName | AskPhone | PhoneRejected
    | InterestsMatched | NoInterestMatch | NoCoursesForAge
    | CourseMenu(buttons: seq<Button>) | AllCoursesForAge(buttons: seq<Button>)
    | ConfirmCourse(course: Course, buttons: seq<Button>)
    | Thanks | MaybeLater | Finished | Cancelled

  /** The row written to `users`. */
  datatype UserRow = UserRow(
    chatId: int, parentName: string, phone: string,
    childName: string, childAge: int, childInterests: string)

  /** What a handler does besides changing state and data: replies, committed database
      writes, notices to administrators, and an exception escaping the handler. */
  datatype Effect =
    | Say(reply: Reply)
    | InsertUser(row: UserRow)
    | InsertTrial(courseId: int, confirmed: bool)
    | Notice(delivery: Delivery, row: UserRow, course: Course)
    | Raised

  datatype Outcome = Outcome(state: State, data: UserData, effects: seq<Effect>)

  /** The world a step runs in: the catalogue, the admin ids, which admins a send to
      fails for, the chat the update came from, and whether `trial_lessons` demands a
      location (the current schema declares `location_id NOT NULL`). */
  datatype Env = Env(
    courses: seq<Course>, admins: seq<int>, unreachable: set<int>,
    chatId: int, locationRequired: bool)

  /** No handler takes the update: nothing happens. */
  function Ignored(s: State, d: UserData): Outcome {
    Outcome(s, d, [])
  }

  /** The handler raised: the conversation stays in its state, and whatever it stored
      in `user_data` before raising stays stored. */
  function Crashed(s: State, d: UserData): Outcome {
    Outcome(s, d, [Raised])
  }

  /** `/cancel`: the conversation's fallback while one is in progress and the global
      command otherwise; both reply, clear the data and end. */
  function CancelStep(): (o: Outcome)
    ensures o.state == Idle && o.data == Empty
    ensures forall e :: e in o.effects ==> e.Say?
  {
    Outcome(Idle, Empty, [Say(Cancelled)])
  }

  /** The four states that read a typed answer with the same handler in both revisions. */
  predicate IsTextState(s: State) {
    s.Name? || s.Age? || s.Interests? || s.ParentName?
  }

  /** The step that follows a text-input state once its field has been stored. */
  function NextState(s: State): State {
    match s
    case Name => Age
    case Age => Interests
    case Interests => ParentName
    case ParentName => Phone
    case Phone => CourseSelection
    case _ => s
  }

  /** `d2` agrees with `d` on every key except the one state `s` collects. */
  predicate OnlyItsField(s: State, d: UserData, d2: UserData) {
    match s
    case Name => d2 == d.(childName := d2.childName)
    case Age => d2 == d.(childAge := d2.childAge)
    case Interests => d2 == d.(childInterests := d2.childInterests)
    case ParentName => d2 == d.(parentName := d2.parentName)
    case Phone => d2 == d.(phone := d2.phone)
    case CourseSelection => d2 == d.(selectedCourse := d2.selectedCourse)
    case _ => d2 == d
  }

  /** `get_name`, `get_age`, `get_interests`, `get_parent_name` (identical in both
      revisions). Only the age can be refused, and then nothing is stored. */
  function TextStep(s: State, d: UserData, text: string): (o: Outcome)
    requires IsTextState(s)
    ensures OnlyItsField(s, d, o.data)
    ensures o.state == s || o.state == NextState(s)
    ensures o.state == s ==> o.data == d
    ensures o.state == s ==> s == Age && ValidateAge(text).Err?
    ensures s == Name && o.state == Age ==> o.data.childName == Some(text)
    ensures s == Age && o.state == Interests ==>
              ValidateAge(text).Ok? && o.data.childAge == Some(ValidateAge(text).value)
    ensures s == Interests && o.state == ParentName ==> o.data.childInterests == Some(text)
    ensures s == ParentName && o.state == Phone ==> o.data.parentName == Some(text)
    ensures |o.effects| == 1 && o.effects[0].Say?
  {
    match s
    case Name => Outcome(Age, d.(childName := Some(text)), [Say(AskAge(text))])
    case Age =>
      (match ValidateAge(text)
       case Ok(n) => Outcome(Interests, d.(childAge := Some(n)), [Say(AskInterests)])
       case Err(NotANumber) => Outcome(Age, d, [Say(AgeNotANumber)])
       case Err(_) => Outcome(Age, d, [Say(AgeOutOfRange)]))
    case Interests => Outcome(ParentName, d.(childInterests := Some(text)), [Say(AskParentName)])
    case ParentName => Outcome(Phone, d.(parentName := Some(text)), [Say(AskPhone)])
  }

  /** The age step moves on exactly for an integer from 6 to 18, storing it. */
  lemma AgeStepRule(d: UserData, text: string)
    ensures TextStep(Age, d, text).state == Interests <==>
              ParseInt(text).Some? && MinAge <= ParseInt(text).value <= MaxAge
    ensures TextStep(Age, d, text).state == Interests ==>
              TextStep(Age, d, text).data == d.(childAge := ParseInt(text))
    ensures TextStep(Age, d, text).state == Age ==> TextStep(Age, d, text).data.childAge == d.childAge
  {
  }

  /** Position of a state along the dialogue, used to say which keys must be present. */
  function Rank(s: State): nat {
    match s
    case Idle => 0
    case Name => 1
    case Age => 2
    case Interests => 3
    case ParentName => 4
    case Phone => 5
    case CourseSelection => 6
    case LocationSelection => 6
    case Confirmation => 7
  }

  /** The keys every state can rely on: each earlier step's value, as validated, and
      `LocationSelection` is never entered. */
  predicate Collected(s: State, d: UserData) {
    && s != LocationSelection
    && (Rank(s) >= 2 ==> d.childName.Some?)
    && (Rank(s) >= 3 ==> d.childAge.Some? && MinAge <= d.childAge.value <= MaxAge)
    && (Rank(s) >= 4 ==> d.childInterests.Some?)
    && (Rank(s) >= 5 ==> d.parentName.Some?)
    && (Rank(s) >= 6 ==> d.phone.Some? && IsValidPhone(d.phone.value))
    && (Rank(s) >= 7 ==> d.selectedCourse.Some?)
  }

  /** The text steps keep `Collected`. */
  lemma TextStepKeepsCollected(s: State, d: UserData, text: string)
    requires IsTextState(s) && Collected(s, d)
    ensures Collected(TextStep(s, d, text).state, TextStep(s, d, text).data)
  {
  }

  /** Storing an accepted phone keeps `Collected` in whichever state the phone step
      moves to. */
  lemma StoringPhoneKeepsCollected(s: State, d: UserData, text: string)
    requires Collected(Phone, d) && IsValidPhone(text)
    requires s == Phone || s == CourseSelection || s == Idle
    ensures Collected(s, d.(phone := Some(text)))
  {
  }

  /** Storing a course id (or none) while choosing keeps `Collected` in the choosing
      state, and in `Confirmation` once an id is stored. */
  lemma StoringCourseKeepsCollected(s: State, d: UserData, id: Option<int>)
    requires Collected(CourseSelection, d)
    requires s == CourseSelection || (s == Confirmation && id.Some?)
    ensures Collected(s, d.(selectedCourse := id))
  {
  }

  /** The `users` row from the collected data, or None where a key is missing and
      reading it would raise `KeyError`. */
  function UserRowOf(chatId: int, d: UserData): (r: Option<UserRow>)
    ensures r.Some? <==> d.parentName.Some? && d.phone.Some? && d.childName.Some?
                         && d.childAge.Some? && d.childInterests.Some?
    ensures r.Some? ==> r.value.chatId == chatId && r.value.phone == d.phone.value
                        && r.value.parentName == d.parentName.value
                        && r.value.childName == d.childName.value
                        && r.value.childAge == d.childAge.value
                        && r.value.childInterests == d.childInterests.value
  {
    if d.parentName.Some? && d.phone.Some? && d.childName.Some? && d.childAge.Some? && d.childInterests.Some?
    then Some(UserRow(chatId, d.parentName.value, d.phone.value, d.childName.value,
                      d.childAge.value, d.childInterests.value))
    else None
  }

  /** A `users` row whose phone passed the pattern and whose age lies in 6..18. */
  predicate ValidRow(row: UserRow) {
    IsValidPhone(row.phone) && MinAge <= row.childAge <= MaxAge
  }

  /** The user rows among some writes are all validated. */
  predicate ValidatedWrites(writes: seq<Effect>) {
    forall w :: w in writes && w.InsertUser? ==> ValidRow(w.row)
  }

  /** Once the dialogue reaches `Confirmation` the `users` row can be built without a
      `KeyError`, and it carries a phone the pattern accepted and an age in 6..18. */
  lemma CollectedRow(chatId: int, d: UserData)
    requires Collected(Confirmation, d)
    ensures UserRowOf(chatId, d).Some? && ValidRow(UserRowOf(chatId, d).value)
  {
  }

  /** A booking made from collected answers writes only validated user rows. */
  lemma BookingValidated(env: Env, d: UserData, writes: seq<Effect>)
    requires Collected(Confirmation, d) && IsBooking(env, d, writes)
    ensures ValidatedWrites(writes)
  {
    CollectedRow(env.chatId, d);
  }

  /** A regex `^lit$` under `re.match`: `$` also matches just before a final newline. */
  predicate WholeMatch(data: string, lit: string) {
    data == lit || data == lit + "\n"
  }

  /** The notices of one signup, in the order the admins were contacted. */
  function Notices(deliveries: seq<Delivery>, row: UserRow, course: Course): (r: seq<Effect>)
    ensures |r| == |deliveries|
    ensures forall k :: 0 <= k < |r| ==> r[k] == Notice(deliveries[k], row, course)
  {
    if deliveries == [] then []
    else [Notice(deliveries[0], row, course)] + Notices(deliveries[1..], row, course)
  }

  /** Database writes among a step's effects. */
  function Writes(effects: seq<Effect>): seq<Effect> {
    if effects == [] then []
    else (if effects[0].InsertUser? || effects[0].InsertTrial? then [effects[0]] else [])
         + Writes(effects[1..])
  }

  /** A `course_<id>` press in `select_course` (identical in both revisions): the id is
      read back from the callback data and stored before the catalogue lookup, so a
      malformed token or an unknown id raises with or without it stored. */
  function PickCourse(courses: seq<Course>, d: UserData, data: string): (o: Outcome)
    ensures OnlyItsField(CourseSelection, d, o.data)
    ensures o.state == Confirmation <==>
              ParseCourseToken(data).Some? && FindCourse(courses, ParseCourseToken(data).value).Some?
    ensures o.state == Confirmation ==>
              o.data == d.(selectedCourse := ParseCourseToken(data))
              && o.effects == [Say(ConfirmCourse(FindCourse(courses, ParseCourseToken(data).value).value,
                                                 [YesButton, NoButton, ExitButton]))]
    ensures o.state != Confirmation ==> o.state == CourseSelection && o.effects == [Raised]
  {
    match ParseCourseToken(data)
    case None => Crashed(CourseSelection, d)
    case Some(id) =>
      var d1 := d.(selectedCourse := Some(id));
      match FindCourse(courses, id)
      case None => Crashed(CourseSelection, d1)
      case Some(c) => Outcome(Confirmation, d1, [Say(ConfirmCourse(c, [YesButton, NoButton, ExitButton]))])
  }

  /** `/start` is the only entry point and the conversation does not allow re-entry:
      it starts a conversation from `Idle` and is ignored inside one. It does not touch
      `user_data`. */
  function StartStep(s: State, d: UserData): (o: Outcome)
    ensures s == Idle ==> o.state == Name && o.data == d
    ensures s != Idle ==> o == Ignored(s, d)
  {
    if s == Idle then Outcome(Name, d, [Say(Greeting)]) else Ignored(s, d)
  }

  /** An effect that is not a database write. */
  predicate NotAWrite(e: Effect) {
    !e.InsertUser? && !e.InsertTrial?
  }

  lemma {:induction false} WritesAppend(a: seq<Effect>, b: seq<Effect>)
    ensures Writes(a + b) == Writes(a) + Writes(b)
  {
    if a == [] {
      assert a + b == b;
    } else {
      assert (a + b)[0] == a[0];
      assert (a + b)[1..] == a[1..] + b;
      WritesAppend(a[1..], b);
      var head := if a[0].InsertUser? || a[0].InsertTrial? then [a[0]] else [];
      assert Writes(a + b) == head + Writes(a[1..] + b);
      assert Writes(a) == head + Writes(a[1..]);
      assert head + (Writes(a[1..]) + Writes(b)) == (head + Writes(a[1..])) + Writes(b);
    }
  }

  lemma {:induction false} NoWrites(effects: seq<Effect>)
    requires forall k :: 0 <= k < |effects| ==> NotAWrite(effects[k])
    ensures Writes(effects) == []
  {
    if effects != [] {
      NoWrites(effects[1..]);
    }
  }

  lemma WritesCons(e: Effect, rest: seq<Effect>)
    ensures Writes([e] + rest) == (if NotAWrite(e) then [] else [e]) + Writes(rest)
  {
    assert ([e] + rest)[0] == e && ([e] + rest)[1..] == rest;
  }

  /** A booking followed by anything but writes leaves exactly the two booking rows. */
  lemma BookingWrites(row: UserRow, courseId: int, rest: seq<Effect>)
    requires forall k :: 0 <= k < |rest| ==> NotAWrite(rest[k])
    ensures Writes([InsertUser(row), InsertTrial(courseId, false)] + rest)
            == [InsertUser(row), InsertTrial(courseId, false)]
  {
    var user := InsertUser(row);
    var trial := InsertTrial(courseId, false);
    var tail := [trial] + rest;
    NoWrites(rest);
    WritesCons(trial, rest);
    assert Writes(tail) == [trial];
    WritesCons(user, tail);
    assert Writes([user] + tail) == [user, trial];
    assert [user, trial] + rest == [user] + tail;
  }

  /** The rows a confirmed signup writes: one user row built from the collected data and
      one unconfirmed trial lesson for the selected course. */
  predicate IsBooking(env: Env, d: UserData, writes: seq<Effect>) {
    && UserRowOf(env.chatId, d).Some? && d.selectedCourse.Some?
    && writes == [InsertUser(UserRowOf(env.chatId, d).value), InsertTrial(d.selectedCourse.value, false)]
  }

  /** A sequence of updates through a conversation's step function, one after another;
      the effects are concatenated. */
  function Run(step: (State, UserData, Event) -> Outcome, s: State, d: UserData, events: seq<Event>): (o: Outcome)
    ensures events == [] ==> o == Outcome(s, d, [])
    decreases |events|
  {
    if events == [] then Outcome(s, d, [])
    else
      var first := step(s, d, events[0]);
      var rest := Run(step, first.state, first.data, events[1..]);
      Outcome(rest.state, rest.data, first.effects + rest.effects)
  }

  /** Running two sequences of updates one after the other is running the second from
      where the first ended; the effects are concatenated. */
  lemma {:induction false} RunConcat(step: (State, UserData, Event) -> Outcome, s: State, d: UserData,
                                     a: seq<Event>, b: seq<Event>)
    ensures var mid := Run(step, s, d, a);
            var all := Run(step, s, d, a + b);
            var second := Run(step, mid.state, mid.data, b);
            && all.state == second.state && all.data == second.data
            && all.effects == mid.effects + second.effects
    decreases |a|
  {
    if a == [] {
      assert a + b == b;
    } else {
      var first := step(s, d, a[0]);
      assert (a + b)[0] == a[0] && (a + b)[1..] == a[1..] + b;
      RunConcat(step, first.state, first.data, a[1..], b);
      var restA := Run(step, first.state, first.data, a[1..]);
      var second := Run(step, restA.state, restA.data, b);
      assert first.effects + (restA.effects + second.effects)
             == (first.effects + restA.effects) + second.effects;
    }
  }

  /** A run of one update is that update's step. */
  lemma RunSingle(step: (State, UserData, Event) -> Outcome, s: State, d: UserData, e: Event)
    ensures Run(step, s, d, [e]) == step(s, d, e)
  {
    var first := step(s, d, e);
    assert [e][1..] == [];
    assert first.effects + [] == first.effects;
  }

  /** A run continues from where its first update left the conversation, and its writes
      are the first update's followed by the rest's. */
  lemma RunCons(step: (State, UserData, Event) -> Outcome, s: State, d: UserData, e: Event, rest: seq<Event>)
    ensures var first := step(s, d, e);
            var o := Run(step, s, d, [e] + rest);
            var r := Run(step, first.state, first.data, rest);
            && o.state == r.state && o.data == r.data
            && Writes(o.effects) == Writes(first.effects) + Writes(r.effects)
  {
    var first := step(s, d, e);
    assert ([e] + rest)[0] == e && ([e] + rest)[1..] == rest;
    WritesAppend(first.effects, Run(step, first.state, first.data, rest).effects);
  }

  /** A first part that writes nothing and ends in `s1` with `d1` can be skipped: the
      whole run ends, and writes, as the second part run from there. */
  lemma RunThrough(step: (State, UserData, Event) -> Outcome, s: State, d: UserData,
                   a: seq<Event>, b: seq<Event>, s1: State, d1: UserData)
    requires Run(step, s, d, a).state == s1 && Run(step, s, d, a).data == d1
    requires Writes(Run(step, s, d, a).effects) == []
    ensures Run(step, s, d, a + b).state == Run(step, s1, d1, b).state
    ensures Run(step, s, d, a + b).data == Run(step, s1, d1, b).data
    ensures Writes(Run(step, s, d, a + b).effects) == Writes(Run(step, s1, d1, b).effects)
  {
    RunConcat(step, s, d, a, b);
    WritesAppend(Run(step, s, d, a).effects, Run(step, s1, d1, b).effects);
  }

  /** A first update that writes nothing can be skipped: the run ends, and writes, as the
      rest run from where that update left the conversation. */
  lemma RunSkip(step: (State, UserData, Event) -> Outcome, s: State, d: UserData, e: Event,
                rest: seq<Event>, s2: State, d2: UserData)
    requires step(s, d, e).state == s2 && step(s, d, e).data == d2 && Writes(step(s, d, e).effects) == []
    ensures Run(step, s, d, [e] + rest).state == Run(step, s2, d2, rest).state
    ensures Run(step, s, d, [e] + rest).data == Run(step, s2, d2, rest).data
    ensures Writes(Run(step, s, d, [e] + rest).effects) == Writes(Run(step, s2, d2, rest).effects)
  {
    RunCons(step, s, d, e, rest);
  }
}
