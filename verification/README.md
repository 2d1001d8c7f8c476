# Children's course registration bot — a Dafny model

This project models the decision logic of a Telegram bot that registers children for
trial lessons at a course school. It covers both revisions of the bot's handler module:

- the older one, `attached_assets/handlers.py`, which recommends courses by the child's
  interests;
- the current one, `handlers.py`, which offers every course that fits the child's age.

The Telegram and SQL calls are replaced by pure functions over immutable data:

- **Registration state machine.** A registration conversation is a step function
  `Step(env, state, data, event) -> Outcome(state', data', effects)`.
  - `data` is the bot's `context.user_data`, with every key optional.
  - `effects` lists the replies, the committed `INSERT`s, the notices sent to
    administrators, and an exception escaping the handler.
  - `env` holds the course catalogue, the admin ids, the admins that cannot be reached,
    the chat id, and whether the `trial_lessons` table demands a location.
  - `Dialogue.Run` feeds a sequence of updates through a step function.
- **Shared modules.** The two revisions are separate modules: `RegistrationV1` is the
  older one and `RegistrationV2` the current one. Both share:
  - the text-input steps (`Dialogue`);
  - the validators (`Validators`);
  - the catalogue (`Catalogue`);
  - the notification loops (`Notify`).
- **Recommendation.** The older revision's interest matching is in `Recommend`: the
  synonym table, keyword expansion, and the substring filter.
- **Course administration.** `CourseAdmin` holds the course-creation dialogue of the
  older revision and the course-editing dialogue of the current one.
- **Trial list.** `TrialList` holds the `/view_trials` chunking of the current revision.
- **Python string built-ins.** `Text` models the parts the handlers rely on: `isspace`,
  `lower`, `split()`, `split(sep)`, `in` and `int()`, with the whitespace `int()`
  skips, which is narrower than `isspace()`.

Python and python-telegram-bot behaviour the model follows:

- **Exceptions.** An exception raised inside a handler (`KeyError`, `ValueError` from
  `int()`, indexing `None`, a failing `send_message`) leaves the conversation in its state.
  Keys stored in `user_data` before the raise stay stored. A database write committed
  before the raise stays committed.
- **`re.match` and `$`.** The pattern's `$` also matches just before a final newline, so
  the phone pattern and the callback-data patterns accept one trailing `"\n"`.
- **Re-entry.** `/start` is the only entry point and re-entry is not allowed. Inside a
  conversation `/start` is ignored, since the text handlers filter out commands.
- **`/cancel`.** It is the conversation's fallback and, outside a conversation, the
  globally registered command. Both clear `user_data`.
- **Location step.** `LOCATION_SELECTION` is declared by the current revision, but no
  handler is registered for it, so it is never entered.

What the handlers do, where one might expect otherwise:

- **Course choice.** Courses are never ranked or tagged. The older revision keeps the
  age-eligible courses that some synonym of an interest word occurs in, as a substring;
  the current one offers every age-eligible course and does no interest matching.
- **Location.** Neither revision asks for a location, and the current revision's
  trial-lesson insert omits `location_id`.
- **Notifications.** Only the current revision sends each administrator notice under its
  own `try`. In the older one the first failed send raises after the booking is
  committed.
- **Empty course lists.** In the current revision, a phone step that finds no
  age-eligible course ends the conversation without clearing `user_data`. In the older
  one the phone step then offers a menu holding only "exit", and "choose manually" with
  no eligible course ends the conversation without clearing.

## Model

| member | source | states |
|---|---|---|
| Text.LowerChar | attached_assets/handlers.py:105 | a lower-cased character is never upper-case, and a character is left unchanged exactly when it is not upper-case |
| Text.LowerIdempotent | attached_assets/handlers.py:119-120 | lower-casing already lower-cased text changes nothing |
| Text.Split | attached_assets/handlers.py:123 | every token of `split()` is non-empty and holds no whitespace |
| Text.SplitKeepsEveryLetter | attached_assets/handlers.py:123 | the tokens of `split()`, read one after another, are the text with its whitespace removed: nothing lost, order kept |
| Text.SplitOfWord | attached_assets/handlers.py:123 | a non-empty word without whitespace splits into itself alone |
| Text.ContainsIff | attached_assets/handlers.py:125 | `needle in hay` holds exactly when the needle occurs at some position of the text |
| Text.SplitOn | handlers.py:112 | `split("_")` gives at least one field and no field contains the separator |
| Text.JoinSplitOn | handlers.py:112 | joining the fields of `split(sep)` with `sep` gives back the original text |
| Text.SplitOnTwoFields | handlers.py:112 | text made of two separator-free parts joined by the separator splits into exactly those two fields |
| Text.ParseIntRoundTrip | handlers.py:46 | `int(str(n)) == n` for every integer, negative ones included |
| Text.ParseIntRejectsForeignChar | handlers.py:46 | a character other than whitespace `int()` skips, an ASCII digit, `_` or a sign makes `int()` raise |
| Text.IntSpaceExamples | handlers.py:46 | `int()` skips a surrounding space but raises on a leading U+001C, although `isspace()` holds for it |
| Validators.PhoneLanguage | attached_assets/handlers.py:21-23 | the phone pattern accepts exactly `+7` or `8`, then digit groups of 3, 3, 2 and 2, each optionally preceded by one whitespace or hyphen, then the end of the text or a final newline |
| Validators.PhoneParseSound | attached_assets/handlers.py:21-23 | every accepted text is the spelling of well-formed prefix, separator, group and ending parts |
| Validators.PhoneRenderParse | handlers.py:14-16 | every well-formed set of parts spells an accepted text that reads back as exactly those parts |
| Validators.ParseGroupsSound | attached_assets/handlers.py:23 | what the group reader returns is well formed and spells the text it read |
| Validators.ParseGroupsComplete | attached_assets/handlers.py:23 | the group reader reads any well-formed spelling back into its parts |
| Validators.PhoneExamplePlain | attached_assets/handlers.py:21-23 | `+79123456789` is accepted |
| Validators.PhoneExampleSeparated | attached_assets/handlers.py:21-23 | `8 912-345-67-89` is accepted |
| Validators.PhoneExampleRejected | attached_assets/handlers.py:21-23 | `123456` is refused |
| Validators.ValidateAge | handlers.py:43-56 | an age is accepted exactly when `int()` reads it and it lies in 6..18; "not a number" exactly when `int()` raises |
| Validators.ValidateAgeAcceptsRange | attached_assets/handlers.py:50-63 | an integer typed in decimal is accepted as itself exactly when it lies in 6..18, otherwise refused as out of range |
| Validators.AgeExamples | handlers.py:43-56 | `9` and ` 9` are accepted; `200` and `5` are out of range; `abc` and `\x1c9` are not a number |
| Validators.CheckMinAge | attached_assets/handlers.py:538-550 | a course minimum is accepted exactly when it parses and is at least 0 |
| Validators.CheckMaxAge | attached_assets/handlers.py:552-558 | a course maximum is accepted exactly when it parses and exceeds the minimum |
| Catalogue.AgeEligible | attached_assets/handlers.py:113-114 | the age filter keeps exactly the courses with `min_age <= age <= max_age`, as a subsequence of the catalogue |
| Catalogue.AgeEligibleCounts | attached_assets/handlers.py:113-114 | a course that admits the age is kept as often as it occurs in the catalogue, any other course never |
| Catalogue.AgeEligibleEmpty | handlers.py:85-91 | the age query finds nothing exactly when no course admits the age |
| Catalogue.FindCourse | handlers.py:118-119 | the lookup by id returns a catalogue course with that id, and nothing exactly when no course has it |
| Catalogue.FindCourseUnique | handlers.py:118-119 | with unique ids the lookup returns the one course carrying the id |
| Catalogue.ParseCourseToken | handlers.py:112 | callback data without `_` raises (`IndexError`) |
| Catalogue.CourseTokenRoundTrip | handlers.py:94-112 | the id read back from a course button's `course_<id>` data is that course's id |
| Catalogue.CourseButtons | handlers.py:93-96 | one button per course, in order, each carrying that course's name and token |
| Catalogue.CourseButtonsAreNotFixed | attached_assets/handlers.py:307 | a course button's data starts with `course_` and is neither `exit` nor `choose_manually` |
| Catalogue.CourseButtonSelects | attached_assets/handlers.py:278-285 | pressing a course button of a catalogue with unique ids reads back the course it was built from |
| Recommend.GetSynonyms | attached_assets/handlers.py:90-92 | the expansion is the table's words for the keyword (none for an unknown one) followed by the keyword |
| Recommend.UnknownKeyword | attached_assets/handlers.py:90-92 | a keyword missing from the table matches exactly the courses that mention it |
| Recommend.SynonymHits | attached_assets/handlers.py:80-92 | a table keyword matches every course that mentions one of its synonyms |
| Recommend.SynonymExample | attached_assets/handlers.py:80-127 | the interest `Программирование` recommends a course named `Алгоритмы` |
| Recommend.Recommended | attached_assets/handlers.py:116-127 | the recommendations are an order-preserving subsequence of the eligible courses, holding exactly the eligible courses some interest token's expansion is a substring of (name or description, lower-cased) |
| Recommend.RecommendedCounts | attached_assets/handlers.py:116-127 | a matching course is recommended as often as it is eligible, any other course never |
| Catalogue.AgeEligibleDistinct | attached_assets/handlers.py:113-114 | with unique course ids, no course is age-eligible twice |
| Recommend.RecommendedDistinct | attached_assets/handlers.py:116-127 | no course is recommended twice when the eligible list has no repeats |
| Recommend.RecommendedAppend | attached_assets/handlers.py:117-127 | one more eligible course is appended after the others exactly when it matches |
| Recommend.AnyMentioned | attached_assets/handlers.py:125 | the `any(...)` scan finds a hit exactly when some synonym is mentioned by the course |
| Recommend.AnyKeywordHits | attached_assets/handlers.py:123-127 | the keyword loop with `break` succeeds exactly when some keyword's expansion is mentioned |
| Recommend.CourseMatches | attached_assets/handlers.py:118-127 | the loop body decides exactly whether the course matches the interests |
| Recommend.RecommendLoop | attached_assets/handlers.py:116-127 | the loop builds exactly the recommended list |
| Notify.NotifyEach | handlers.py:18-25 | one attempt per admin, in order, and it succeeds exactly for the reachable admins |
| Notify.EveryReachableAdminNotified | handlers.py:18-25 | every reachable admin receives the notice whoever else fails |
| Notify.NotifyUntilFailure | attached_assets/handlers.py:154-158 | the send loop raises exactly when some admin is unreachable |
| Notify.UntilFailureStops | attached_assets/handlers.py:154-158 | the loop stops right after the first failed send; every earlier send succeeded; without a failure every admin is tried |
| Notify.UntilFailureIsPrefix | attached_assets/handlers.py:154-158 | the older loop's attempts are a prefix of the current loop's, all of them when nothing fails |
| Dialogue.CancelStep | handlers.py:216-220 | `/cancel` replies only, clears the data and ends |
| Dialogue.TextStep | handlers.py:36-70 | each text step stores only its own key and moves to the next state; only the age can be refused, and then nothing is stored |
| Dialogue.AgeStepRule | attached_assets/handlers.py:50-63 | the age step moves on exactly for an integer in 6..18 and stores it; otherwise `child_age` is unchanged |
| Dialogue.TextStepKeepsCollected | handlers.py:36-70 | the text steps keep every earlier answer present and validated |
| Dialogue.CollectedRow | handlers.py:150-161 | in confirmation every key of the `users` insert is present, so it cannot raise `KeyError`, and the row carries an accepted phone and an age in 6..18 |
| Dialogue.PickCourse | handlers.py:112-132 | a `course_<id>` press confirms exactly when the id parses and names a catalogue course; it stores the id, otherwise the handler raises |
| Dialogue.StartStep | handlers.py:201-214 | `/start` opens the conversation from the idle state without touching the data and is ignored inside a conversation |
| RegistrationV1.MenuShape | attached_assets/handlers.py:129-149 | "choose manually" is shown exactly when something was recommended, "exit" only last, and every course button belongs to an age-eligible course |
| RegistrationV1.PhoneStep | attached_assets/handlers.py:94-101 | an invalid phone re-prompts with nothing stored; a valid one is stored; the step never writes to the database |
| RegistrationV1.PhoneAccepted | attached_assets/handlers.py:101-150 | a valid phone is stored and leads to the course menu; a missing age or interests raises `KeyError` |
| RegistrationV1.PhoneStepOffersMenu | attached_assets/handlers.py:94-150 | with earlier answers collected, a valid phone reaches the course menu built from the eligible and recommended courses |
| RegistrationV1.SelectCourse | attached_assets/handlers.py:245-295 | `exit` clears and ends; a confirmation stores a parsed, existing course id; nothing is written |
| RegistrationV1.ChooseManually | attached_assets/handlers.py:254-275 | "choose manually" re-offers every eligible course, or ends without clearing the data when there is none |
| RegistrationV1.ConfirmSignup | attached_assets/handlers.py:161-223 | only `confirm_yes` writes, exactly one user row and one unconfirmed trial lesson; it stays in confirmation with its data exactly when some admin is unreachable |
| RegistrationV1.Step | attached_assets/handlers.py:298-311 | `/cancel` always clears and ends; the idle state ignores all but `/start`; a write happens only for `confirm_yes` in confirmation and is a booking |
| RegistrationV1.StepKeepsCollected | attached_assets/handlers.py:298-311 | every update keeps each state's earlier answers present and validated |
| RegistrationV1.StepWritesValidated | attached_assets/handlers.py:170-184 | every `users` row any update writes, repeated bookings included, carries an accepted phone and an age in 6..18 |
| RegistrationV1.PressingCourseButton | attached_assets/handlers.py:278-295 | pressing an offered course's button selects exactly that course and asks for confirmation |
| RegistrationV1.ConfirmYesBooks | attached_assets/handlers.py:170-201 | "yes" with the answers collected writes the booking made from them |
| RegistrationV1.DoubleBooking | attached_assets/handlers.py:196-216 | with an unreachable admin, "yes" commits then raises; the dialogue stays in confirmation and a second "yes" books again |
| RegistrationV2.MenuShape | handlers.py:93-97 | "exit" appears exactly once, as the last button; "choose manually" never appears; the other buttons are the eligible courses', one each, in query order |
| RegistrationV2.MenuButtonsSelect | handlers.py:93-132 | with unique ids, pressing any non-exit menu button confirms the eligible course it was built from and stores its id |
| RegistrationV2.PhoneStep | handlers.py:72-79 | an invalid phone re-prompts with nothing stored; a valid one is stored; the step never writes |
| RegistrationV2.PhoneAccepted | handlers.py:79-101 | the menu is offered exactly when some course fits the age; otherwise the conversation ends without clearing the data |
| RegistrationV2.PhoneStepRule | handlers.py:72-101 | a valid phone leads to the eligible menu, or ends keeping every answer, when no course fits |
| RegistrationV2.PhoneReachesMenu | handlers.py:72-101 | a valid phone reaches the menu with the phone stored when a course fits the age |
| RegistrationV2.SelectCourse | handlers.py:103-132 | `exit` clears and ends; confirmation happens exactly when the id parses and names a catalogue course, storing it |
| RegistrationV2.ConfirmSignup | handlers.py:135-195 | only `confirm_yes` writes, and only a booking; with answers, course and no location constraint it books and ends |
| RegistrationV2.Step | handlers.py:201-214 | `/cancel` clears and ends; the location state is never entered; only `confirm_yes` in confirmation writes |
| RegistrationV2.StepKeepsCollected | handlers.py:201-214 | every update keeps each state's earlier answers present and validated |
| RegistrationV2.RunKeepsCollected | handlers.py:201-214 | any sequence of updates keeps each state's answers present and validated |
| RegistrationV2.RunWritesValidated | handlers.py:43-161 | over any sequence of updates, every `users` row written carries an accepted phone and an age in 6..18 |
| RegistrationV2.PressingCourseButton | handlers.py:112-132 | pressing an offered course's button selects exactly that course |
| RegistrationV2.SingleBooking | handlers.py:135-195 | "yes" books once and ends the conversation; a repeated "yes" writes nothing |
| RegistrationV2.EveryAdminTried | handlers.py:174-189 | the booking is followed by a notice attempt to every admin, in order, then the thanks |
| RegistrationV2.LocationColumnBlocksBooking | handlers.py:169-172 | under a NOT NULL location column no update writes anything, and "yes" raises staying in confirmation |
| RegistrationV2.TextAnswers | handlers.py:31-70 | `/start` and four valid answers reach the phone question with every answer stored |
| RegistrationV2.ButtonAnswers | handlers.py:72-195 | a valid phone, a course button and "yes" reach the menu, confirmation, and a booking that ends the conversation |
| RegistrationV2.HappyPath | handlers.py:31-195 | a complete, correctly answered dialogue ends with the data cleared and writes exactly the user row from the answers and one unconfirmed trial lesson for the chosen course |
| CourseAdmin.CreateRaisesOnlyOnOverflow | attached_assets/handlers.py:538-581 | a creation dialogue entered through `/create_course` raises only for a typed maximum above the signed 64-bit range sqlite3 binds: every key the insert reads is present |
| CourseAdmin.CreateMaxAge | attached_assets/handlers.py:552-581 | a non-number re-prompts; an inserted course has the stored minimum below the typed maximum, both within signed 64 bits; the dialogue ends exactly when a course is inserted |
| CourseAdmin.CreateStep | attached_assets/handlers.py:589-599 | only admins start the dialogue; `/cancel` clears and ends; a course is inserted only at the maximum step with `min < max` |
| CourseAdmin.CreatedCoursesOrdered | attached_assets/handlers.py:538-581 | every created course has `0 <= min_age < max_age`, and each step keeps the keys later steps read |
| CourseAdmin.EditRaisesOnlyOnOverflow | handlers.py:378-537 | an editing dialogue entered through `/edit_course` raises only when an age to write lies outside INTEGER: the picked course and every key the `UPDATE` reads are present |
| CourseAdmin.EditOverflowRaises | handlers.py:502-531 | a maximum of 3000000000 passes the handler's check, but the `UPDATE` raises; nothing is written and the dialogue stays at the maximum with the data kept |
| CourseAdmin.SaveEdit | handlers.py:518-537 | the update is issued and the data cleared exactly when every key is present and both ages fit INTEGER; otherwise it raises (`KeyError` or out of range) keeping the data |
| CourseAdmin.EditMaxAge | handlers.py:502-537 | a typed maximum is saved only above the minimum; a saved edit clears the data |
| CourseAdmin.EditCommand | handlers.py:378-425 | `/edit_course` starts, `/cancel` clears and ends, `/skip` keeps the current value; an update happens only at the maximum step |
| CourseAdmin.EditMessage | handlers.py:427-516 | text answers are stored in order; an update happens only at the maximum step with `min < max` |
| CourseAdmin.EditStep | handlers.py:378-402 | idle ignores all but `/edit_course`; `/cancel` clears; an update is issued only at the maximum step and clears the data |
| CourseAdmin.SkipKeepsCurrent | handlers.py:452-500 | `/skip` stores the course's current name, description or minimum |
| CourseAdmin.EditRejectsBadAges | handlers.py:480-516 | a negative minimum and a maximum not above the minimum re-prompt with nothing stored |
| CourseAdmin.EditWritesCollected | handlers.py:518-537 | the update writes exactly the collected values for the picked course when the ages fit INTEGER, and otherwise raises with the maximum stored |
| CourseAdmin.SkippedMaximumUnchecked | handlers.py:502-506 | a skipped maximum of 10 after a new minimum of 12 saves the range 12..10 |
| CourseAdmin.EditStepChecked | handlers.py:502-512 | with the skipped maximum checked, every update has `min_age < max_age` |
| CourseAdmin.CheckedSkip | handlers.py:502-512 | with the check, `/skip` at the maximum is refused exactly when the current maximum is not above the minimum (the current ages being stored INTEGER values) |
| TrialList.ViewTrials | handlers.py:290-339 | non-admins are refused and an empty list is reported; otherwise the messages, read in sequence, are the header then every entry exactly once, in order, with only newlines added, and each is at most 4097 characters unless it is a single entry longer by itself |
| TrialList.SendTrials | handlers.py:330-339 | the loop sends exactly the packed messages |
| TrialList.PackKeepsEveryTrial | handlers.py:330-339 | the messages, read in sequence, are the header then every entry exactly once, in order, with only newlines added |
| TrialList.PackBound | handlers.py:330-339 | every message is at most 4097 characters unless it is a single entry longer by itself |
| TrialList.PackOverLimit | handlers.py:332-336 | a message of exactly 4097 characters is sent when header plus entry fill 4096 |
| TrialList.PackFixedBound | handlers.py:332-336 | counting the newline, no message exceeds 4096 unless it is a single entry longer by itself |

## Left out

- Telegram I/O: message texts beyond their meaning, keyboards' row layout, `query.answer()` and `edit_message_text` are abstracted into reply values.
- SQL: connections, transactions, ids generated by the database, `RETURNING id`/`lastrowid`, and foreign-key constraints; the catalogue and admin ids are inputs and writes are effect values. The schema constraints modelled are `location_id NOT NULL` (`database.py:54-64`), as the `locationRequired` flag, and the integer range of `courses.min_age`/`max_age` (`database.py:32-40`): signed 32 bits under PostgreSQL, signed 64 bits as sqlite3 binds them in the older revision.
- Dates: `datetime.now()` and its formatting in the trial row, the admin notice and the trial list.
- The formatting of admin notices and trial-list entries: a trial-list entry is taken as given text.
- `bot.py` wiring and the fact that all conversations share one `user_data` per user: each conversation is modelled with its own data.
- The older revision's course-editing dialogue: it reads `current_course` before assigning it (`attached_assets/handlers.py:693`), so every non-skip answer raises `UnboundLocalError`; only its creation dialogue is modelled.
- Other admin commands (`/add_admin`, `/delete_course`, `/list_courses`, help and about texts) and the `pass` stubs: no decision logic.
- Catalogue.ParseCourseToken: its contract states only the missing-`_` error; the id a well-formed token yields is stated by `Catalogue.CourseTokenRoundTrip`.
- Text.IsDigit: only ASCII digits; Python's `int()` and the regex's `\d` also accept other Unicode decimal digits.
- Text.ParseIntRejectsForeignChar: a non-ASCII decimal digit counts as foreign, although Python's `int()` accepts it, because `Text.IsDigit` is ASCII only.
- Text.LowerChar: `lower()` is modelled on ASCII and the Cyrillic block U+0400..U+042F only.
- TrialList.Pack: lengths are counted in code points as Python's `len` does; Telegram's own limit counts UTF-16 units.
- Notify.NotifyEach: which admins fail is a fixed input set; transient failures are not modelled.

## Findings

| source | as written | input that shows it | evidently intended | confidence | as-written member | corrected member |
|---|---|---|---|---|---|---|
| handlers.py:330-339 | the length check `len(message + trial) > 4096` omits the newline appended after the trial | header plus one entry of exactly 4096 characters in total: the message sent is 4097 characters | no message over Telegram's 4096-character limit unless a single entry is longer by itself | not executed | TrialList.PackOverLimit | TrialList.PackFixedBound |
| handlers.py:502-506 | `/skip` at the maximum age takes the current maximum without comparing it with the new minimum | course 6..10, new minimum 12, `/skip`: the course is saved as 12..10 | every saved course has `min_age < max_age`, as for a typed maximum | not executed | CourseAdmin.SkippedMaximumUnchecked | CourseAdmin.EditStepChecked |
| attached_assets/handlers.py:154-158 | the notification loop has no `try`, so a failed send raises after the booking is committed, and the conversation stays in confirmation | one unreachable admin, "yes" pressed twice: two user rows and two trial lessons | one booking per dialogue, notices best-effort per admin (as the current revision does) | not executed | RegistrationV1.DoubleBooking | RegistrationV2.SingleBooking |
