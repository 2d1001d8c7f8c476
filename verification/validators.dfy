/** Input validation shared by both revisions of the registration dialogue and by the
    course-administration dialogues: the phone pattern, the child's age, and the
    minimum/maximum ages an administrator types for a course. */
module Validators {
  import opened Wrappers
  import opened Text

  // ---------------------------------------------------------------------------
  // Phone numbers: ^(\+7|8)[\s\-]?(\d{3})[\s\-]?(\d{3})[\s\-]?(\d{2})[\s\-]?(\d{2})$

  /** A character `[\s\-]` matches. */
  predicate IsSeparator(c: char) {
    IsSpace(c) || c == '-'
  }

  /** What one optional `[\s\-]?` consumed: nothing, or one separator character. */
  predicate IsSeparatorText(sep: string) {
    sep == "" || (|sep| == 1 && IsSeparator(sep[0]))
  }

  predicate AllDigits(s: string) {
    forall i :: 0 <= i < |s| ==> IsDigit(s[i])
  }

  /** What the regex's `$` accepts after the last group: the end of the text, or a
      single newline that ends it. */
  predicate IsEndText(tail: string) {
    tail == "" || tail == "\n"
  }

  /** Sizes of the four digit groups. */
  const GroupSizes: seq<nat> := [3, 3, 2, 2]

  /** A phone number taken apart the way the pattern reads it. */
  datatype PhoneParts = PhoneParts(prefix: string, seps: seq<string>, groups: seq<string>, tail: string)

  predicate GroupsWellFormed(seps: seq<string>, groups: seq<string>, sizes: seq<nat>) {
    && |seps| == |sizes| && |groups| == |sizes|
    && (forall k :: 0 <= k < |sizes| ==> IsSeparatorText(seps[k]))
    && (forall k :: 0 <= k < |sizes| ==> |groups[k]| == sizes[k] && AllDigits(groups[k]))
  }

  predicate WellFormedPhone(p: PhoneParts) {
    && (p.prefix == "+7" || p.prefix == "8")
    && GroupsWellFormed(p.seps, p.groups, GroupSizes)
    && IsEndText(p.tail)
  }

  function RenderGroups(seps: seq<string>, groups: seq<string>, tail: string): string
    requires |seps| == |groups|
  {
    if seps == [] then tail else seps[0] + groups[0] + RenderGroups(seps[1..], groups[1..], tail)
  }

  /** The text a set of parts spells out. */
  function RenderPhone(p: PhoneParts): string
    requires |p.seps| == |p.groups|
  {
    p.prefix + RenderGroups(p.seps, p.groups, p.tail)
  }

  /** Reads `[\s\-]?(\d{n})` once, as the regex engine does: since a digit is never a
      separator, the optional separator is taken exactly when the next character is one.
      Returns the separator, the digits and what is left. */
  function ReadGroup(s: string, n: nat): Option<(string, string, string)> {
    var sep := if |s| > 0 && IsSeparator(s[0]) then s[..1] else "";
    var r := s[|sep|..];
    if n <= |r| && AllDigits(r[..n]) then Some((sep, r[..n], r[n..])) else None
  }

  /** Reads one group per size, left to right. */
  function ParseGroups(s: string, sizes: seq<nat>): Option<(seq<string>, seq<string>, string)>
    decreases |sizes|
  {
    if sizes == [] then Some(([], [], s))
    else
      match ReadGroup(s, sizes[0])
      case None => None
      case Some(g) =>
        match ParseGroups(g.2, sizes[1..])
        case None => None
        case Some(res) => Some(([g.0] + res.0, [g.1] + res.1, res.2))
  }

  lemma ReadGroupSound(s: string, n: nat)
    requires ReadGroup(s, n).Some?
    ensures var g := ReadGroup(s, n).value;
      IsSeparatorText(g.0) && |g.1| == n && AllDigits(g.1) && s == g.0 + g.1 + g.2
  {
    var g := ReadGroup(s, n).value;
    var r := s[|g.0|..];
    assert r == g.1 + g.2;
    assert s == g.0 + r;
  }

  lemma ReadGroupComplete(sep: string, digits: string, after: string)
    requires IsSeparatorText(sep) && |digits| > 0 && AllDigits(digits)
    ensures ReadGroup(sep + digits + after, |digits|) == Some((sep, digits, after))
  {
    var s := sep + digits + after;
    assert s[|sep|] == digits[0];
    if sep == "" {
      assert !IsSeparator(s[0]);
    } else {
      assert s[..1] == sep;
    }
    var r := s[|sep|..];
    assert r == digits + after;
    assert r[..|digits|] == digits;
    assert r[|digits|..] == after;
  }

  function ParsePhone(s: string): Option<PhoneParts> {
    var prefix := if |s| >= 2 && s[..2] == "+7" then "+7" else if |s| >= 1 && s[0] == '8' then "8" else "";
    if prefix == "" then None
    else
      match ParseGroups(s[|prefix|..], GroupSizes)
      case None => None
      case Some(res) => if IsEndText(res.2) then Some(PhoneParts(prefix, res.0, res.1, res.2)) else None
  }

  /** `is_valid_phone` (both revisions): `re.match` of the pattern succeeds. */
  predicate IsValidPhone(s: string) {
    ParsePhone(s).Some?
  }

  lemma {:induction false} ParseGroupsSound(s: string, sizes: seq<nat>)
    requires ParseGroups(s, sizes).Some?
    ensures var res := ParseGroups(s, sizes).value;
      GroupsWellFormed(res.0, res.1, sizes) && RenderGroups(res.0, res.1, res.2) == s
    decreases |sizes|
  {
    if sizes != [] {
      var g := ReadGroup(s, sizes[0]).value;
      ReadGroupSound(s, sizes[0]);
      var rest := ParseGroups(g.2, sizes[1..]).value;
      ParseGroupsSound(g.2, sizes[1..]);
      var res := ParseGroups(s, sizes).value;
      assert res.0[1..] == rest.0 && res.1[1..] == rest.1;
    }
  }

  lemma {:induction false} ParseGroupsComplete(seps: seq<string>, groups: seq<string>, tail: string, sizes: seq<nat>)
    requires GroupsWellFormed(seps, groups, sizes)
    requires forall k :: 0 <= k < |sizes| ==> sizes[k] > 0
    ensures ParseGroups(RenderGroups(seps, groups, tail), sizes) == Some((seps, groups, tail))
    decreases |sizes|
  {
    if sizes != [] {
      var after := RenderGroups(seps[1..], groups[1..], tail);
      assert GroupsWellFormed(seps[1..], groups[1..], sizes[1..]);
      ParseGroupsComplete(seps[1..], groups[1..], tail, sizes[1..]);
      ReadGroupComplete(seps[0], groups[0], after);
      assert [seps[0]] + seps[1..] == seps;
      assert [groups[0]] + groups[1..] == groups;
    }
  }

  /** Every text the pattern accepts is the rendering of well-formed parts, namely the
      parts it was read as. */
  lemma PhoneParseSound(s: string)
    requires IsValidPhone(s)
    ensures WellFormedPhone(ParsePhone(s).value)
    ensures RenderPhone(ParsePhone(s).value) == s
  {
    var prefix := if |s| >= 2 && s[..2] == "+7" then "+7" else if |s| >= 1 && s[0] == '8' then "8" else "";
    var rest := s[|prefix|..];
    var res := ParseGroups(rest, GroupSizes).value;
    assert ParsePhone(s) == Some(PhoneParts(prefix, res.0, res.1, res.2));
    ParseGroupsSound(rest, GroupSizes);
    assert s == prefix + rest;
  }

  /** Every well-formed set of parts renders to a text the pattern accepts and reads
      back as exactly those parts. */
  lemma PhoneRenderParse(p: PhoneParts)
    requires WellFormedPhone(p)
    ensures IsValidPhone(RenderPhone(p))
    ensures ParsePhone(RenderPhone(p)) == Some(p)
  {
    var s := RenderPhone(p);
    var body := RenderGroups(p.seps, p.groups, p.tail);
    ParseGroupsComplete(p.seps, p.groups, p.tail, GroupSizes);
    assert s[|p.prefix|..] == body;
    if p.prefix == "+7" {
      assert s[..2] == "+7";
    } else {
      assert s[0] == '8';
      if |s| >= 2 {
        assert s[..2][0] == '8';
      }
    }
  }

  /** The accepted language, in one statement: a text passes the check exactly when it
      is `+7` or `8` followed by digit groups of 3, 3, 2 and 2, each optionally preceded
      by one whitespace character or hyphen, with at most a final newline after. */
  lemma PhoneLanguage(s: string)
    ensures IsValidPhone(s) <==> exists p :: WellFormedPhone(p) && RenderPhone(p) == s
  {
    if IsValidPhone(s) {
      PhoneParseSound(s);
    }
    if exists p :: WellFormedPhone(p) && RenderPhone(p) == s {
      var p :| WellFormedPhone(p) && RenderPhone(p) == s;
      PhoneRenderParse(p);
    }
  }

  lemma RenderFourGroups(p: PhoneParts)
    requires |p.seps| == 4 && |p.groups| == 4
    ensures RenderPhone(p) == p.prefix + p.seps[0] + p.groups[0] + p.seps[1] + p.groups[1]
      + p.seps[2] + p.groups[2] + p.seps[3] + p.groups[3] + p.tail
  {
    var r3 := RenderGroups(p.seps[3..], p.groups[3..], p.tail);
    assert p.seps[3..][1..] == [] && p.groups[3..][1..] == [];
    assert p.seps[3..][0] == p.seps[3] && p.groups[3..][0] == p.groups[3];
    assert RenderGroups([], [], p.tail) == p.tail;
    assert r3 == p.seps[3] + p.groups[3] + p.tail;
    var r2 := RenderGroups(p.seps[2..], p.groups[2..], p.tail);
    assert p.seps[2..][1..] == p.seps[3..] && p.groups[2..][1..] == p.groups[3..];
    assert r2 == p.seps[2] + p.groups[2] + r3;
    var r1 := RenderGroups(p.seps[1..], p.groups[1..], p.tail);
    assert p.seps[1..][1..] == p.seps[2..] && p.groups[1..][1..] == p.groups[2..];
    assert r1 == p.seps[1] + p.groups[1] + r2;
  }

  lemma PlainSpelling()
    ensures "+7" + "" + "912" + "" + "345" + "" + "67" + "" + "89" + "" == "+79123456789"
  {
    var s := "+7" + "" + "912" + "" + "345" + "" + "67" + "" + "89" + "";
    assert |s| == 12;
    assert forall i :: 0 <= i < 12 ==> s[i] == "+79123456789"[i];
  }

  lemma PhoneExamplePlain()
    ensures IsValidPhone("+79123456789")
  {
    var p := PhoneParts("+7", ["", "", "", ""], ["912", "345", "67", "89"], "");
    var s := RenderPhone(p);
    assert s == "+79123456789" by {
      RenderFourGroups(p);
      PlainSpelling();
    }
    assert IsValidPhone(s) by {
      assert GroupsWellFormed(p.seps, p.groups, GroupSizes);
      PhoneRenderParse(p);
    }
  }

  lemma SeparatedSpelling()
    ensures "8" + " " + "912" + "-" + "345" + "-" + "67" + "-" + "89" + "" == "8 912-345-67-89"
  {
    var s := "8" + " " + "912" + "-" + "345" + "-" + "67" + "-" + "89" + "";
    assert |s| == 15;
    assert forall i :: 0 <= i < 15 ==> s[i] == "8 912-345-67-89"[i];
  }

  lemma PhoneExampleSeparated()
    ensures IsValidPhone("8 912-345-67-89")
  {
    var p := PhoneParts("8", [" ", "-", "-", "-"], ["912", "345", "67", "89"], "");
    var s := RenderPhone(p);
    assert s == "8 912-345-67-89" by {
      RenderFourGroups(p);
      SeparatedSpelling();
    }
    assert IsValidPhone(s) by {
      assert GroupsWellFormed(p.seps, p.groups, GroupSizes);
      PhoneRenderParse(p);
    }
  }

  lemma PhoneExampleRejected()
    ensures !IsValidPhone("123456")
  {
  }

  // ---------------------------------------------------------------------------
  // Ages

  const MinAge: int := 6
  const MaxAge: int := 18

  /** Why a typed age was refused: `int()` raised, the value is outside the allowed
      range, or (for a course's maximum age) it is not above the minimum. */
  datatype AgeError = NotANumber | OutOfRange | NotAboveMinimum

  /** `get_age` (both revisions): the text must parse as an integer from 6 to 18. */
  function ValidateAge(text: string): (r: Result<int, AgeError>)
    ensures r.Ok? <==> ParseInt(text).Some? && MinAge <= ParseInt(text).value <= MaxAge
    ensures r.Ok? ==> ParseInt(text) == Some(r.value)
    ensures r == Err(NotANumber) <==> ParseInt(text).None?
    ensures r.Err? ==> r.error != NotAboveMinimum
  {
    match ParseInt(text)
    case None => Err(NotANumber)
    case Some(n) => if n < MinAge || n > MaxAge then Err(OutOfRange) else Ok(n)
  }

  /** Every age in 6..18, typed as Python prints it, is accepted as that age. */
  lemma ValidateAgeAcceptsRange(n: int)
    ensures ValidateAge(IntToString(n)) == (if MinAge <= n <= MaxAge then Ok(n) else Err(OutOfRange))
  {
    ParseIntRoundTrip(n);
  }

  lemma AgeExamples()
    ensures ValidateAge("9") == Ok(9)
    ensures ValidateAge("200") == Err(OutOfRange)
    ensures ValidateAge("5") == Err(OutOfRange)
    ensures ValidateAge("abc") == Err(NotANumber)
    ensures ValidateAge(" 9") == Ok(9)
    ensures ValidateAge("\U{1C}9") == Err(NotANumber)
  {
    AgeTyped(9, "9");
    AgeTyped(200, "200");
    AgeTyped(5, "5");
    ParseIntRejectsForeignChar("abc", 0);
    IntSpaceExamples();
  }

  lemma AgeTyped(n: nat, text: string)
    requires text == IntToString(n)
    ensures ValidateAge(text) == (if MinAge <= n <= MaxAge then Ok(n) else Err(OutOfRange))
  {
    ValidateAgeAcceptsRange(n);
  }

  /** Course minimum age typed by an administrator (`get_course_min_age` in the older
      revision, `get_course_min_age_to_edit` in both): an integer, at least 0. */
  function CheckMinAge(text: string): (r: Result<int, AgeError>)
    ensures r.Ok? <==> ParseInt(text).Some? && ParseInt(text).value >= 0
    ensures r.Ok? ==> ParseInt(text) == Some(r.value)
    ensures r == Err(NotANumber) <==> ParseInt(text).None?
  {
    match ParseInt(text)
    case None => Err(NotANumber)
    case Some(n) => if n < 0 then Err(OutOfRange) else Ok(n)
  }

  /** Course maximum age typed by an administrator: an integer strictly above the
      minimum collected before it. */
  function CheckMaxAge(text: string, minAge: int): (r: Result<int, AgeError>)
    ensures r.Ok? <==> ParseInt(text).Some? && ParseInt(text).value > minAge
    ensures r.Ok? ==> ParseInt(text) == Some(r.value)
    ensures r == Err(NotANumber) <==> ParseInt(text).None?
  {
    match ParseInt(text)
    case None => Err(NotANumber)
    case Some(n) => if n <= minAge then Err(NotAboveMinimum) else Ok(n)
  }
}
