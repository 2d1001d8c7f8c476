/** Interest-based course recommendation of the older revision: a fixed synonym table,
    keyword expansion, and the filter that keeps the age-eligible courses whose name or
    description mentions an expansion of one of the child's interests. */
module Recommend {
  import opened Text
  import opened Sequences
  import opened Catalogue

  /** `SYNONYMS`: each lower-case keyword and the words that also count as it. */
  const Synonyms: map<string, seq<string>> := map[
    "программирование" := ["кодирование", "разработка", "программировать", "код", "алгоритмы", "python", "javascript"],
    "дизайн" := ["графика", "рисование", "креатив", "арт", "иллюстрация", "фотошоп", "веб-дизайн"],
    "математика" := ["алгебра", "геометрия", "математик", "цифры", "логика", "уравнения", "статистика"],
    "робототехника" := ["роботы", "робот", "механика", "электроника", "автоматизация", "arduino", "микроконтроллеры"],
    "блогинг" := ["видео", "ютуб", "контент", "медиа", "соцсети", "видеомонтаж", "продвижение"],
    "игры" := ["геймдизайн", "игростроение", "игровая индустрия", "игровые миры", "unity", "unreal engine"],
    "предпринимательство" := ["бизнес", "стартап", "финансы", "маркетинг", "управление", "экономика", "продажи"]
  ]

  /** `get_synonyms(keyword)`: the table's words for `keyword` (none when it is not a
      key), followed by `keyword` itself. */
  function GetSynonyms(keyword: string): (r: seq<string>)
    ensures |r| >= 1 && r[|r| - 1] == keyword
    ensures keyword in Synonyms ==> r[..|r| - 1] == Synonyms[keyword]
    ensures keyword !in Synonyms ==> r == [keyword]
  {
    (if keyword in Synonyms then Synonyms[keyword] else []) + [keyword]
  }

  /** `word in course_name or word in course_description`, both lower-cased. */
  predicate Mentions(c: Course, word: string) {
    Contains(Lower(c.name), word) || Contains(Lower(c.description), word)
  }

  /** Some expansion of `keyword` is mentioned by the course. */
  predicate KeywordHits(c: Course, keyword: string) {
    exists w :: w in GetSynonyms(keyword) && Mentions(c, w)
  }

  /** Some whitespace-separated token of the lower-cased interests hits the course. */
  predicate Matches(c: Course, interests: string) {
    exists keyword :: keyword in Split(Lower(interests)) && KeywordHits(c, keyword)
  }

  /** The recommended courses: the age-eligible courses, in order, that match the
      interests. */
  function Recommended(eligible: seq<Course>, interests: string): (r: seq<Course>)
    ensures IsSubsequence(r, eligible)
    ensures forall c :: c in r <==> c in eligible && Matches(c, interests)
  {
    Filter(c => Matches(c, interests), eligible)
  }

  /** A matching course is recommended as often as it is eligible, any other never. */
  lemma RecommendedCounts(eligible: seq<Course>, interests: string)
    ensures forall c :: multiset(Recommended(eligible, interests))[c]
                        == if Matches(c, interests) then multiset(eligible)[c] else 0
  {
    FilterCounts(c => Matches(c, interests), eligible);
  }

  /** One more eligible course is recommended after the others exactly when it matches. */
  lemma RecommendedAppend(eligible: seq<Course>, interests: string, c: Course)
    ensures Recommended(eligible + [c], interests)
            == Recommended(eligible, interests) + (if Matches(c, interests) then [c] else [])
  {
    FilterAppend(c => Matches(c, interests), eligible, c);
  }

  /** No course is recommended twice when the eligible list has no repeats, which a
      catalogue with unique ids guarantees (`AgeEligibleDistinct`). */
  lemma RecommendedDistinct(eligible: seq<Course>, interests: string)
    requires Distinct(eligible)
    ensures Distinct(Recommended(eligible, interests))
  {
    SubsequenceDistinct(Recommended(eligible, interests), eligible);
  }

  /** A keyword missing from the table hits exactly the courses that mention it. */
  lemma UnknownKeyword(c: Course, keyword: string)
    requires keyword !in Synonyms
    ensures KeywordHits(c, keyword) <==> Mentions(c, keyword)
  {
    assert GetSynonyms(keyword) == [keyword];
    if Mentions(c, keyword) {
      assert keyword in GetSynonyms(keyword);
    }
  }

  /** A table keyword hits every course that mentions one of its synonyms. */
  lemma SynonymHits(c: Course, keyword: string, w: string)
    requires keyword in Synonyms && w in Synonyms[keyword]
    requires Mentions(c, w)
    ensures KeywordHits(c, keyword)
  {
    var r := GetSynonyms(keyword);
    assert r[..|r| - 1] == Synonyms[keyword];
    var k :| 0 <= k < |Synonyms[keyword]| && Synonyms[keyword][k] == w;
    assert r[k] == w;
  }

  /** A worked case: the interest "Программирование" recommends a course named
      "Алгоритмы", through the synonym "алгоритмы" and Cyrillic lower-casing. */
  lemma SynonymExample()
    ensures Matches(Course(1, "Алгоритмы", "", 6, 18), "Программирование")
  {
    var c := Course(1, "Алгоритмы", "", 6, 18);
    ExampleSplit();
    ExampleHits(c);
    assert "программирование" in Split(Lower("Программирование"));
  }

  lemma ExampleSplit()
    ensures Split(Lower("Программирование")) == ["программирование"]
  {
    LowerExamples();
    assert NoSpace("программирование");
    SplitOfWord("программирование");
  }

  lemma ExampleHits(c: Course)
    requires c.name == "Алгоритмы"
    ensures KeywordHits(c, "программирование")
  {
    LowerExamples();
    assert OccursAt(Lower(c.name), "алгоритмы", 0);
    assert Mentions(c, "алгоритмы");
    ProgrammingSynonym();
    SynonymHits(c, "программирование", "алгоритмы");
  }

  lemma LowerExamples()
    ensures Lower("Программирование") == "программирование"
    ensures Lower("Алгоритмы") == "алгоритмы"
  {
    var a := "программирование";
    assert forall i :: 0 <= i < |a| ==> Lower("Программирование")[i] == a[i];
    var b := "алгоритмы";
    assert forall i :: 0 <= i < |b| ==> Lower("Алгоритмы")[i] == b[i];
  }

  lemma ProgrammingSynonym()
    ensures "программирование" in Synonyms && "алгоритмы" in Synonyms["программирование"]
  {
    assert Synonyms["программирование"][4] == "алгоритмы";
  }

  // ---------------------------------------------------------------------------
  // The loops of `get_phone`

  /** `any(synonym in course_name or synonym in course_description for synonym in
      synonyms)`, scanning left to right and stopping at the first hit. */
  method AnyMentioned(c: Course, synonyms: seq<string>) returns (hit: bool)
    ensures hit <==> exists w :: w in synonyms && Mentions(c, w)
  {
    var courseName := Lower(c.name);
    var courseDescription := Lower(c.description);
    hit := false;
    var m := 0;
    while m < |synonyms|
      invariant 0 <= m <= |synonyms|
      invariant forall k :: 0 <= k < m ==> !Mentions(c, synonyms[k])
    {
      if Contains(courseName, synonyms[m]) || Contains(courseDescription, synonyms[m]) {
        hit := true;
        return;
      }
      m := m + 1;
    }
  }

  /** The loop over `child_interests.split()` for one course: try the keywords in
      turn and stop (`break`) at the first one that hits. */
  method AnyKeywordHits(c: Course, keywords: seq<string>) returns (found: bool)
    ensures found <==> exists keyword :: keyword in keywords && KeywordHits(c, keyword)
  {
    found := false;
    var j := 0;
    while j < |keywords|
      invariant 0 <= j <= |keywords|
      invariant forall k :: 0 <= k < j ==> !KeywordHits(c, keywords[k])
    {
      var hit := AnyMentioned(c, GetSynonyms(keywords[j]));
      if hit {
        assert KeywordHits(c, keywords[j]);
        found := true;
        break;
      }
      assert !KeywordHits(c, keywords[j]);
      j := j + 1;
    }
    if !found {
      assert forall keyword :: keyword in keywords ==> !KeywordHits(c, keyword);
    }
  }

  /** Taking one more eligible course into account appends it exactly when it matches. */
  lemma RecommendStep(eligible: seq<Course>, interests: string, i: nat)
    requires i < |eligible|
    ensures Recommended(eligible[..i + 1], interests)
            == Recommended(eligible[..i], interests) + (if Matches(eligible[i], interests) then [eligible[i]] else [])
  {
    assert eligible[..i + 1] == eligible[..i] + [eligible[i]];
    RecommendedAppend(eligible[..i], interests, eligible[i]);
  }

  /** The body of the loop over the eligible courses: the keywords are the tokens of the
      interests lower-cased once before the loop. */
  method CourseMatches(c: Course, childInterests: string, interests: string) returns (found: bool)
    requires childInterests == Lower(interests)
    ensures found == Matches(c, interests)
  {
    found := AnyKeywordHits(c, Split(childInterests));
  }

  /** The loop that builds `recommended_courses`: each course is appended once, when
      some keyword hits it. It computes exactly `Recommended`. */
  method RecommendLoop(eligible: seq<Course>, interests: string) returns (recommended: seq<Course>)
    ensures recommended == Recommended(eligible, interests)
  {
    var childInterests := Lower(interests);
    recommended := [];
    var i := 0;
    while i < |eligible|
      invariant 0 <= i <= |eligible|
      invariant recommended == Recommended(eligible[..i], interests)
    {
      var course := eligible[i];
      var found := CourseMatches(course, childInterests, interests);
      RecommendStep(eligible, interests, i);
      if found {
        recommended := recommended + [course];
      }
      i := i + 1;
    }
    assert eligible[..|eligible|] == eligible;
  }
}
