/**
 * `SchemaValidator::validateTheme`: a pure function from a document and the
 * `strict` flag to the accumulated error list. No check short-circuits
 * another: the errors of each part are appended in a fixed order (title,
 * description, difficulty, the strict checks, questions, flashcards, fiche),
 * and within a list in item order.
 */
module Validator {
  import opened Wrappers
  import opened Php
  import opened Schema
  import opened IdPattern

  datatype Report = Report(valid: bool, errors: seq<Violation>, compliant: bool)

  /** A required text field with inclusive length bounds: at most one error. */
  function TextErrors(v: Option<string>, lo: nat, hi: nat, missing: Violation, length: Violation): (r: seq<Violation>)
    requires missing != length
    ensures |r| <= 1
    ensures missing in r <==> BlankText(v)
    ensures length in r <==> !BlankText(v) && !(lo <= StrLen(v.value) <= hi)
    ensures forall e :: e in r ==> e == missing || e == length
  {
    if BlankText(v) then [missing]
    else if StrLen(v.value) < lo || StrLen(v.value) > hi then [length]
    else []
  }

  /** A required value from a fixed list: at most one error. */
  function EnumErrors(v: Option<string>, allowed: set<string>, missing: Violation, invalid: Violation): (r: seq<Violation>)
    requires missing != invalid
    ensures |r| <= 1
    ensures missing in r <==> BlankText(v)
    ensures invalid in r <==> !BlankText(v) && v.value !in allowed
    ensures forall e :: e in r ==> e == missing || e == invalid
  {
    if BlankText(v) then [missing]
    else if v.value !in allowed then [invalid]
    else []
  }

  /** A required id matching the item's pattern. */
  function IdErrors(v: Option<string>, prefix: char, missing: Violation, pattern: Violation): (r: seq<Violation>)
    requires missing != pattern
    ensures |r| <= 1
    ensures missing in r <==> BlankText(v)
    ensures pattern in r <==> !BlankText(v) && !IdMatches(prefix, v.value)
    ensures forall e :: e in r ==> e == missing || e == pattern
  {
    if BlankText(v) then [missing]
    else if !IdMatches(prefix, v.value) then [pattern]
    else []
  }

  function ScalarErrors(doc: Theme): (r: seq<Violation>)
    ensures forall e :: e in r ==> e.Scalar()
  {
    TextErrors(doc.title, 3, 255, TitleMissing, TitleLength)
    + TextErrors(doc.description, 10, 2000, DescriptionMissing, DescriptionLength)
    + EnumErrors(doc.difficulty, Difficulties, DifficultyMissing, DifficultyInvalid)
  }

  /** The checks made only in strict mode. */
  function StrictErrors(doc: Theme): (r: seq<Violation>)
    ensures forall e :: e in r ==> e.StrictOnly()
    ensures NoContent in r <==> !HasContent(doc)
  {
    EnumErrors(doc.contentType, ContentTypes, ContentTypeMissing, ContentTypeInvalid)
    + (if HasContent(doc) then [] else [NoContent])
  }

  // ---------------------------------------------------------------------
  // The per-item loops

  /**
   * The shape the three per-item loops share: the checks of each item, with
   * its index, one item after the other. The loops are written out below as
   * the source has them; this form lets their membership be proved once,
   * without looking into the item checks.
   */
  function ItemErrors<T>(items: seq<T>, start: nat, check: (nat, T) -> seq<Violation>): seq<Violation> {
    if items == [] then [] else check(start, items[0]) + ItemErrors(items[1..], start + 1, check)
  }

  /** A violation that names a question, flashcard or section by index. */
  predicate AboutItem(x: Violation) {
    x.InQuestion() || x.InFlashcard() || x.InSection()
  }

  /** When every check reports only about its own item, a violation is reported exactly by the check of the item it names. */
  lemma {:induction false} ItemErrorsIff<T>(items: seq<T>, start: nat, check: (nat, T) -> seq<Violation>, x: Violation)
    requires forall k, t, e :: e in check(k, t) ==> AboutItem(e) && e.i == k
    ensures x in ItemErrors(items, start, check) <==>
              AboutItem(x) && start <= x.i < start + |items| && x in check(x.i, items[x.i - start])
  {
    if items != [] {
      ItemErrorsIff(items[1..], start + 1, check, x);
      if AboutItem(x) && x.i == start {
        assert items[x.i - start] == items[0];
      } else if AboutItem(x) && start < x.i < start + |items| {
        assert items[1..][x.i - (start + 1)] == items[x.i - start];
      }
    }
  }

  /** The same from index 0, where the item an error names is simply `items[x.i]`. */
  lemma ItemErrorsFromZero<T>(items: seq<T>, check: (nat, T) -> seq<Violation>, x: Violation)
    requires forall k, t, e :: e in check(k, t) ==> AboutItem(e) && e.i == k
    ensures x in ItemErrors(items, 0, check) <==> AboutItem(x) && x.i < |items| && x in check(x.i, items[x.i])
  {
    ItemErrorsIff(items, 0, check, x);
    if AboutItem(x) && x.i < |items| {
      assert items[x.i - 0] == items[x.i];
    }
  }

  function ChoicesErrors(i: nat, choices: Option<Coll<string>>): (r: seq<Violation>)
    ensures |r| <= 1
    ensures QuestionChoicesMissing(i) in r <==> choices.None? || choices.value.NotArray?
    ensures QuestionChoiceCount(i) in r <==>
              choices.Some? && choices.value.List? && !(2 <= |choices.value.items| <= 6)
    ensures forall e :: e in r ==> e == QuestionChoicesMissing(i) || e == QuestionChoiceCount(i)
  {
    match choices
    case None => [QuestionChoicesMissing(i)]
    case Some(NotArray(_)) => [QuestionChoicesMissing(i)]
    case Some(List(cs)) => if |cs| < 2 || |cs| > 6 then [QuestionChoiceCount(i)] else []
  }

  /**
   * The `correctAnswer` check. Its range part is made only when `choices` is
   * an array; when `choices` is malformed its own error stands alone.
   */
  function AnswerErrors(i: nat, q: Question): (r: seq<Violation>)
    ensures |r| <= 1
    ensures QuestionAnswerInvalid(i) in r <==> q.correctAnswer.None? || q.correctAnswer.value.NonIntAnswer?
    ensures QuestionAnswerRange(i) in r <==>
              && q.correctAnswer.Some? && q.correctAnswer.value.IntAnswer?
              && q.choices.Some? && q.choices.value.List?
              && !(0 <= q.correctAnswer.value.n < |q.choices.value.items|)
    ensures forall e :: e in r ==> e == QuestionAnswerInvalid(i) || e == QuestionAnswerRange(i)
  {
    match q.correctAnswer
    case None => [QuestionAnswerInvalid(i)]
    case Some(NonIntAnswer) => [QuestionAnswerInvalid(i)]
    case Some(IntAnswer(n)) =>
      match q.choices
      case Some(List(cs)) => if n < 0 || n >= |cs| then [QuestionAnswerRange(i)] else []
      case _ => []
  }

  function QuestionErrors(i: nat, q: Question): (r: seq<Violation>)
    ensures forall e :: e in r ==> e.InQuestion() && e.i == i
    ensures |r| <= 4
    ensures QuestionIdMissing(i) in r <==> BlankText(q.id)
    ensures QuestionIdPattern(i) in r <==> !BlankText(q.id) && !IdMatches('q', q.id.value)
    ensures QuestionTextMissing(i) in r <==> BlankText(q.text)
    ensures QuestionTextLength(i) in r <==> !BlankText(q.text) && !(5 <= StrLen(q.text.value) <= 1000)
    ensures QuestionChoicesMissing(i) in r <==> q.choices.None? || q.choices.value.NotArray?
    ensures QuestionChoiceCount(i) in r <==>
              q.choices.Some? && q.choices.value.List? && !(2 <= |q.choices.value.items| <= 6)
    ensures QuestionAnswerInvalid(i) in r <==> q.correctAnswer.None? || q.correctAnswer.value.NonIntAnswer?
    ensures QuestionAnswerRange(i) in r <==>
              && q.correctAnswer.Some? && q.correctAnswer.value.IntAnswer?
              && q.choices.Some? && q.choices.value.List?
              && !(0 <= q.correctAnswer.value.n < |q.choices.value.items|)
  {
    var d := IdErrors(q.id, 'q', QuestionIdMissing(i), QuestionIdPattern(i));
    var t := TextErrors(q.text, 5, 1000, QuestionTextMissing(i), QuestionTextLength(i));
    var c := ChoicesErrors(i, q.choices);
    var a := AnswerErrors(i, q);
    AllOfQuestion(d, t, c, a, i);
    QuestionFieldsApart(i, d, t, c, a);
    d + t + c + a
  }

  /** Each field check of a question raises only its own two violations, so each violation comes from its own check. */
  lemma QuestionFieldsApart(i: nat, d: seq<Violation>, t: seq<Violation>, c: seq<Violation>, a: seq<Violation>)
    requires forall e :: e in d ==> e == QuestionIdMissing(i) || e == QuestionIdPattern(i)
    requires forall e :: e in t ==> e == QuestionTextMissing(i) || e == QuestionTextLength(i)
    requires forall e :: e in c ==> e == QuestionChoicesMissing(i) || e == QuestionChoiceCount(i)
    requires forall e :: e in a ==> e == QuestionAnswerInvalid(i) || e == QuestionAnswerRange(i)
    ensures QuestionIdMissing(i) in d + t + c + a <==> QuestionIdMissing(i) in d
    ensures QuestionIdPattern(i) in d + t + c + a <==> QuestionIdPattern(i) in d
    ensures QuestionTextMissing(i) in d + t + c + a <==> QuestionTextMissing(i) in t
    ensures QuestionTextLength(i) in d + t + c + a <==> QuestionTextLength(i) in t
    ensures QuestionChoicesMissing(i) in d + t + c + a <==> QuestionChoicesMissing(i) in c
    ensures QuestionChoiceCount(i) in d + t + c + a <==> QuestionChoiceCount(i) in c
    ensures QuestionAnswerInvalid(i) in d + t + c + a <==> QuestionAnswerInvalid(i) in a
    ensures QuestionAnswerRange(i) in d + t + c + a <==> QuestionAnswerRange(i) in a
  {
  }

  lemma AllOfQuestion(a: seq<Violation>, b: seq<Violation>, c: seq<Violation>, d: seq<Violation>, i: nat)
    requires forall e :: e in a ==> e == QuestionIdMissing(i) || e == QuestionIdPattern(i)
    requires forall e :: e in b ==> e == QuestionTextMissing(i) || e == QuestionTextLength(i)
    requires forall e :: e in c ==> e == QuestionChoicesMissing(i) || e == QuestionChoiceCount(i)
    requires forall e :: e in d ==> e == QuestionAnswerInvalid(i) || e == QuestionAnswerRange(i)
    ensures forall e :: e in a + b + c + d ==> e.InQuestion() && e.i == i
  {
  }

  /** The errors of `qs`, the first of which sits at index `start` of the list. */
  function QuestionListErrors(qs: seq<Question>, start: nat): (r: seq<Violation>)
    ensures forall e :: e in r ==> e.InQuestion() && start <= e.i < start + |qs|
  {
    if qs == [] then []
    else
      QuestionErrors(start, qs[0]) + QuestionListErrors(qs[1..], start + 1)
  }

  /** A violation is among the errors of `qs` exactly when it is raised by the question it names. */
  lemma QuestionListErrorsIff(qs: seq<Question>, start: nat, x: Violation)
    ensures x in QuestionListErrors(qs, start) <==> x.InQuestion() && start <= x.i < start + |qs| && x in QuestionErrors(x.i, qs[x.i - start])
  {
    QuestionListIsItemErrors(qs, start);
    ItemErrorsIff(qs, start, QuestionErrors, x);
  }

  lemma {:induction false} QuestionListIsItemErrors(qs: seq<Question>, start: nat)
    ensures QuestionListErrors(qs, start) == ItemErrors(qs, start, QuestionErrors)
  {
    if qs != [] {
      QuestionListIsItemErrors(qs[1..], start + 1);
    }
  }






  function QuestionsErrors(questions: Option<Coll<Question>>): (r: seq<Violation>)
    ensures forall e :: e in r ==> e.InQuestion() || e == QuestionsNotNonEmptyArray
  {
    match questions
    case None => []
    case Some(NotArray(_)) => [QuestionsNotNonEmptyArray]
    case Some(List(qs)) => if qs == [] then [QuestionsNotNonEmptyArray] else QuestionListErrors(qs, 0)
  }

  function FlashcardErrors(i: nat, f: Flashcard): (r: seq<Violation>)
    ensures forall e :: e in r ==> e.InFlashcard() && e.i == i
    ensures |r| <= 3
    ensures FlashcardIdMissing(i) in r <==> BlankText(f.id)
    ensures FlashcardIdPattern(i) in r <==> !BlankText(f.id) && !IdMatches('f', f.id.value)
    ensures FlashcardFrontMissing(i) in r <==> BlankText(f.front)
    ensures FlashcardFrontLength(i) in r <==> !BlankText(f.front) && !(3 <= StrLen(f.front.value) <= 500)
    ensures FlashcardBackMissing(i) in r <==> BlankText(f.back)
    ensures FlashcardBackLength(i) in r <==> !BlankText(f.back) && !(3 <= StrLen(f.back.value) <= 2000)
  {
    var d := IdErrors(f.id, 'f', FlashcardIdMissing(i), FlashcardIdPattern(i));
    var fr := TextErrors(f.front, 3, 500, FlashcardFrontMissing(i), FlashcardFrontLength(i));
    var b := TextErrors(f.back, 3, 2000, FlashcardBackMissing(i), FlashcardBackLength(i));
    AllOfFlashcard(d, fr, b, i);
    FlashcardFieldsApart(i, d, fr, b);
    d + fr + b
  }

  /** Each field check of a flashcard raises only its own two violations. */
  lemma FlashcardFieldsApart(i: nat, d: seq<Violation>, fr: seq<Violation>, b: seq<Violation>)
    requires forall e :: e in d ==> e == FlashcardIdMissing(i) || e == FlashcardIdPattern(i)
    requires forall e :: e in fr ==> e == FlashcardFrontMissing(i) || e == FlashcardFrontLength(i)
    requires forall e :: e in b ==> e == FlashcardBackMissing(i) || e == FlashcardBackLength(i)
    ensures FlashcardIdMissing(i) in d + fr + b <==> FlashcardIdMissing(i) in d
    ensures FlashcardIdPattern(i) in d + fr + b <==> FlashcardIdPattern(i) in d
    ensures FlashcardFrontMissing(i) in d + fr + b <==> FlashcardFrontMissing(i) in fr
    ensures FlashcardFrontLength(i) in d + fr + b <==> FlashcardFrontLength(i) in fr
    ensures FlashcardBackMissing(i) in d + fr + b <==> FlashcardBackMissing(i) in b
    ensures FlashcardBackLength(i) in d + fr + b <==> FlashcardBackLength(i) in b
  {
  }

  lemma AllOfFlashcard(a: seq<Violation>, b: seq<Violation>, c: seq<Violation>, i: nat)
    requires forall e :: e in a ==> e == FlashcardIdMissing(i) || e == FlashcardIdPattern(i)
    requires forall e :: e in b ==> e == FlashcardFrontMissing(i) || e == FlashcardFrontLength(i)
    requires forall e :: e in c ==> e == FlashcardBackMissing(i) || e == FlashcardBackLength(i)
    ensures forall e :: e in a + b + c ==> e.InFlashcard() && e.i == i
  {
  }

  function FlashcardListErrors(fs: seq<Flashcard>, start: nat): (r: seq<Violation>)
    ensures forall e :: e in r ==> e.InFlashcard() && start <= e.i < start + |fs|
  {
    if fs == [] then []
    else
      FlashcardErrors(start, fs[0]) + FlashcardListErrors(fs[1..], start + 1)
  }

  /** A violation is among the errors of `fs` exactly when it is raised by the flashcard it names. */
  lemma FlashcardListErrorsIff(fs: seq<Flashcard>, start: nat, x: Violation)
    ensures x in FlashcardListErrors(fs, start) <==> x.InFlashcard() && start <= x.i < start + |fs| && x in FlashcardErrors(x.i, fs[x.i - start])
  {
    FlashcardListIsItemErrors(fs, start);
    ItemErrorsIff(fs, start, FlashcardErrors, x);
  }

  lemma {:induction false} FlashcardListIsItemErrors(fs: seq<Flashcard>, start: nat)
    ensures FlashcardListErrors(fs, start) == ItemErrors(fs, start, FlashcardErrors)
  {
    if fs != [] {
      FlashcardListIsItemErrors(fs[1..], start + 1);
    }
  }






  function FlashcardsErrors(flashcards: Option<Coll<Flashcard>>): (r: seq<Violation>)
    ensures forall e :: e in r ==> e.InFlashcard() || e == FlashcardsNotArray
  {
    match flashcards
    case None => []
    case Some(NotArray(_)) => [FlashcardsNotArray]
    case Some(List(fs)) => FlashcardListErrors(fs, 0)
  }

  function KeyPointsErrors(i: nat, keyPoints: Option<Coll<string>>): (r: seq<Violation>)
    ensures |r| <= 1
    ensures KeyPointsNotArray(i) in r <==> keyPoints.Some? && keyPoints.value.NotArray?
    ensures KeyPointsTooMany(i) in r <==> keyPoints.Some? && keyPoints.value.List? && |keyPoints.value.items| > 10
    ensures forall e :: e in r ==> e == KeyPointsNotArray(i) || e == KeyPointsTooMany(i)
  {
    match keyPoints
    case None => []
    case Some(NotArray(_)) => [KeyPointsNotArray(i)]
    case Some(List(ks)) => if |ks| > 10 then [KeyPointsTooMany(i)] else []
  }

  function SectionErrors(i: nat, s: Section): (r: seq<Violation>)
    ensures forall e :: e in r ==> e.InSection() && e.i == i
    ensures |r| <= 3
    ensures SectionTitleMissing(i) in r <==> BlankText(s.title)
    ensures SectionTitleLength(i) in r <==> !BlankText(s.title) && !(3 <= StrLen(s.title.value) <= 255)
    ensures SectionContentMissing(i) in r <==> BlankText(s.content)
    ensures SectionContentLength(i) in r <==> !BlankText(s.content) && !(10 <= StrLen(s.content.value) <= 5000)
    ensures KeyPointsNotArray(i) in r <==> s.keyPoints.Some? && s.keyPoints.value.NotArray?
    ensures KeyPointsTooMany(i) in r <==>
              s.keyPoints.Some? && s.keyPoints.value.List? && |s.keyPoints.value.items| > 10
  {
    var t := TextErrors(s.title, 3, 255, SectionTitleMissing(i), SectionTitleLength(i));
    var c := TextErrors(s.content, 10, 5000, SectionContentMissing(i), SectionContentLength(i));
    var k := KeyPointsErrors(i, s.keyPoints);
    AllOfSection(t, c, k, i);
    SectionFieldsApart(i, t, c, k);
    t + c + k
  }

  /** Each field check of a section raises only its own two violations. */
  lemma SectionFieldsApart(i: nat, t: seq<Violation>, c: seq<Violation>, k: seq<Violation>)
    requires forall e :: e in t ==> e == SectionTitleMissing(i) || e == SectionTitleLength(i)
    requires forall e :: e in c ==> e == SectionContentMissing(i) || e == SectionContentLength(i)
    requires forall e :: e in k ==> e == KeyPointsNotArray(i) || e == KeyPointsTooMany(i)
    ensures SectionTitleMissing(i) in t + c + k <==> SectionTitleMissing(i) in t
    ensures SectionTitleLength(i) in t + c + k <==> SectionTitleLength(i) in t
    ensures SectionContentMissing(i) in t + c + k <==> SectionContentMissing(i) in c
    ensures SectionContentLength(i) in t + c + k <==> SectionContentLength(i) in c
    ensures KeyPointsNotArray(i) in t + c + k <==> KeyPointsNotArray(i) in k
    ensures KeyPointsTooMany(i) in t + c + k <==> KeyPointsTooMany(i) in k
  {
  }

  lemma AllOfSection(a: seq<Violation>, b: seq<Violation>, c: seq<Violation>, i: nat)
    requires forall e :: e in a ==> e == SectionTitleMissing(i) || e == SectionTitleLength(i)
    requires forall e :: e in b ==> e == SectionContentMissing(i) || e == SectionContentLength(i)
    requires forall e :: e in c ==> e == KeyPointsNotArray(i) || e == KeyPointsTooMany(i)
    ensures forall e :: e in a + b + c ==> e.InSection() && e.i == i
  {
  }

  function SectionListErrors(ss: seq<Section>, start: nat): (r: seq<Violation>)
    ensures forall e :: e in r ==> e.InSection() && start <= e.i < start + |ss|
  {
    if ss == [] then []
    else
      SectionErrors(start, ss[0]) + SectionListErrors(ss[1..], start + 1)
  }

  /** A violation is among the errors of `ss` exactly when it is raised by the section it names. */
  lemma SectionListErrorsIff(ss: seq<Section>, start: nat, x: Violation)
    ensures x in SectionListErrors(ss, start) <==> x.InSection() && start <= x.i < start + |ss| && x in SectionErrors(x.i, ss[x.i - start])
  {
    SectionListIsItemErrors(ss, start);
    ItemErrorsIff(ss, start, SectionErrors, x);
  }

  lemma {:induction false} SectionListIsItemErrors(ss: seq<Section>, start: nat)
    ensures SectionListErrors(ss, start) == ItemErrors(ss, start, SectionErrors)
  {
    if ss != [] {
      SectionListIsItemErrors(ss[1..], start + 1);
    }
  }






  /**
   * The fiche checks. The "at least one section" branch is kept as the
   * source writes it, although the `empty()` test before it already catches
   * an empty array.
   */
  function FicheErrors(fiche: Option<Fiche>): (r: seq<Violation>)
    ensures forall e :: e in r ==> e.InSection() || e.FicheShape()
    ensures FicheNotObject in r <==> fiche.Some? && fiche.value.FicheNotArray?
    ensures SectionsMissing in r <==> fiche.Some? && fiche.value.FicheArray? && BlankColl(fiche.value.sections)
    ensures SectionsNotArray in r <==>
              && fiche.Some? && fiche.value.FicheArray? && !BlankColl(fiche.value.sections)
              && fiche.value.sections.value.NotArray?
    ensures SectionsTooMany in r <==>
              && fiche.Some? && fiche.value.FicheArray? && fiche.value.sections.Some?
              && fiche.value.sections.value.List? && |fiche.value.sections.value.items| > 20
  {
    match fiche
    case None => []
    case Some(FicheNotArray(_)) => [FicheNotObject]
    case Some(FicheArray(sections, _)) =>
      if BlankColl(sections) then [SectionsMissing]
      else if sections.value.NotArray? then [SectionsNotArray]
      else if |sections.value.items| == 0 then [SectionsEmpty]
      else if |sections.value.items| > 20 then [SectionsTooMany]
      else
        var r := SectionListErrors(sections.value.items, 0);
        NoShapeAmongSections(r);
        r
  }

  lemma NoShapeAmongSections(r: seq<Violation>)
    requires forall e :: e in r ==> e.InSection()
    ensures FicheNotObject !in r && SectionsMissing !in r && SectionsNotArray !in r && SectionsTooMany !in r
  {
  }

  /** `validateTheme($data, $strictErgoMate)`. */
  function ValidateTheme(doc: Theme, strict: bool): (r: Report)
    ensures r.valid <==> |r.errors| == 0
    ensures r.compliant <==> r.valid && strict
    ensures !strict ==> !r.compliant
  {
    var errors :=
      ScalarErrors(doc)
      + (if strict then StrictErrors(doc) else [])
      + QuestionsErrors(doc.questions)
      + FlashcardsErrors(doc.flashcards)
      + FicheErrors(doc.fiche);
    Report(errors == [], errors, errors == [] && strict)
  }
}
