/**
 * Properties of the schema validator: an independent, field-by-field
 * statement of what a conforming document is, proved to coincide with an
 * empty error list, and the promises the source makes about which errors
 * can appear together.
 */
module ValidatorProperties {
  import opened Wrappers
  import opened Php
  import opened Schema
  import opened IdPattern
  import opened Validator

  /** A present text whose length lies in [lo, hi]. */
  predicate TextWithin(v: Option<string>, lo: nat, hi: nat) {
    v.Some? && lo <= StrLen(v.value) <= hi
  }

  predicate QuestionConforms(q: Question) {
    && q.id.Some? && IdMatches('q', q.id.value)
    && TextWithin(q.text, 5, 1000)
    && q.choices.Some? && q.choices.value.List? && 2 <= |q.choices.value.items| <= 6
    && q.correctAnswer.Some? && q.correctAnswer.value.IntAnswer?
    && 0 <= q.correctAnswer.value.n < |q.choices.value.items|
  }

  predicate FlashcardConforms(f: Flashcard) {
    && f.id.Some? && IdMatches('f', f.id.value)
    && TextWithin(f.front, 3, 500)
    && TextWithin(f.back, 3, 2000)
  }

  predicate SectionConforms(s: Section) {
    && TextWithin(s.title, 3, 255)
    && TextWithin(s.content, 10, 5000)
    && (s.keyPoints.Some? ==> s.keyPoints.value.List? && |s.keyPoints.value.items| <= 10)
  }

  predicate ScalarsConform(doc: Theme) {
    && TextWithin(doc.title, 3, 255)
    && TextWithin(doc.description, 10, 2000)
    && doc.difficulty.Some? && doc.difficulty.value in Difficulties
  }

  predicate StrictConforms(doc: Theme) {
    doc.contentType.Some? && doc.contentType.value in ContentTypes && HasContent(doc)
  }

  predicate QuestionsConform(questions: Option<Coll<Question>>) {
    questions.Some? ==>
      && questions.value.List? && |questions.value.items| > 0
      && forall k :: 0 <= k < |questions.value.items| ==> QuestionConforms(questions.value.items[k])
  }

  predicate FlashcardsConform(flashcards: Option<Coll<Flashcard>>) {
    flashcards.Some? ==>
      && flashcards.value.List?
      && forall k :: 0 <= k < |flashcards.value.items| ==> FlashcardConforms(flashcards.value.items[k])
  }

  predicate FicheConforms(fiche: Option<Fiche>) {
    fiche.Some? ==>
      && fiche.value.FicheArray?
      && fiche.value.sections.Some? && fiche.value.sections.value.List?
      && 1 <= |fiche.value.sections.value.items| <= 20
      && forall k :: 0 <= k < |fiche.value.sections.value.items| ==> SectionConforms(fiche.value.sections.value.items[k])
  }

  /** The document the schema describes, written without reference to the error list. */
  predicate Conforms(doc: Theme, strict: bool) {
    && ScalarsConform(doc)
    && (strict ==> StrictConforms(doc))
    && QuestionsConform(doc.questions)
    && FlashcardsConform(doc.flashcards)
    && FicheConforms(doc.fiche)
  }

  lemma TextErrorsEmptyIff(v: Option<string>, lo: nat, hi: nat, missing: Violation, length: Violation)
    requires missing != length && 2 <= lo
    ensures TextErrors(v, lo, hi, missing, length) == [] <==> TextWithin(v, lo, hi)
  {
    var r := TextErrors(v, lo, hi, missing, length);
    if r != [] {
      assert r[0] in r;
    }
  }

  lemma EmptyConcat(a: seq<Violation>, b: seq<Violation>, c: seq<Violation>)
    ensures a + b + c == [] <==> a == [] && b == [] && c == []
  {
    if a + b + c == [] {
      assert |a + b + c| == |a| + |b| + |c|;
    }
  }

  lemma IdErrorsEmptyIff(v: Option<string>, prefix: char, missing: Violation, pattern: Violation)
    requires missing != pattern
    ensures IdErrors(v, prefix, missing, pattern) == [] <==> v.Some? && IdMatches(prefix, v.value)
  {
    var r := IdErrors(v, prefix, missing, pattern);
    if r != [] {
      assert r[0] in r;
    }
  }

  lemma EnumErrorsEmptyIff(v: Option<string>, allowed: set<string>, missing: Violation, invalid: Violation)
    requires missing != invalid && "" !in allowed && "0" !in allowed
    ensures EnumErrors(v, allowed, missing, invalid) == [] <==> v.Some? && v.value in allowed
  {
    var r := EnumErrors(v, allowed, missing, invalid);
    if r != [] {
      assert r[0] in r;
    }
  }

  lemma KeyPointsErrorsEmptyIff(i: nat, keyPoints: Option<Coll<string>>)
    ensures KeyPointsErrors(i, keyPoints) == [] <==>
              (keyPoints.Some? ==> keyPoints.value.List? && |keyPoints.value.items| <= 10)
  {
  }

  lemma QuestionErrorsEmptyIff(i: nat, q: Question)
    ensures QuestionErrors(i, q) == [] <==> QuestionConforms(q)
  {
    var d := IdErrors(q.id, 'q', QuestionIdMissing(i), QuestionIdPattern(i));
    var t := TextErrors(q.text, 5, 1000, QuestionTextMissing(i), QuestionTextLength(i));
    var c := ChoicesErrors(i, q.choices);
    var a := AnswerErrors(i, q);
    assert QuestionErrors(i, q) == d + t + (c + a);
    EmptyConcat(d, t, c + a);
    assert c + a == [] <==> c == [] && a == [];
    IdErrorsEmptyIff(q.id, 'q', QuestionIdMissing(i), QuestionIdPattern(i));
    TextErrorsEmptyIff(q.text, 5, 1000, QuestionTextMissing(i), QuestionTextLength(i));
    if a != [] { assert a[0] in a; }
    if c != [] { assert c[0] in c; }
  }

  lemma {:induction false} QuestionListEmptyIff(qs: seq<Question>, start: nat)
    ensures QuestionListErrors(qs, start) == [] <==> forall k :: 0 <= k < |qs| ==> QuestionConforms(qs[k])
  {
    if qs != [] {
      QuestionErrorsEmptyIff(start, qs[0]);
      QuestionListEmptyIff(qs[1..], start + 1);
      assert forall k :: 1 <= k < |qs| ==> qs[k] == qs[1..][k - 1];
    }
  }

  lemma FlashcardErrorsEmptyIff(i: nat, f: Flashcard)
    ensures FlashcardErrors(i, f) == [] <==> FlashcardConforms(f)
  {
    var d := IdErrors(f.id, 'f', FlashcardIdMissing(i), FlashcardIdPattern(i));
    var fr := TextErrors(f.front, 3, 500, FlashcardFrontMissing(i), FlashcardFrontLength(i));
    var b := TextErrors(f.back, 3, 2000, FlashcardBackMissing(i), FlashcardBackLength(i));
    assert FlashcardErrors(i, f) == d + fr + b;
    EmptyConcat(d, fr, b);
    TextErrorsEmptyIff(f.front, 3, 500, FlashcardFrontMissing(i), FlashcardFrontLength(i));
    TextErrorsEmptyIff(f.back, 3, 2000, FlashcardBackMissing(i), FlashcardBackLength(i));
    IdErrorsEmptyIff(f.id, 'f', FlashcardIdMissing(i), FlashcardIdPattern(i));
  }

  lemma {:induction false} FlashcardListEmptyIff(fs: seq<Flashcard>, start: nat)
    ensures FlashcardListErrors(fs, start) == [] <==> forall k :: 0 <= k < |fs| ==> FlashcardConforms(fs[k])
  {
    if fs != [] {
      FlashcardErrorsEmptyIff(start, fs[0]);
      FlashcardListEmptyIff(fs[1..], start + 1);
      assert forall k :: 1 <= k < |fs| ==> fs[k] == fs[1..][k - 1];
    }
  }

  lemma SectionErrorsEmptyIff(i: nat, s: Section)
    ensures SectionErrors(i, s) == [] <==> SectionConforms(s)
  {
    var t := TextErrors(s.title, 3, 255, SectionTitleMissing(i), SectionTitleLength(i));
    var c := TextErrors(s.content, 10, 5000, SectionContentMissing(i), SectionContentLength(i));
    var k := KeyPointsErrors(i, s.keyPoints);
    assert SectionErrors(i, s) == t + c + k;
    EmptyConcat(t, c, k);
    TextErrorsEmptyIff(s.title, 3, 255, SectionTitleMissing(i), SectionTitleLength(i));
    TextErrorsEmptyIff(s.content, 10, 5000, SectionContentMissing(i), SectionContentLength(i));
    KeyPointsErrorsEmptyIff(i, s.keyPoints);
  }

  lemma {:induction false} SectionListEmptyIff(ss: seq<Section>, start: nat)
    ensures SectionListErrors(ss, start) == [] <==> forall k :: 0 <= k < |ss| ==> SectionConforms(ss[k])
  {
    if ss != [] {
      SectionErrorsEmptyIff(start, ss[0]);
      SectionListEmptyIff(ss[1..], start + 1);
      assert forall k :: 1 <= k < |ss| ==> ss[k] == ss[1..][k - 1];
    }
  }

  lemma FicheErrorsEmptyIff(fiche: Option<Fiche>)
    ensures FicheErrors(fiche) == [] <==> FicheConforms(fiche)
  {
    if fiche.Some? && fiche.value.FicheArray? && fiche.value.sections.Some? && fiche.value.sections.value.List? {
      SectionListEmptyIff(fiche.value.sections.value.items, 0);
    }
  }

  lemma QuestionsErrorsEmptyIff(questions: Option<Coll<Question>>)
    ensures QuestionsErrors(questions) == [] <==> QuestionsConform(questions)
  {
    if questions.Some? && questions.value.List? {
      QuestionListEmptyIff(questions.value.items, 0);
    }
  }

  lemma FlashcardsErrorsEmptyIff(flashcards: Option<Coll<Flashcard>>)
    ensures FlashcardsErrors(flashcards) == [] <==> FlashcardsConform(flashcards)
  {
    if flashcards.Some? && flashcards.value.List? {
      FlashcardListEmptyIff(flashcards.value.items, 0);
    }
  }

  lemma ScalarErrorsEmptyIff(doc: Theme)
    ensures ScalarErrors(doc) == [] <==> ScalarsConform(doc)
  {
    var t := TextErrors(doc.title, 3, 255, TitleMissing, TitleLength);
    var d := TextErrors(doc.description, 10, 2000, DescriptionMissing, DescriptionLength);
    var dif := EnumErrors(doc.difficulty, Difficulties, DifficultyMissing, DifficultyInvalid);
    assert ScalarErrors(doc) == t + d + dif;
    EmptyConcat(t, d, dif);
    TextErrorsEmptyIff(doc.title, 3, 255, TitleMissing, TitleLength);
    TextErrorsEmptyIff(doc.description, 10, 2000, DescriptionMissing, DescriptionLength);
    EnumErrorsEmptyIff(doc.difficulty, Difficulties, DifficultyMissing, DifficultyInvalid);
  }

  lemma StrictErrorsEmptyIff(doc: Theme)
    ensures StrictErrors(doc) == [] <==> StrictConforms(doc)
  {
    EnumErrorsEmptyIff(doc.contentType, ContentTypes, ContentTypeMissing, ContentTypeInvalid);
  }

  /**
   * The validator's verdict agrees with the field-by-field description:
   * a report is valid exactly when the document conforms.
   */
  lemma ValidIffConforms(doc: Theme, strict: bool)
    ensures ValidateTheme(doc, strict).valid <==> Conforms(doc, strict)
  {
    var a := ScalarErrors(doc);
    var b := if strict then StrictErrors(doc) else [];
    var c := QuestionsErrors(doc.questions);
    var d := FlashcardsErrors(doc.flashcards);
    var e := FicheErrors(doc.fiche);
    assert ValidateTheme(doc, strict).errors == a + b + c + d + e;
    ScalarErrorsEmptyIff(doc);
    StrictErrorsEmptyIff(doc);
    QuestionsErrorsEmptyIff(doc.questions);
    FlashcardsErrorsEmptyIff(doc.flashcards);
    FicheErrorsEmptyIff(doc.fiche);
  }

  // ---------------------------------------------------------------------
  // Which errors can appear, and how often

  /** The part of the list the strict checks contribute. */
  function StrictPart(doc: Theme, strict: bool): seq<Violation> {
    if strict then StrictErrors(doc) else []
  }

  /**
   * The one part of the list that can raise `x`: 0 the scalar checks, 1 the
   * strict checks, 2 the questions, 3 the flashcards, 4 the fiche.
   */
  function PartOf(x: Violation): (k: nat)
    ensures k <= 4
  {
    if x.Scalar() then 0
    else if x.StrictOnly() then 1
    else if x.InQuestion() || x.QuestionsNotNonEmptyArray? then 2
    else if x.InFlashcard() || x.FlashcardsNotArray? then 3
    else 4
  }

  /** Part `k` of a list made of five consecutive parts. */
  function Pick(k: nat, a: seq<Violation>, b: seq<Violation>, c: seq<Violation>, d: seq<Violation>, e: seq<Violation>): seq<Violation>
    requires k <= 4
  {
    if k == 0 then a else if k == 1 then b else if k == 2 then c else if k == 3 then d else e
  }

  /** Five parts each holding only violations of their own kind, as the validator's parts do. */
  ghost predicate Kinded(a: seq<Violation>, b: seq<Violation>, c: seq<Violation>, d: seq<Violation>, e: seq<Violation>) {
    && (forall y :: y in a ==> y.Scalar())
    && (forall y :: y in b ==> y.StrictOnly())
    && (forall y :: y in c ==> y.InQuestion() || y == QuestionsNotNonEmptyArray)
    && (forall y :: y in d ==> y.InFlashcard() || y == FlashcardsNotArray)
    && (forall y :: y in e ==> y.InSection() || y.FicheShape())
  }

  /** The error list in five parts: scalars, strict checks, questions, flashcards, fiche. */
  lemma ErrorsInParts(doc: Theme, strict: bool)
    // This clause only unfolds `ValidateTheme`; the content is in `Kinded` below.
    ensures ValidateTheme(doc, strict).errors ==
              ScalarErrors(doc) + StrictPart(doc, strict) + QuestionsErrors(doc.questions)
              + FlashcardsErrors(doc.flashcards) + FicheErrors(doc.fiche)
    ensures Kinded(ScalarErrors(doc), StrictPart(doc, strict), QuestionsErrors(doc.questions),
                   FlashcardsErrors(doc.flashcards), FicheErrors(doc.fiche))
  {
  }

  /** Occurrences of `x` in a list made of consecutive parts. */
  lemma CountInParts(x: Violation, a: seq<Violation>, b: seq<Violation>, c: seq<Violation>, d: seq<Violation>, e: seq<Violation>)
    ensures multiset(a + b + c + d + e)[x] ==
              multiset(a)[x] + multiset(b)[x] + multiset(c)[x] + multiset(d)[x] + multiset(e)[x]
  {
  }

  /**
   * Three checks, each raising at most one of its own two violations: in
   * their concatenation each pair occurs at most once in all, and each
   * violation occurs exactly when its own check raises it.
   */
  lemma ThreeChecksApart(a: seq<Violation>, b: seq<Violation>, c: seq<Violation>,
                         a0: Violation, a1: Violation, b0: Violation, b1: Violation, c0: Violation, c1: Violation)
    requires |a| <= 1 && |b| <= 1 && |c| <= 1
    requires forall e :: e in a ==> e == a0 || e == a1
    requires forall e :: e in b ==> e == b0 || e == b1
    requires forall e :: e in c ==> e == c0 || e == c1
    requires a0 != a1 && b0 != b1 && c0 != c1
    requires a0 != b0 && a0 != b1 && a1 != b0 && a1 != b1
    requires a0 != c0 && a0 != c1 && a1 != c0 && a1 != c1
    requires b0 != c0 && b0 != c1 && b1 != c0 && b1 != c1
    ensures multiset(a + b + c)[a0] + multiset(a + b + c)[a1] <= 1
    ensures multiset(a + b + c)[b0] + multiset(a + b + c)[b1] <= 1
    ensures multiset(a + b + c)[c0] + multiset(a + b + c)[c1] <= 1
    ensures (a0 in a + b + c <==> a0 in a) && (a1 in a + b + c <==> a1 in a)
    ensures (b0 in a + b + c <==> b0 in b) && (b1 in a + b + c <==> b1 in b)
    ensures (c0 in a + b + c <==> c0 in c) && (c1 in a + b + c <==> c1 in c)
  {
    CountInThree(a0, a, b, c);
    CountInThree(a1, a, b, c);
    CountInThree(b0, a, b, c);
    CountInThree(b1, a, b, c);
    CountInThree(c0, a, b, c);
    CountInThree(c1, a, b, c);
    OwnPairCount(a0, a1, a, b, c);
    OwnPairCount(b0, b1, b, a, c);
    OwnPairCount(c0, c1, c, a, b);
  }

  /** A pair raised only by `own`, at most once, and by neither of two other checks. */
  lemma OwnPairCount(x: Violation, y: Violation, own: seq<Violation>, o1: seq<Violation>, o2: seq<Violation>)
    requires x != y && |own| <= 1
    requires x !in o1 && y !in o1 && x !in o2 && y !in o2
    ensures multiset(own)[x] + multiset(own)[y] <= 1
    ensures multiset(o1)[x] == 0 && multiset(o1)[y] == 0 && multiset(o2)[x] == 0 && multiset(o2)[y] == 0
  {
    AtMostOneOfTwo(x, y, own);
  }

  lemma CountInThree(x: Violation, a: seq<Violation>, b: seq<Violation>, c: seq<Violation>)
    ensures multiset(a + b + c)[x] == multiset(a)[x] + multiset(b)[x] + multiset(c)[x]
  {
  }

  lemma AbsentNotCounted(x: Violation, s: seq<Violation>)
    requires x !in s
    ensures multiset(s)[x] == 0
  {
  }

  /** A list of at most one element holds at most one of two distinct values. */
  lemma AtMostOneOfTwo(x: Violation, y: Violation, s: seq<Violation>)
    requires x != y && |s| <= 1
    ensures multiset(s)[x] + multiset(s)[y] <= 1
  {
    if |s| == 1 {
      assert s == [s[0]];
    }
  }

  /** In kinded parts, a violation can only sit in the part `PartOf` names. */
  lemma KindedPlace(y: Violation, a: seq<Violation>, b: seq<Violation>, c: seq<Violation>, d: seq<Violation>, e: seq<Violation>)
    requires Kinded(a, b, c, d, e)
    ensures (y in a ==> PartOf(y) == 0) && (y in b ==> PartOf(y) == 1) && (y in c ==> PartOf(y) == 2)
    ensures (y in d ==> PartOf(y) == 3) && (y in e ==> PartOf(y) == 4)
  {
    if y in c && y.InQuestion() {
      QuestionPart(y);
    }
    if y in d && y.InFlashcard() {
      FlashcardPart(y);
    }
    if y in e && y.InSection() {
      SectionPart(y);
    }
    if y in e && y.FicheShape() {
      FicheShapePart(y);
    }
  }

  /** In kinded parts, `x` occurs in the whole exactly as in its own part. */
  lemma KindedCount(x: Violation, a: seq<Violation>, b: seq<Violation>, c: seq<Violation>, d: seq<Violation>, e: seq<Violation>)
    requires Kinded(a, b, c, d, e)
    ensures multiset(a + b + c + d + e)[x] == multiset(Pick(PartOf(x), a, b, c, d, e))[x]
    ensures x in a + b + c + d + e <==> x in Pick(PartOf(x), a, b, c, d, e)
  {
    KindedPlace(x, a, b, c, d, e);
    CountInParts(x, a, b, c, d, e);
    var k := PartOf(x);
    if k != 0 { AbsentNotCounted(x, a); }
    if k != 1 { AbsentNotCounted(x, b); }
    if k != 2 { AbsentNotCounted(x, c); }
    if k != 3 { AbsentNotCounted(x, d); }
    if k != 4 { AbsentNotCounted(x, e); }
  }

  /**
   * Each violation is raised by one part of the validator only: it occurs in
   * the report exactly as often as in the part `PartOf` names.
   */
  lemma InOwnPart(doc: Theme, strict: bool, x: Violation)
    ensures var parts := Pick(PartOf(x), ScalarErrors(doc), StrictPart(doc, strict), QuestionsErrors(doc.questions),
                              FlashcardsErrors(doc.flashcards), FicheErrors(doc.fiche));
            && multiset(ValidateTheme(doc, strict).errors)[x] == multiset(parts)[x]
            && (x in ValidateTheme(doc, strict).errors <==> x in parts)
  {
    ErrorsInParts(doc, strict);
    KindedCount(x, ScalarErrors(doc), StrictPart(doc, strict), QuestionsErrors(doc.questions),
                FlashcardsErrors(doc.flashcards), FicheErrors(doc.fiche));
  }

  // ---------------------------------------------------------------------
  // Which item errors reach the report

  /**
   * A question error is in the report exactly when `questions` is an array,
   * the question it names is in it, and that question's own checks raise it.
   */
  lemma QuestionErrorInReport(doc: Theme, strict: bool, x: Violation)
    requires x.InQuestion()
    ensures x in ValidateTheme(doc, strict).errors <==>
              && doc.questions.Some? && doc.questions.value.List?
              && x.i < |doc.questions.value.items|
              && x in QuestionErrors(x.i, doc.questions.value.items[x.i])
  {
    QuestionPart(x);
    InOwnPart(doc, strict, x);
    assert x in ValidateTheme(doc, strict).errors <==> x in QuestionsErrors(doc.questions);
    QuestionInQuestions(doc.questions, x);
  }

  lemma QuestionInQuestions(questions: Option<Coll<Question>>, x: Violation)
    requires x.InQuestion()
    ensures x in QuestionsErrors(questions) <==>
              && questions.Some? && questions.value.List?
              && x.i < |questions.value.items|
              && x in QuestionErrors(x.i, questions.value.items[x.i])
  {
    match questions
    case None =>
    case Some(NotArray(_)) =>
      assert QuestionsErrors(questions) == [QuestionsNotNonEmptyArray];
      assert x !in QuestionsErrors(questions);
    case Some(List(qs)) =>
      if qs == [] {
        assert QuestionsErrors(questions) == [QuestionsNotNonEmptyArray];
        assert x !in QuestionsErrors(questions);
      } else {
        QuestionListIsItemErrors(qs, 0);
        ItemErrorsFromZero(qs, QuestionErrors, x);
      }
  }

  /**
   * A flashcard error is in the report exactly when `flashcards` is an array,
   * the flashcard it names is in it, and that flashcard's own checks raise it.
   */
  lemma FlashcardErrorInReport(doc: Theme, strict: bool, x: Violation)
    requires x.InFlashcard()
    ensures x in ValidateTheme(doc, strict).errors <==>
              && doc.flashcards.Some? && doc.flashcards.value.List?
              && x.i < |doc.flashcards.value.items|
              && x in FlashcardErrors(x.i, doc.flashcards.value.items[x.i])
  {
    FlashcardPart(x);
    InOwnPart(doc, strict, x);
    assert x in ValidateTheme(doc, strict).errors <==> x in FlashcardsErrors(doc.flashcards);
    FlashcardInFlashcards(doc.flashcards, x);
  }

  lemma FlashcardInFlashcards(flashcards: Option<Coll<Flashcard>>, x: Violation)
    requires x.InFlashcard()
    ensures x in FlashcardsErrors(flashcards) <==>
              && flashcards.Some? && flashcards.value.List?
              && x.i < |flashcards.value.items|
              && x in FlashcardErrors(x.i, flashcards.value.items[x.i])
  {
    if flashcards.Some? && flashcards.value.List? {
      var fs := flashcards.value.items;
      FlashcardListIsItemErrors(fs, 0);
      ItemErrorsFromZero(fs, FlashcardErrors, x);
    }
  }

  /**
   * A section error is in the report exactly when the fiche is an array whose
   * `sections` is an array of at most 20 sections, the section it names is
   * in it, and that section's own checks raise it.
   */
  lemma SectionErrorInReport(doc: Theme, strict: bool, x: Violation)
    requires x.InSection()
    ensures x in ValidateTheme(doc, strict).errors <==>
              && doc.fiche.Some? && doc.fiche.value.FicheArray?
              && doc.fiche.value.sections.Some? && doc.fiche.value.sections.value.List?
              && |doc.fiche.value.sections.value.items| <= 20
              && x.i < |doc.fiche.value.sections.value.items|
              && x in SectionErrors(x.i, doc.fiche.value.sections.value.items[x.i])
  {
    SectionPart(x);
    InOwnPart(doc, strict, x);
    assert x in ValidateTheme(doc, strict).errors <==> x in FicheErrors(doc.fiche);
    SectionInFiche(doc.fiche, x);
  }

  lemma SectionInFiche(fiche: Option<Fiche>, x: Violation)
    requires x.InSection()
    ensures x in FicheErrors(fiche) <==>
              && fiche.Some? && fiche.value.FicheArray?
              && fiche.value.sections.Some? && fiche.value.sections.value.List?
              && |fiche.value.sections.value.items| <= 20
              && x.i < |fiche.value.sections.value.items|
              && x in SectionErrors(x.i, fiche.value.sections.value.items[x.i])
  {
    match fiche
    case None =>
    case Some(FicheNotArray(_)) =>
      assert FicheErrors(fiche) == [FicheNotObject];
      assert x !in FicheErrors(fiche);
    case Some(FicheArray(sections, _)) =>
      if BlankColl(sections) {
        assert FicheErrors(fiche) == [SectionsMissing];
        assert x !in FicheErrors(fiche);
      } else if sections.value.NotArray? {
        assert FicheErrors(fiche) == [SectionsNotArray];
        assert x !in FicheErrors(fiche);
      } else if |sections.value.items| > 20 {
        assert FicheErrors(fiche) == [SectionsTooMany];
        assert x !in FicheErrors(fiche);
      } else {
        var ss := sections.value.items;
        assert FicheErrors(fiche) == SectionListErrors(ss, 0);
        SectionListIsItemErrors(ss, 0);
        ItemErrorsFromZero(ss, SectionErrors, x);
      }
  }

  /** A fiche-shape error is in the report exactly when the fiche checks raise it. */
  lemma FicheShapeInReport(doc: Theme, strict: bool, x: Violation)
    requires x.FicheShape()
    ensures x in ValidateTheme(doc, strict).errors <==> x in FicheErrors(doc.fiche)
  {
    FicheShapePart(x);
    InOwnPart(doc, strict, x);
    assert x in ValidateTheme(doc, strict).errors <==> x in FicheErrors(doc.fiche);
  }

  /** The fiche checks never raise the "at least one section" error. */
  lemma NoEmptySectionsError(fiche: Option<Fiche>)
    ensures SectionsEmpty !in FicheErrors(fiche)
  {
  }

  /**
   * A fiche whose `sections` key holds `null` is not `empty()`, so it counts
   * as content, yet its sections are reported missing.
   */
  lemma NullSectionsReported(other: bool)
    ensures var f := FicheArray(Some(NotArray(true)), other);
            && !BlankFiche(Some(f))
            && FicheErrors(Some(f)) == [SectionsMissing]
  {
  }

  /** Per-section errors come only from a sections array of 1 to 20 elements. */
  lemma FicheSectionsInRange(fiche: Option<Fiche>, x: Violation)
    ensures x in FicheErrors(fiche) && x.InSection() ==>
              && fiche.Some? && fiche.value.FicheArray?
              && fiche.value.sections.Some? && fiche.value.sections.value.List?
              && 1 <= |fiche.value.sections.value.items| <= 20
  {
  }

  /** A scalar-field violation occurs in the report exactly as often as in the scalar checks. */
  lemma ScalarCount(doc: Theme, strict: bool, x: Violation)
    requires x.Scalar()
    ensures multiset(ValidateTheme(doc, strict).errors)[x] == multiset(ScalarErrors(doc))[x]
    ensures x in ValidateTheme(doc, strict).errors <==> x in ScalarErrors(doc)
  {
    InOwnPart(doc, strict, x);
  }

  /** The title is reported at most once: missing when absent or empty, else out of bounds. */
  lemma TitleReportedOnce(doc: Theme, strict: bool)
    ensures var errs := ValidateTheme(doc, strict).errors;
            && multiset(errs)[TitleMissing] + multiset(errs)[TitleLength] <= 1
            && (TitleMissing in errs <==> BlankText(doc.title))
            && (TitleLength in errs <==> !BlankText(doc.title) && !(3 <= StrLen(doc.title.value) <= 255))
  {
    ScalarCount(doc, strict, TitleMissing);
    ScalarCount(doc, strict, TitleLength);
    TitleInScalars(doc);
  }

  /** The same count and conditions within the scalar checks alone. */
  lemma TitleInScalars(doc: Theme)
    ensures var errs := ScalarErrors(doc);
            && multiset(errs)[TitleMissing] + multiset(errs)[TitleLength] <= 1
            && (TitleMissing in errs <==> BlankText(doc.title))
            && (TitleLength in errs <==> !BlankText(doc.title) && !(3 <= StrLen(doc.title.value) <= 255))
  {
    var t := TextErrors(doc.title, 3, 255, TitleMissing, TitleLength);
    var d := TextErrors(doc.description, 10, 2000, DescriptionMissing, DescriptionLength);
    var f := EnumErrors(doc.difficulty, Difficulties, DifficultyMissing, DifficultyInvalid);
    ThreeChecksApart(t, d, f, TitleMissing, TitleLength, DescriptionMissing, DescriptionLength,
                     DifficultyMissing, DifficultyInvalid);
  }

  /** The description is reported at most once: missing when absent or empty, else out of bounds. */
  lemma DescriptionReportedOnce(doc: Theme, strict: bool)
    ensures var errs := ValidateTheme(doc, strict).errors;
            && multiset(errs)[DescriptionMissing] + multiset(errs)[DescriptionLength] <= 1
            && (DescriptionMissing in errs <==> BlankText(doc.description))
            && (DescriptionLength in errs <==> !BlankText(doc.description) && !(10 <= StrLen(doc.description.value) <= 2000))
  {
    ScalarCount(doc, strict, DescriptionMissing);
    ScalarCount(doc, strict, DescriptionLength);
    DescriptionInScalars(doc);
  }

  /** The same count and conditions within the scalar checks alone. */
  lemma DescriptionInScalars(doc: Theme)
    ensures var errs := ScalarErrors(doc);
            && multiset(errs)[DescriptionMissing] + multiset(errs)[DescriptionLength] <= 1
            && (DescriptionMissing in errs <==> BlankText(doc.description))
            && (DescriptionLength in errs <==> !BlankText(doc.description) && !(10 <= StrLen(doc.description.value) <= 2000))
  {
    var t := TextErrors(doc.title, 3, 255, TitleMissing, TitleLength);
    var d := TextErrors(doc.description, 10, 2000, DescriptionMissing, DescriptionLength);
    var f := EnumErrors(doc.difficulty, Difficulties, DifficultyMissing, DifficultyInvalid);
    ThreeChecksApart(t, d, f, TitleMissing, TitleLength, DescriptionMissing, DescriptionLength,
                     DifficultyMissing, DifficultyInvalid);
  }

  /** The difficulty is reported at most once: missing when absent or empty, else not one of the three levels. */
  lemma DifficultyReportedOnce(doc: Theme, strict: bool)
    ensures var errs := ValidateTheme(doc, strict).errors;
            && multiset(errs)[DifficultyMissing] + multiset(errs)[DifficultyInvalid] <= 1
            && (DifficultyMissing in errs <==> BlankText(doc.difficulty))
            && (DifficultyInvalid in errs <==> !BlankText(doc.difficulty) && doc.difficulty.value !in Difficulties)
  {
    ScalarCount(doc, strict, DifficultyMissing);
    ScalarCount(doc, strict, DifficultyInvalid);
    DifficultyInScalars(doc);
  }

  /** The same count and conditions within the scalar checks alone. */
  lemma DifficultyInScalars(doc: Theme)
    ensures var errs := ScalarErrors(doc);
            && multiset(errs)[DifficultyMissing] + multiset(errs)[DifficultyInvalid] <= 1
            && (DifficultyMissing in errs <==> BlankText(doc.difficulty))
            && (DifficultyInvalid in errs <==> !BlankText(doc.difficulty) && doc.difficulty.value !in Difficulties)
  {
    var t := TextErrors(doc.title, 3, 255, TitleMissing, TitleLength);
    var d := TextErrors(doc.description, 10, 2000, DescriptionMissing, DescriptionLength);
    var f := EnumErrors(doc.difficulty, Difficulties, DifficultyMissing, DifficultyInvalid);
    ThreeChecksApart(t, d, f, TitleMissing, TitleLength, DescriptionMissing, DescriptionLength,
                     DifficultyMissing, DifficultyInvalid);
  }


  lemma KindedNoStrict(a: seq<Violation>, c: seq<Violation>, d: seq<Violation>, e: seq<Violation>)
    requires Kinded(a, [], c, d, e)
    ensures forall y :: y in a + [] + c + d + e ==> !y.StrictOnly()
  {
    forall y | y in a + [] + c + d + e
      ensures !y.StrictOnly()
    {
      KindedPlace(y, a, [], c, d, e);
    }
  }

  /**
   * The content_type and "at least some content" checks are strict-only:
   * without `strict` none of their errors appears, and with it the
   * no-content error appears exactly when questions, flashcards and fiche
   * are all empty.
   */
  lemma StrictChecksOnlyWhenStrict(doc: Theme)
    ensures forall e :: e in ValidateTheme(doc, false).errors ==> !e.StrictOnly()
    ensures NoContent in ValidateTheme(doc, true).errors <==> !HasContent(doc)
    ensures ContentTypeMissing in ValidateTheme(doc, true).errors <==> BlankText(doc.contentType)
    ensures ContentTypeInvalid in ValidateTheme(doc, true).errors <==>
              !BlankText(doc.contentType) && doc.contentType.value !in ContentTypes
  {
    ErrorsInParts(doc, false);
    KindedNoStrict(ScalarErrors(doc), QuestionsErrors(doc.questions), FlashcardsErrors(doc.flashcards), FicheErrors(doc.fiche));
    StrictInReport(doc, NoContent);
    StrictInReport(doc, ContentTypeMissing);
    StrictInReport(doc, ContentTypeInvalid);
    var ct := EnumErrors(doc.contentType, ContentTypes, ContentTypeMissing, ContentTypeInvalid);
    assert StrictErrors(doc) == ct + (if HasContent(doc) then [] else [NoContent]);
  }

  /** In strict mode a strict-only violation is in the report exactly when the strict checks raise it. */
  lemma StrictInReport(doc: Theme, x: Violation)
    requires x.StrictOnly()
    ensures x in ValidateTheme(doc, true).errors <==> x in StrictErrors(doc)
  {
    InOwnPart(doc, true, x);
  }

  /** With the questions part reduced to the shape error, no per-question error remains. */
  lemma KindedQuestionsShape(a: seq<Violation>, b: seq<Violation>, d: seq<Violation>, e: seq<Violation>)
    requires Kinded(a, b, [QuestionsNotNonEmptyArray], d, e)
    ensures multiset(a + b + [QuestionsNotNonEmptyArray] + d + e)[QuestionsNotNonEmptyArray] == 1
    ensures forall y :: y in a + b + [QuestionsNotNonEmptyArray] + d + e ==> !y.InQuestion()
  {
    KindedCount(QuestionsNotNonEmptyArray, a, b, [QuestionsNotNonEmptyArray], d, e);
    forall y | y in a + b + [QuestionsNotNonEmptyArray] + d + e
      ensures !y.InQuestion()
    {
      KindedPlace(y, a, b, [QuestionsNotNonEmptyArray], d, e);
    }
  }

  /**
   * `questions` present but not an array, or an empty array, yields the one
   * shape error and no per-question error.
   */
  lemma QuestionsShapeErrorAlone(doc: Theme, strict: bool)
    requires doc.questions.Some? && (doc.questions.value.NotArray? || doc.questions.value.items == [])
    ensures multiset(ValidateTheme(doc, strict).errors)[QuestionsNotNonEmptyArray] == 1
    ensures forall e :: e in ValidateTheme(doc, strict).errors ==> !e.InQuestion()
  {
    assert QuestionsErrors(doc.questions) == [QuestionsNotNonEmptyArray];
    ErrorsInParts(doc, strict);
    KindedQuestionsShape(ScalarErrors(doc), StrictPart(doc, strict), FlashcardsErrors(doc.flashcards), FicheErrors(doc.fiche));
  }

  /** With the flashcards part reduced to the type error, no per-card error remains. */
  lemma KindedFlashcardsShape(a: seq<Violation>, b: seq<Violation>, c: seq<Violation>, e: seq<Violation>)
    requires Kinded(a, b, c, [FlashcardsNotArray], e)
    ensures multiset(a + b + c + [FlashcardsNotArray] + e)[FlashcardsNotArray] == 1
    ensures forall y :: y in a + b + c + [FlashcardsNotArray] + e ==> !y.InFlashcard()
  {
    KindedCount(FlashcardsNotArray, a, b, c, [FlashcardsNotArray], e);
    forall y | y in a + b + c + [FlashcardsNotArray] + e
      ensures !y.InFlashcard()
    {
      KindedPlace(y, a, b, c, [FlashcardsNotArray], e);
    }
  }

  /** A `flashcards` value that is not an array yields one type error and no per-card error. */
  lemma FlashcardsShapeErrorAlone(doc: Theme, strict: bool)
    requires doc.flashcards.Some? && doc.flashcards.value.NotArray?
    ensures multiset(ValidateTheme(doc, strict).errors)[FlashcardsNotArray] == 1
    ensures forall e :: e in ValidateTheme(doc, strict).errors ==> !e.InFlashcard()
  {
    assert FlashcardsErrors(doc.flashcards) == [FlashcardsNotArray];
    ErrorsInParts(doc, strict);
    KindedFlashcardsShape(ScalarErrors(doc), StrictPart(doc, strict), QuestionsErrors(doc.questions), FicheErrors(doc.fiche));
  }

  /** In kinded parts, fiche violations sit in the fiche part. */
  lemma KindedFiche(a: seq<Violation>, b: seq<Violation>, c: seq<Violation>, d: seq<Violation>, e: seq<Violation>)
    requires Kinded(a, b, c, d, e)
    ensures forall y :: y in a + b + c + d + e && (y.InSection() || y.FicheShape()) ==> y in e
  {
    forall y | y in a + b + c + d + e && (y.InSection() || y.FicheShape())
      ensures y in e
    {
      KindedPlace(y, a, b, c, d, e);
    }
  }

  /**
   * Per-section errors appear only when `fiche.sections` is an array of 1
   * to 20 sections, and the "at least one section" error is never raised
   * (the emptiness test before it already catches an empty array).
   */
  lemma SectionErrorsOnlyInRange(doc: Theme, strict: bool)
    ensures SectionsEmpty !in ValidateTheme(doc, strict).errors
    ensures (exists e :: e in ValidateTheme(doc, strict).errors && e.InSection()) ==>
              && doc.fiche.Some? && doc.fiche.value.FicheArray?
              && doc.fiche.value.sections.Some? && doc.fiche.value.sections.value.List?
              && 1 <= |doc.fiche.value.sections.value.items| <= 20
  {
    ErrorsInParts(doc, strict);
    KindedFiche(ScalarErrors(doc), StrictPart(doc, strict), QuestionsErrors(doc.questions),
                FlashcardsErrors(doc.flashcards), FicheErrors(doc.fiche));
    NoEmptySectionsError(doc.fiche);
    forall y | y in ValidateTheme(doc, strict).errors && y.InSection()
      ensures doc.fiche.Some? && doc.fiche.value.FicheArray?
      ensures doc.fiche.value.sections.Some? && doc.fiche.value.sections.value.List?
      ensures 1 <= |doc.fiche.value.sections.value.items| <= 20
    {
      FicheSectionsInRange(doc.fiche, y);
    }
  }

  // ---------------------------------------------------------------------
  // The order of the report

  /** The index of the item a violation is about; 0 for one about no item. */
  function ItemIndex(x: Violation): nat {
    if x.InQuestion() || x.InFlashcard() || x.InSection() then x.i else 0
  }

  /**
   * The position of a violation's check among the checks of its part or item:
   * title, description, difficulty; content_type, then content; id, text,
   * choices, correctAnswer; id, front, back; title, content, keyPoints.
   */
  function FieldRank(x: Violation): nat {
    match x
    case TitleMissing | TitleLength => 0
    case DescriptionMissing | DescriptionLength => 1
    case DifficultyMissing | DifficultyInvalid => 2
    case ContentTypeMissing | ContentTypeInvalid => 0
    case NoContent => 1
    case QuestionsNotNonEmptyArray => 0
    case QuestionIdMissing(_) | QuestionIdPattern(_) => 0
    case QuestionTextMissing(_) | QuestionTextLength(_) => 1
    case QuestionChoicesMissing(_) | QuestionChoiceCount(_) => 2
    case QuestionAnswerInvalid(_) | QuestionAnswerRange(_) => 3
    case FlashcardsNotArray => 0
    case FlashcardIdMissing(_) | FlashcardIdPattern(_) => 0
    case FlashcardFrontMissing(_) | FlashcardFrontLength(_) => 1
    case FlashcardBackMissing(_) | FlashcardBackLength(_) => 2
    case FicheNotObject | SectionsMissing | SectionsNotArray | SectionsEmpty | SectionsTooMany => 0
    case SectionTitleMissing(_) | SectionTitleLength(_) => 0
    case SectionContentMissing(_) | SectionContentLength(_) => 1
    case KeyPointsNotArray(_) | KeyPointsTooMany(_) => 2
  }

  /**
   * `x` may come before `y`: it is raised by an earlier part; or by the same
   * part for an earlier item; or for the same item by a check made no later.
   */
  predicate Precedes(x: Violation, y: Violation) {
    || PartOf(x) < PartOf(y)
    || (PartOf(x) == PartOf(y) && ItemIndex(x) < ItemIndex(y))
    || (PartOf(x) == PartOf(y) && ItemIndex(x) == ItemIndex(y) && FieldRank(x) <= FieldRank(y))
  }

  /** Every violation of `s` may come before each later one. */
  predicate InReportOrder(s: seq<Violation>) {
    forall j, m :: 0 <= j < m < |s| ==> Precedes(s[j], s[m])
  }

  lemma ConcatInOrder(s: seq<Violation>, t: seq<Violation>)
    requires InReportOrder(s) && InReportOrder(t)
    requires forall x, y :: x in s && y in t ==> Precedes(x, y)
    ensures InReportOrder(s + t)
  {
    forall j, m | 0 <= j < m < |s + t|
      ensures Precedes((s + t)[j], (s + t)[m])
    {
      if m < |s| {
        assert (s + t)[j] == s[j] && (s + t)[m] == s[m];
      } else if j < |s| {
        assert (s + t)[j] in s && (s + t)[m] in t;
      } else {
        assert (s + t)[j] == t[j - |s|] && (s + t)[m] == t[m - |s|];
      }
    }
  }

  /** The result of one check, at most one violation, is in order on its own. */
  lemma ShortInOrder(s: seq<Violation>)
    requires |s| <= 1
    ensures InReportOrder(s)
  {
  }

  /** What a check raising `v0` or `v1` reports precedes what one raising `w0` or `w1` reports, when the four keys say so. */
  lemma PairBefore(s: seq<Violation>, t: seq<Violation>, v0: Violation, v1: Violation, w0: Violation, w1: Violation)
    requires forall e :: e in s ==> e == v0 || e == v1
    requires forall e :: e in t ==> e == w0 || e == w1
    requires Precedes(v0, w0) && Precedes(v0, w1) && Precedes(v1, w0) && Precedes(v1, w1)
    ensures forall x, y :: x in s && y in t ==> Precedes(x, y)
  {
    forall x, y | x in s && y in t
      ensures Precedes(x, y)
    {
      if x == v0 {
        if y == w0 {} else { assert y == w1; }
      } else {
        assert x == v1;
        if y == w0 {} else { assert y == w1; }
      }
    }
  }

  /** One item's violations followed by those of later items of the same part, each in order, are in order. */
  lemma HeadThenRestInOrder(h: seq<Violation>, rest: seq<Violation>, p: nat, n: nat)
    requires forall x :: x in h ==> PartOf(x) == p && ItemIndex(x) == n
    requires forall x :: x in rest ==> PartOf(x) == p && n < ItemIndex(x)
    requires InReportOrder(h) && InReportOrder(rest)
    ensures InReportOrder(h + rest)
  {
    ConcatInOrder(h, rest);
  }

  /** Three checks of one item, each reporting one of two violations of its own rank, report in order. */
  lemma PairedChecksInOrder(a: seq<Violation>, b: seq<Violation>, c: seq<Violation>,
                            a0: Violation, a1: Violation, b0: Violation, b1: Violation, c0: Violation, c1: Violation,
                            p: nat, n: nat)
    requires forall e :: e in a ==> e == a0 || e == a1
    requires forall e :: e in b ==> e == b0 || e == b1
    requires forall e :: e in c ==> e == c0 || e == c1
    requires PartOf(a0) == PartOf(a1) == p && ItemIndex(a0) == ItemIndex(a1) == n && FieldRank(a0) == FieldRank(a1) == 0
    requires PartOf(b0) == PartOf(b1) == p && ItemIndex(b0) == ItemIndex(b1) == n && FieldRank(b0) == FieldRank(b1) == 1
    requires PartOf(c0) == PartOf(c1) == p && ItemIndex(c0) == ItemIndex(c1) == n && FieldRank(c0) == FieldRank(c1) == 2
    requires |a| <= 1 && |b| <= 1 && |c| <= 1
    ensures InReportOrder(a + b + c)
  {
    ShortInOrder(a);
    ShortInOrder(b);
    ShortInOrder(c);
    PairBefore(a, b, a0, a1, b0, b1);
    PairBefore(a, c, a0, a1, c0, c1);
    PairBefore(b, c, b0, b1, c0, c1);
    ConcatInOrder(a, b);
    forall x, y | x in a + b && y in c
      ensures Precedes(x, y)
    {
      assert x in a || x in b;
    }
    ConcatInOrder(a + b, c);
  }

  /** The keys of the scalar checks: part 0, no item, ranks 0, 1, 2. */
  lemma ScalarKeys()
    ensures PartOf(TitleMissing) == PartOf(TitleLength) == 0 && ItemIndex(TitleMissing) == ItemIndex(TitleLength) == 0
    ensures FieldRank(TitleMissing) == FieldRank(TitleLength) == 0
    ensures PartOf(DescriptionMissing) == PartOf(DescriptionLength) == 0 && ItemIndex(DescriptionMissing) == ItemIndex(DescriptionLength) == 0
    ensures FieldRank(DescriptionMissing) == FieldRank(DescriptionLength) == 1
    ensures PartOf(DifficultyMissing) == PartOf(DifficultyInvalid) == 0 && ItemIndex(DifficultyMissing) == ItemIndex(DifficultyInvalid) == 0
    ensures FieldRank(DifficultyMissing) == FieldRank(DifficultyInvalid) == 2
  {
  }

  /** The keys of the checks of flashcard `i`: part 3, item `i`, ranks 0, 1, 2. */
  lemma FlashcardKeys(i: nat)
    ensures PartOf(FlashcardIdMissing(i)) == PartOf(FlashcardIdPattern(i)) == 3
    ensures ItemIndex(FlashcardIdMissing(i)) == ItemIndex(FlashcardIdPattern(i)) == i
    ensures FieldRank(FlashcardIdMissing(i)) == FieldRank(FlashcardIdPattern(i)) == 0
    ensures PartOf(FlashcardFrontMissing(i)) == PartOf(FlashcardFrontLength(i)) == 3
    ensures ItemIndex(FlashcardFrontMissing(i)) == ItemIndex(FlashcardFrontLength(i)) == i
    ensures FieldRank(FlashcardFrontMissing(i)) == FieldRank(FlashcardFrontLength(i)) == 1
    ensures PartOf(FlashcardBackMissing(i)) == PartOf(FlashcardBackLength(i)) == 3
    ensures ItemIndex(FlashcardBackMissing(i)) == ItemIndex(FlashcardBackLength(i)) == i
    ensures FieldRank(FlashcardBackMissing(i)) == FieldRank(FlashcardBackLength(i)) == 2
  {
  }

  /** The keys of the checks of section `i`: part 4, item `i`, ranks 0, 1, 2. */
  lemma SectionKeys(i: nat)
    ensures PartOf(SectionTitleMissing(i)) == PartOf(SectionTitleLength(i)) == 4
    ensures ItemIndex(SectionTitleMissing(i)) == ItemIndex(SectionTitleLength(i)) == i
    ensures FieldRank(SectionTitleMissing(i)) == FieldRank(SectionTitleLength(i)) == 0
    ensures PartOf(SectionContentMissing(i)) == PartOf(SectionContentLength(i)) == 4
    ensures ItemIndex(SectionContentMissing(i)) == ItemIndex(SectionContentLength(i)) == i
    ensures FieldRank(SectionContentMissing(i)) == FieldRank(SectionContentLength(i)) == 1
    ensures PartOf(KeyPointsNotArray(i)) == PartOf(KeyPointsTooMany(i)) == 4
    ensures ItemIndex(KeyPointsNotArray(i)) == ItemIndex(KeyPointsTooMany(i)) == i
    ensures FieldRank(KeyPointsNotArray(i)) == FieldRank(KeyPointsTooMany(i)) == 2
  {
  }

  lemma ScalarsInOrder(doc: Theme)
    ensures InReportOrder(ScalarErrors(doc))
  {
    var t := TextErrors(doc.title, 3, 255, TitleMissing, TitleLength);
    var d := TextErrors(doc.description, 10, 2000, DescriptionMissing, DescriptionLength);
    var f := EnumErrors(doc.difficulty, Difficulties, DifficultyMissing, DifficultyInvalid);
    ScalarKeys();
    PairedChecksInOrder(t, d, f, TitleMissing, TitleLength, DescriptionMissing, DescriptionLength,
                        DifficultyMissing, DifficultyInvalid, 0, 0);
  }

  lemma StrictPartInOrder(doc: Theme, strict: bool)
    ensures InReportOrder(StrictPart(doc, strict))
  {
    if strict {
      var t := EnumErrors(doc.contentType, ContentTypes, ContentTypeMissing, ContentTypeInvalid);
      var n: seq<Violation> := if HasContent(doc) then [] else [NoContent];
      ShortInOrder(t);
      ShortInOrder(n);
      ConcatInOrder(t, n);
    }
  }

  /** The keys of the checks of question `i`: part 2, item `i`, ranks 0 to 3. */
  lemma QuestionKeys(i: nat)
    ensures PartOf(QuestionIdMissing(i)) == PartOf(QuestionIdPattern(i)) == 2
    ensures ItemIndex(QuestionIdMissing(i)) == ItemIndex(QuestionIdPattern(i)) == i
    ensures FieldRank(QuestionIdMissing(i)) == FieldRank(QuestionIdPattern(i)) == 0
    ensures PartOf(QuestionTextMissing(i)) == PartOf(QuestionTextLength(i)) == 2
    ensures ItemIndex(QuestionTextMissing(i)) == ItemIndex(QuestionTextLength(i)) == i
    ensures FieldRank(QuestionTextMissing(i)) == FieldRank(QuestionTextLength(i)) == 1
    ensures PartOf(QuestionChoicesMissing(i)) == PartOf(QuestionChoiceCount(i)) == 2
    ensures ItemIndex(QuestionChoicesMissing(i)) == ItemIndex(QuestionChoiceCount(i)) == i
    ensures FieldRank(QuestionChoicesMissing(i)) == FieldRank(QuestionChoiceCount(i)) == 2
    ensures PartOf(QuestionAnswerInvalid(i)) == PartOf(QuestionAnswerRange(i)) == 2
    ensures ItemIndex(QuestionAnswerInvalid(i)) == ItemIndex(QuestionAnswerRange(i)) == i
    ensures FieldRank(QuestionAnswerInvalid(i)) == FieldRank(QuestionAnswerRange(i)) == 3
  {
  }

  /** A question's checks report in the order id, text, choices, correctAnswer. */
  lemma QuestionChecksInOrder(i: nat, q: Question)
    ensures InReportOrder(QuestionErrors(i, q))
  {
    var d := IdErrors(q.id, 'q', QuestionIdMissing(i), QuestionIdPattern(i));
    var t := TextErrors(q.text, 5, 1000, QuestionTextMissing(i), QuestionTextLength(i));
    var c := ChoicesErrors(i, q.choices);
    var a := AnswerErrors(i, q);
    QuestionKeys(i);
    PairedChecksInOrder(d, t, c, QuestionIdMissing(i), QuestionIdPattern(i), QuestionTextMissing(i),
                        QuestionTextLength(i), QuestionChoicesMissing(i), QuestionChoiceCount(i), 2, i);
    ShortInOrder(a);
    PairBefore(d, a, QuestionIdMissing(i), QuestionIdPattern(i), QuestionAnswerInvalid(i), QuestionAnswerRange(i));
    PairBefore(t, a, QuestionTextMissing(i), QuestionTextLength(i), QuestionAnswerInvalid(i), QuestionAnswerRange(i));
    PairBefore(c, a, QuestionChoicesMissing(i), QuestionChoiceCount(i), QuestionAnswerInvalid(i), QuestionAnswerRange(i));
    forall x, y | x in d + t + c && y in a
      ensures Precedes(x, y)
    {
      assert x in d || x in t || x in c;
    }
    ConcatInOrder(d + t + c, a);
  }

  /** A flashcard's checks report in the order id, front, back. */
  lemma FlashcardChecksInOrder(i: nat, f: Flashcard)
    ensures InReportOrder(FlashcardErrors(i, f))
  {
    var d := IdErrors(f.id, 'f', FlashcardIdMissing(i), FlashcardIdPattern(i));
    var fr := TextErrors(f.front, 3, 500, FlashcardFrontMissing(i), FlashcardFrontLength(i));
    var b := TextErrors(f.back, 3, 2000, FlashcardBackMissing(i), FlashcardBackLength(i));
    FlashcardKeys(i);
    PairedChecksInOrder(d, fr, b, FlashcardIdMissing(i), FlashcardIdPattern(i), FlashcardFrontMissing(i),
                        FlashcardFrontLength(i), FlashcardBackMissing(i), FlashcardBackLength(i), 3, i);
  }

  /** A section's checks report in the order title, content, keyPoints. */
  lemma SectionChecksInOrder(i: nat, s: Section)
    ensures InReportOrder(SectionErrors(i, s))
  {
    var t := TextErrors(s.title, 3, 255, SectionTitleMissing(i), SectionTitleLength(i));
    var c := TextErrors(s.content, 10, 5000, SectionContentMissing(i), SectionContentLength(i));
    var k := KeyPointsErrors(i, s.keyPoints);
    SectionKeys(i);
    PairedChecksInOrder(t, c, k, SectionTitleMissing(i), SectionTitleLength(i), SectionContentMissing(i),
                        SectionContentLength(i), KeyPointsNotArray(i), KeyPointsTooMany(i), 4, i);
  }

  /** Parts before `p`, followed by part `p`, each in order, are in order. */
  lemma EarlierPartsFirst(s: seq<Violation>, t: seq<Violation>, p: nat)
    requires InReportOrder(s) && InReportOrder(t)
    requires forall x :: x in s ==> PartOf(x) < p
    requires forall y :: y in t ==> PartOf(y) == p
    ensures InReportOrder(s + t)
  {
    ConcatInOrder(s, t);
  }

  lemma QuestionPart(x: Violation)
    requires x.InQuestion()
    ensures PartOf(x) == 2 && ItemIndex(x) == x.i
  {
  }

  lemma FlashcardPart(x: Violation)
    requires x.InFlashcard()
    ensures PartOf(x) == 3 && ItemIndex(x) == x.i
  {
  }

  lemma SectionPart(x: Violation)
    requires x.InSection()
    ensures PartOf(x) == 4 && ItemIndex(x) == x.i
  {
  }

  lemma FicheShapePart(x: Violation)
    requires x.FicheShape()
    ensures PartOf(x) == 4
  {
  }

  lemma {:induction false} QuestionListInOrder(qs: seq<Question>, start: nat)
    ensures InReportOrder(QuestionListErrors(qs, start))
  {
    if qs != [] {
      var h, rest := QuestionErrors(start, qs[0]), QuestionListErrors(qs[1..], start + 1);
      assert QuestionListErrors(qs, start) == h + rest;
      forall x | x in h
        ensures PartOf(x) == 2 && ItemIndex(x) == start
      {
        QuestionPart(x);
      }
      forall x | x in rest
        ensures PartOf(x) == 2 && start < ItemIndex(x)
      {
        QuestionPart(x);
      }
      QuestionListInOrder(qs[1..], start + 1);
      QuestionChecksInOrder(start, qs[0]);
      HeadThenRestInOrder(h, rest, 2, start);
    }
  }

  lemma {:induction false} FlashcardListInOrder(fs: seq<Flashcard>, start: nat)
    ensures InReportOrder(FlashcardListErrors(fs, start))
  {
    if fs != [] {
      var h, rest := FlashcardErrors(start, fs[0]), FlashcardListErrors(fs[1..], start + 1);
      assert FlashcardListErrors(fs, start) == h + rest;
      forall x | x in h
        ensures PartOf(x) == 3 && ItemIndex(x) == start
      {
        FlashcardPart(x);
      }
      forall x | x in rest
        ensures PartOf(x) == 3 && start < ItemIndex(x)
      {
        FlashcardPart(x);
      }
      FlashcardListInOrder(fs[1..], start + 1);
      FlashcardChecksInOrder(start, fs[0]);
      HeadThenRestInOrder(h, rest, 3, start);
    }
  }

  lemma {:induction false} SectionListInOrder(ss: seq<Section>, start: nat)
    ensures InReportOrder(SectionListErrors(ss, start))
  {
    if ss != [] {
      var h, rest := SectionErrors(start, ss[0]), SectionListErrors(ss[1..], start + 1);
      assert SectionListErrors(ss, start) == h + rest;
      forall x | x in h
        ensures PartOf(x) == 4 && ItemIndex(x) == start
      {
        SectionPart(x);
      }
      forall x | x in rest
        ensures PartOf(x) == 4 && start < ItemIndex(x)
      {
        SectionPart(x);
      }
      SectionListInOrder(ss[1..], start + 1);
      SectionChecksInOrder(start, ss[0]);
      HeadThenRestInOrder(h, rest, 4, start);
    }
  }

  lemma QuestionsInOrder(questions: Option<Coll<Question>>)
    ensures InReportOrder(QuestionsErrors(questions))
  {
    if questions.Some? && questions.value.List? && questions.value.items != [] {
      QuestionListInOrder(questions.value.items, 0);
    }
  }

  lemma FlashcardsInOrder(flashcards: Option<Coll<Flashcard>>)
    ensures InReportOrder(FlashcardsErrors(flashcards))
  {
    if flashcards.Some? && flashcards.value.List? {
      FlashcardListInOrder(flashcards.value.items, 0);
    }
  }

  lemma FicheInOrder(fiche: Option<Fiche>)
    ensures InReportOrder(FicheErrors(fiche))
  {
    if fiche.Some? && fiche.value.FicheArray? && !BlankColl(fiche.value.sections)
       && fiche.value.sections.value.List? && 0 < |fiche.value.sections.value.items| <= 20 {
      SectionListInOrder(fiche.value.sections.value.items, 0);
    }
  }

  /** Five kinded parts, each in order, are in order together. */
  lemma FivePartsInOrder(a: seq<Violation>, b: seq<Violation>, c: seq<Violation>, d: seq<Violation>, e: seq<Violation>)
    requires Kinded(a, b, c, d, e)
    requires InReportOrder(a) && InReportOrder(b) && InReportOrder(c) && InReportOrder(d) && InReportOrder(e)
    ensures InReportOrder(a + b + c + d + e)
  {
    forall y | y in a + b + c + d + e
      ensures (y in a ==> PartOf(y) == 0) && (y in b ==> PartOf(y) == 1)
      ensures (y in c ==> PartOf(y) == 2) && (y in d ==> PartOf(y) == 3) && (y in e ==> PartOf(y) == 4)
    {
      KindedPlace(y, a, b, c, d, e);
    }
    EarlierPartsFirst(a, b, 1);
    EarlierPartsFirst(a + b, c, 2);
    EarlierPartsFirst(a + b + c, d, 3);
    EarlierPartsFirst(a + b + c + d, e, 4);
  }

  /**
   * The report lists the title, description and difficulty errors first,
   * then the strict checks, the questions, the flashcards and the fiche, and
   * within each list the items in index order.
   */
  lemma ReportInOrder(doc: Theme, strict: bool)
    ensures InReportOrder(ValidateTheme(doc, strict).errors)
  {
    ErrorsInParts(doc, strict);
    ScalarsInOrder(doc);
    StrictPartInOrder(doc, strict);
    QuestionsInOrder(doc.questions);
    FlashcardsInOrder(doc.flashcards);
    FicheInOrder(doc.fiche);
    FivePartsInOrder(ScalarErrors(doc), StrictPart(doc, strict), QuestionsErrors(doc.questions),
                     FlashcardsErrors(doc.flashcards), FicheErrors(doc.fiche));
  }

  /** What an ordered list says about two of its violations. */
  lemma OrderedPair(s: seq<Violation>, j: nat, m: nat)
    requires InReportOrder(s) && j < m < |s|
    ensures s[m].Scalar() ==> s[j].Scalar()
    ensures s[j].InFlashcard() || s[j].InSection() || s[j].FicheShape() ==> !s[m].InQuestion()
    ensures s[j].InQuestion() && s[m].InQuestion() ==> s[j].i <= s[m].i
    ensures s[j].Scalar() && s[m].Scalar() ==> FieldRank(s[j]) <= FieldRank(s[m])
    ensures s[j].InQuestion() && s[m].InQuestion() && s[j].i == s[m].i ==> FieldRank(s[j]) <= FieldRank(s[m])
    ensures s[j].InFlashcard() && s[m].InFlashcard() && s[j].i == s[m].i ==> FieldRank(s[j]) <= FieldRank(s[m])
    ensures s[j].InSection() && s[m].InSection() && s[j].i == s[m].i ==> FieldRank(s[j]) <= FieldRank(s[m])
  {
    assert Precedes(s[j], s[m]);
  }

  /**
   * What the order means for a reader of the report: a title, description
   * or difficulty error is never preceded by another kind of error, no
   * question error follows a flashcard or fiche error, errors of two
   * questions appear in question order, and the errors about one field
   * come before those about a later-checked field: a description error
   * never precedes a title error, a question's text error never precedes
   * its id error, a flashcard's back error never precedes its front error.
   */
  lemma ReportOrderConsequences(doc: Theme, strict: bool, j: nat, m: nat)
    requires j < m < |ValidateTheme(doc, strict).errors|
    ensures var errs := ValidateTheme(doc, strict).errors;
            && (errs[m].Scalar() ==> errs[j].Scalar())
            && (errs[j].InFlashcard() || errs[j].InSection() || errs[j].FicheShape() ==> !errs[m].InQuestion())
            && (errs[j].InQuestion() && errs[m].InQuestion() ==> errs[j].i <= errs[m].i)
            && (errs[j].Scalar() && errs[m].Scalar() ==> FieldRank(errs[j]) <= FieldRank(errs[m]))
            && (errs[j].InQuestion() && errs[m].InQuestion() && errs[j].i == errs[m].i ==> FieldRank(errs[j]) <= FieldRank(errs[m]))
            && (errs[j].InFlashcard() && errs[m].InFlashcard() && errs[j].i == errs[m].i ==> FieldRank(errs[j]) <= FieldRank(errs[m]))
            && (errs[j].InSection() && errs[m].InSection() && errs[j].i == errs[m].i ==> FieldRank(errs[j]) <= FieldRank(errs[m]))
  {
    ReportInOrder(doc, strict);
    OrderedPair(ValidateTheme(doc, strict).errors, j, m);
  }

  // ---------------------------------------------------------------------
  // Worked examples

  /**
   * Two choices: an answer of 5 is out of range and an answer of 1 is
   * accepted, whatever the (valid) id and text.
   */
  lemma ChoicesExample(i: nat, q: Question)
    requires q.id.Some? && IdMatches('q', q.id.value) && TextWithin(q.text, 5, 1000)
    requires q.choices == Some(List(["A", "B"]))
    ensures QuestionErrors(i, q.(correctAnswer := Some(IntAnswer(5)))) == [QuestionAnswerRange(i)]
    ensures QuestionErrors(i, q.(correctAnswer := Some(IntAnswer(1)))) == []
  {
    var q5, q1 := q.(correctAnswer := Some(IntAnswer(5))), q.(correctAnswer := Some(IntAnswer(1)));
    assert IdErrors(q5.id, 'q', QuestionIdMissing(i), QuestionIdPattern(i)) == [];
    assert TextErrors(q5.text, 5, 1000, QuestionTextMissing(i), QuestionTextLength(i)) == [];
    assert ChoicesErrors(i, q5.choices) == [];
    assert AnswerErrors(i, q5) == [QuestionAnswerRange(i)];
    QuestionErrorsEmptyIff(i, q1);
  }

  /** Lengths are counted in bytes: a two-letter accented title passes the three-character minimum. */
  lemma ByteLengthExample()
    ensures TextErrors(Some("\U{e0}\U{e9}"), 3, 255, TitleMissing, TitleLength) == []
    ensures TextErrors(Some("ab"), 3, 255, TitleMissing, TitleLength) == [TitleLength]
  {
    assert StrLen("\U{e0}\U{e9}") == 4;
    assert StrLen("ab") == 2;
  }

  /** A two-character title fails non-strict validation with the length error. */
  lemma ShortTitleExample()
    ensures var r := ValidateTheme(Theme(Some("AB"), None, None, None, None, None, None), false);
            !r.valid && TitleLength in r.errors
  {
    assert StrLen("AB") == 2;
    TitleReportedOnce(Theme(Some("AB"), None, None, None, None, None, None), false);
  }

  /** Valid title, description and difficulty alone pass non-strict validation, without compliance. */
  lemma ScalarsAloneValid(doc: Theme)
    requires ScalarsConform(doc)
    requires doc.questions.None? && doc.flashcards.None? && doc.fiche.None?
    ensures ValidateTheme(doc, false) == Report(true, [], false)
  {
    assert Conforms(doc, false);
    ValidIffConforms(doc, false);
  }

  /** Strict validation of a document without content fails with the one no-content error. */
  lemma StrictNeedsContent(doc: Theme)
    requires ScalarsConform(doc) && doc.contentType.Some? && doc.contentType.value in ContentTypes
    requires doc.questions.None? && doc.flashcards.None? && doc.fiche.None?
    ensures !ValidateTheme(doc, true).valid && ValidateTheme(doc, true).errors == [NoContent]
  {
    ScalarErrorsEmptyIff(doc);
    assert StrictErrors(doc) == [NoContent];
    ErrorsInParts(doc, true);
  }
}
