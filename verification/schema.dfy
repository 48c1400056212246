/**
 * The content document `SchemaValidator::validateTheme` checks, and the
 * violations it reports.
 *
 * A field is `None` when the key is absent or `null` (both fail PHP's
 * `isset`), with one exception: `fiche.sections` is `None` only when the key
 * is absent. A `sections` key holding `null` still makes the fiche array
 * non-empty for `empty()`, so it is written `Some(NotArray(true))`, a blank
 * non-array value. Text fields hold strings; their length is PHP's `strlen`, the
 * byte count of their UTF-8 encoding. Fields the source expects to be arrays are
 * a `Coll`, which distinguishes a scalar from a decoded JSON array. A list
 * element that is not an object reads like an object with every key absent,
 * since `empty()` and `isset()` on its offsets report nothing there.
 */
module Schema {
  import opened Wrappers
  import opened Php

  /** `correctAnswer`: PHP `is_int` holds of it, or it is some other value. */
  datatype Answer = IntAnswer(n: int) | NonIntAnswer

  datatype Question = Question(
    id: Option<string>,
    text: Option<string>,
    choices: Option<Coll<string>>,
    correctAnswer: Option<Answer>)

  datatype Flashcard = Flashcard(id: Option<string>, front: Option<string>, back: Option<string>)

  datatype Section = Section(title: Option<string>, content: Option<string>, keyPoints: Option<Coll<string>>)

  /**
   * The `fiche` value: a non-array scalar, or an array whose `sections` key
   * is read and which may hold keys other than `sections`. `sections` is
   * `None` exactly when the key is absent; a present `null` is
   * `Some(NotArray(true))`, which `empty()` at the sections check treats
   * like an absent key while the fiche itself stays non-empty.
   */
  datatype Fiche =
    | FicheNotArray(blank: bool)
    | FicheArray(sections: Option<Coll<Section>>, otherKeys: bool)
  {
    /** PHP's `empty()`: an array is empty when it has no key at all. */
    predicate Blank() {
      match this
      case FicheNotArray(b) => b
      case FicheArray(sections, other) => sections.None? && !other
    }
  }

  predicate BlankFiche(v: Option<Fiche>) {
    v.None? || v.value.Blank()
  }

  datatype Theme = Theme(
    title: Option<string>,
    description: Option<string>,
    difficulty: Option<string>,
    contentType: Option<string>,
    questions: Option<Coll<Question>>,
    flashcards: Option<Coll<Flashcard>>,
    fiche: Option<Fiche>)

  const Difficulties: set<string> := {"beginner", "intermediate", "advanced"}
  const ContentTypes: set<string> := {"complete", "quiz", "flashcards", "fiche"}

  /** The strict-mode requirement that some content is present. */
  predicate HasContent(doc: Theme) {
    !BlankColl(doc.questions) || !BlankColl(doc.flashcards) || !BlankFiche(doc.fiche)
  }

  /** One error of the accumulated list; `i` is the list index of the offending item. */
  datatype Violation =
    | TitleMissing | TitleLength
    | DescriptionMissing | DescriptionLength
    | DifficultyMissing | DifficultyInvalid
    | ContentTypeMissing | ContentTypeInvalid
    | NoContent
    | QuestionsNotNonEmptyArray
    | QuestionIdMissing(i: nat) | QuestionIdPattern(i: nat)
    | QuestionTextMissing(i: nat) | QuestionTextLength(i: nat)
    | QuestionChoicesMissing(i: nat) | QuestionChoiceCount(i: nat)
    | QuestionAnswerInvalid(i: nat) | QuestionAnswerRange(i: nat)
    | FlashcardsNotArray
    | FlashcardIdMissing(i: nat) | FlashcardIdPattern(i: nat)
    | FlashcardFrontMissing(i: nat) | FlashcardFrontLength(i: nat)
    | FlashcardBackMissing(i: nat) | FlashcardBackLength(i: nat)
    | FicheNotObject
    | SectionsMissing | SectionsNotArray | SectionsEmpty | SectionsTooMany
    | SectionTitleMissing(i: nat) | SectionTitleLength(i: nat)
    | SectionContentMissing(i: nat) | SectionContentLength(i: nat)
    | KeyPointsNotArray(i: nat) | KeyPointsTooMany(i: nat)
  {
    /** A violation of the title, description or difficulty field. */
    predicate Scalar() {
      || TitleMissing? || TitleLength? || DescriptionMissing? || DescriptionLength?
      || DifficultyMissing? || DifficultyInvalid?
    }

    /** Raised only in strict (partner-compliance) mode. */
    predicate StrictOnly() {
      ContentTypeMissing? || ContentTypeInvalid? || NoContent?
    }

    /** A violation found inside one question. */
    predicate InQuestion() {
      || QuestionIdMissing? || QuestionIdPattern? || QuestionTextMissing? || QuestionTextLength?
      || QuestionChoicesMissing? || QuestionChoiceCount? || QuestionAnswerInvalid? || QuestionAnswerRange?
    }

    /** A violation found inside one flashcard. */
    predicate InFlashcard() {
      || FlashcardIdMissing? || FlashcardIdPattern? || FlashcardFrontMissing? || FlashcardFrontLength?
      || FlashcardBackMissing? || FlashcardBackLength?
    }

    /** A violation of the shape of `fiche` or of its `sections` list. */
    predicate FicheShape() {
      FicheNotObject? || SectionsMissing? || SectionsNotArray? || SectionsEmpty? || SectionsTooMany?
    }

    /** A violation found inside one fiche section. */
    predicate InSection() {
      || SectionTitleMissing? || SectionTitleLength? || SectionContentMissing? || SectionContentLength?
      || KeyPointsNotArray? || KeyPointsTooMany?
    }
  }

  /** A violation is about a question, a flashcard or a section, never two of them. */
  lemma ItemKindsApart(v: Violation)
    ensures v.InQuestion() ==> !v.InFlashcard() && !v.InSection()
    ensures v.InFlashcard() ==> !v.InSection()
  {
  }

  /**
   * The message the source appends for each violation. A message about one
   * question, flashcard or section starts by naming that item's index.
   */
  function Message(v: Violation): (r: string)
    ensures v.InQuestion() ==> "Question " + NatToString(v.i) + ": " <= r
    ensures v.InFlashcard() ==> "Flashcard " + NatToString(v.i) + ": " <= r
    ensures v.InSection() ==> "Fiche section " + NatToString(v.i) + ": " <= r
  {
    ItemKindsApart(v);
    if v.InQuestion() then ItemMessage("Question ", v.i, QuestionDetail(v))
    else if v.InFlashcard() then ItemMessage("Flashcard ", v.i, FlashcardDetail(v))
    else if v.InSection() then ItemMessage("Fiche section ", v.i, SectionDetail(v))
    else DocumentMessage(v)
  }

  /** The messages of violations about the document as a whole. */
  function DocumentMessage(v: Violation): string
    requires !v.InQuestion() && !v.InFlashcard() && !v.InSection()
  {
    match v
    case TitleMissing => "Missing required field: title"
    case TitleLength => "Title must be between 3 and 255 characters"
    case DescriptionMissing => "Missing required field: description"
    case DescriptionLength => "Description must be between 10 and 2000 characters"
    case DifficultyMissing => "Missing required field: difficulty"
    case DifficultyInvalid => "Invalid difficulty value"
    case ContentTypeMissing => "Missing required field: content_type"
    case ContentTypeInvalid => "Invalid content_type value"
    case NoContent => "Theme must have at least questions, flashcards, or fiche"
    case QuestionsNotNonEmptyArray => "Questions must be a non-empty array"
    case FlashcardsNotArray => "Flashcards must be an array"
    case FicheNotObject => "Fiche must be an object"
    case SectionsMissing => "Fiche: missing sections"
    case SectionsNotArray => "Fiche: sections must be an array"
    case SectionsEmpty => "Fiche: sections must have at least one section"
    case SectionsTooMany => "Fiche: sections must have at most 20 sections"
  }

  /** What follows "Question <i>: " in a question message. */
  function QuestionDetail(v: Violation): string
    requires v.InQuestion()
  {
    match v
    case QuestionIdMissing(_) => "missing id"
    case QuestionIdPattern(_) => "id must match pattern 'q[0-9]+'"
    case QuestionTextMissing(_) => "missing text"
    case QuestionTextLength(_) => "text must be between 5 and 1000 characters"
    case QuestionChoicesMissing(_) => "missing choices array"
    case QuestionChoiceCount(_) => "must have between 2 and 6 choices"
    case QuestionAnswerInvalid(_) => "missing or invalid correctAnswer (must be integer)"
    case QuestionAnswerRange(_) => "correctAnswer out of range"
  }

  /** What follows "Flashcard <i>: " in a flashcard message. */
  function FlashcardDetail(v: Violation): string
    requires v.InFlashcard()
  {
    match v
    case FlashcardIdMissing(_) => "missing id"
    case FlashcardIdPattern(_) => "id must match pattern 'f[0-9]+'"
    case FlashcardFrontMissing(_) => "missing front"
    case FlashcardFrontLength(_) => "front must be between 3 and 500 characters"
    case FlashcardBackMissing(_) => "missing back"
    case FlashcardBackLength(_) => "back must be between 3 and 2000 characters"
  }

  /** What follows "Fiche section <i>: " in a section message. */
  function SectionDetail(v: Violation): string
    requires v.InSection()
  {
    match v
    case SectionTitleMissing(_) => "missing title"
    case SectionTitleLength(_) => "title must be between 3 and 255 characters"
    case SectionContentMissing(_) => "missing content"
    case SectionContentLength(_) => "content must be between 10 and 5000 characters"
    case KeyPointsNotArray(_) => "keyPoints must be an array"
    case KeyPointsTooMany(_) => "keyPoints must have at most 10 items"
  }

  /** A message about item `i` of a list: the item's kind and index, a colon, then the detail. */
  function ItemMessage(kind: string, i: nat, detail: string): (r: string)
    ensures kind + NatToString(i) + ": " <= r
    ensures |r| == |kind| + |NatToString(i)| + 2 + |detail|
  {
    kind + NatToString(i) + ": " + detail
  }

  /** The digit strings `n` and `m`, each followed by ": " after `p` at the head of `r`, are equal. */
  lemma DigitsBeforeColon(p: string, n: string, m: string, r: string)
    requires forall k :: 0 <= k < |n| ==> '0' <= n[k] <= '9'
    requires forall k :: 0 <= k < |m| ==> '0' <= m[k] <= '9'
    requires p + n + ": " <= r && p + m + ": " <= r
    ensures n == m
  {
    if |n| <= |m| {
      ShorterDigitsBeforeColon(p, n, m, r);
    } else {
      ShorterDigitsBeforeColon(p, m, n, r);
    }
  }

  lemma ShorterDigitsBeforeColon(p: string, n: string, m: string, r: string)
    requires forall k :: 0 <= k < |m| ==> '0' <= m[k] <= '9'
    requires p + n + ": " <= r && p + m + ": " <= r
    requires |n| <= |m|
    ensures n == m
  {
    if |n| < |m| {
      // `n`'s ':' would stand where `m` has a digit.
      ColonAfter(p, n, r);
      DigitAt(p, m, r, |n|);
    } else {
      forall k | 0 <= k < |n|
        ensures n[k] == m[k]
      {
        DigitAt(p, n, r, k);
        DigitAt(p, m, r, k);
      }
    }
  }

  lemma ColonAfter(p: string, n: string, r: string)
    requires p + n + ": " <= r
    ensures |p| + |n| < |r| && r[|p| + |n|] == ':'
  {
    assert (p + n + ": ")[|p| + |n|] == ':';
  }

  lemma DigitAt(p: string, n: string, r: string, k: nat)
    requires p + n + ": " <= r && k < |n|
    ensures |p| + k < |r| && r[|p| + k] == n[k]
  {
    assert (p + n + ": ")[|p| + k] == n[k];
  }

  /** Two item prefixes of one message name the same index. */
  lemma SamePrefixSameIndex(p: string, i: nat, j: nat, r: string)
    requires p + NatToString(i) + ": " <= r && p + NatToString(j) + ": " <= r
    ensures i == j
  {
    DigitsBeforeColon(p, NatToString(i), NatToString(j), r);
    NatToStringInjective(i, j);
  }

  /** Strings that start with the same kind and two different indices differ. */
  lemma PrefixesApart(p: string, i: nat, j: nat, r: string, r': string)
    requires i != j && p + NatToString(i) + ": " <= r && p + NatToString(j) + ": " <= r'
    ensures r != r'
  {
    if r == r' {
      SamePrefixSameIndex(p, i, j, r);
    }
  }

  /** Messages about two different questions never read alike; likewise for flashcards and sections. */
  lemma DistinctQuestionsDistinctMessages(v: Violation, w: Violation)
    requires v.InQuestion() && w.InQuestion() && v.i != w.i
    ensures Message(v) != Message(w)
  {
    ItemKindsApart(v);
    ItemKindsApart(w);
    PrefixesApart("Question ", v.i, w.i, Message(v), Message(w));
  }

  lemma DistinctFlashcardsDistinctMessages(v: Violation, w: Violation)
    requires v.InFlashcard() && w.InFlashcard() && v.i != w.i
    ensures Message(v) != Message(w)
  {
    ItemKindsApart(v);
    ItemKindsApart(w);
    PrefixesApart("Flashcard ", v.i, w.i, Message(v), Message(w));
  }

  lemma DistinctSectionsDistinctMessages(v: Violation, w: Violation)
    requires v.InSection() && w.InSection() && v.i != w.i
    ensures Message(v) != Message(w)
  {
    ItemKindsApart(v);
    ItemKindsApart(w);
    PrefixesApart("Fiche section ", v.i, w.i, Message(v), Message(w));
  }

  function Messages(vs: seq<Violation>): (r: seq<string>)
    ensures |r| == |vs|
    ensures forall k :: 0 <= k < |vs| ==> r[k] == Message(vs[k])
  {
    if vs == [] then [] else [Message(vs[0])] + Messages(vs[1..])
  }
}
