/**
 * The checks `POST /api/publish/theme` makes before it records a
 * publication: the publication type, the targets of an assignment, the
 * existence of the theme in the caller's tenant, the `content_type` it fills
 * in when the stored content has none, and strict (partner-compliance)
 * validation of the result.
 *
 * The request body and the stored theme are inputs: the database lookup by
 * id and tenant becomes the `stored` parameter.
 */
module Publish {
  import opened Wrappers
  import opened Php
  import opened Schema
  import opened Validator
  import opened ValidatorProperties

  /** A non-null JSON value of the request body. */
  datatype Value = Text(s: string) | Flag(b: bool) | Number(n: int) | Compound

  datatype Request = Request(
    publicationType: Value,
    targetClasses: Option<Coll<string>>,
    targetStudents: Option<Coll<string>>)

  /** An error response (code, message, validation errors) or the go-ahead with the content to publish. */
  datatype Decision =
    | Refuse(code: string, message: string, validationErrors: seq<string>)
    | Proceed(content: Theme)

  const PublicationTypes: seq<string> := ["catalog", "assignment"]

  const InvalidTypeMessage := "Invalid publication_type. Must be \"catalog\" or \"assignment\""
  const TargetsRequiredMessage := "target_classes or target_students required for assignment publication"
  const NotFoundMessage := "Theme not found"
  const NotCompliantMessage := "Theme is not Ergo-Mate compliant"

  // ---------------------------------------------------------------------
  // The publication type check

  /**
   * PHP 8 `==` between a decoded JSON value and a non-numeric string `t`:
   * a boolean compares with the string's truth value, a number is compared
   * as its decimal text (never equal to a non-numeric string), an array
   * never equals a string.
   */
  predicate LooseEqualsText(v: Value, t: string): (b: bool)
    requires !EmptyString(t)
    ensures b <==> v == Text(t) || v == Flag(true)
  {
    match v
    case Text(s) => s == t
    case Flag(b) => b
    case Number(_) => false
    case Compound => false
  }

  /** The check as written: a loose `in_array` over the two names. */
  predicate TypeAcceptedAsWritten(v: Value): (b: bool)
    ensures b <==> v == Flag(true) || ValidPublicationType(v)
  {
    assert v == Flag(true) || ValidPublicationType(v) ==>
             LooseEqualsText(v, PublicationTypes[0]) || LooseEqualsText(v, PublicationTypes[1]);
    exists k :: 0 <= k < |PublicationTypes| && LooseEqualsText(v, PublicationTypes[k])
  }

  /** The check as intended: the value is one of the two names. */
  predicate ValidPublicationType(v: Value) {
    v.Text? && v.s in PublicationTypes
  }

  /** The discrepancy: the loose comparison lets the boolean `true` through. */
  lemma TrueAcceptedAsType()
    ensures TypeAcceptedAsWritten(Flag(true))
    ensures !ValidPublicationType(Flag(true))
  {
    assert LooseEqualsText(Flag(true), PublicationTypes[0]);
  }

  /** On strings, and on every value other than `true`, the loose check is the strict one. */
  lemma TypeChecksAgreeExceptTrue(v: Value)
    ensures v != Flag(true) ==> (TypeAcceptedAsWritten(v) <==> ValidPublicationType(v))
  {
    if v.Text? && v.s in PublicationTypes {
      var k :| 0 <= k < |PublicationTypes| && PublicationTypes[k] == v.s;
      assert LooseEqualsText(v, PublicationTypes[k]);
    }
  }

  // ---------------------------------------------------------------------
  // content_type inference

  /** The type the endpoint infers from which kinds of content are non-empty. */
  function InferredType(doc: Theme): (t: string)
    ensures t in ContentTypes
  {
    var q, f, s := !BlankColl(doc.questions), !BlankColl(doc.flashcards), !BlankFiche(doc.fiche);
    if q && f && s then "complete"
    else if q then "quiz"
    else if f then "flashcards"
    else if s then "fiche"
    else "complete"
  }

  /** Fill in `content_type` when the stored content has none; otherwise leave the document alone. */
  function WithContentType(doc: Theme): (r: Theme)
    ensures r.contentType.Some? && (doc.contentType.Some? ==> r == doc)
    ensures r.(contentType := doc.contentType) == doc
  {
    if doc.contentType.Some? then doc else doc.(contentType := Some(InferredType(doc)))
  }

  /**
   * The inferred type describes the content: "quiz" when questions lead,
   * "flashcards" or "fiche" when that is the first kind present, and
   * "complete" exactly when all three or none are present.
   */
  lemma InferredTypeMatchesContent(doc: Theme)
    ensures var q, f, s := !BlankColl(doc.questions), !BlankColl(doc.flashcards), !BlankFiche(doc.fiche);
            && (InferredType(doc) == "complete" <==> (q && f && s) || (!q && !f && !s))
            && (InferredType(doc) == "quiz" <==> q && !(f && s))
            && (InferredType(doc) == "flashcards" <==> !q && f)
            && (InferredType(doc) == "fiche" <==> !q && !f && s)
  {
  }

  /** A filled-in `content_type` never draws a content_type error under strict validation. */
  lemma InferredTypeIsAccepted(doc: Theme)
    requires doc.contentType.None?
    ensures ContentTypeMissing !in ValidateTheme(WithContentType(doc), true).errors
    ensures ContentTypeInvalid !in ValidateTheme(WithContentType(doc), true).errors
  {
    StrictChecksOnlyWhenStrict(WithContentType(doc));
  }

  // ---------------------------------------------------------------------
  // The endpoint's checks, in order

  /** Both targets are `empty()`. */
  predicate NoTargets(req: Request) {
    BlankColl(req.targetClasses) && BlankColl(req.targetStudents)
  }

  /**
   * The checks in the endpoint's order, with the intended publication type
   * check: type, assignment targets, theme lookup, then strict validation
   * of the content with its `content_type` filled in.
   */
  function PreparePublication(req: Request, stored: Option<Theme>): (r: Decision)
    ensures !ValidPublicationType(req.publicationType) ==>
              r == Refuse("VALIDATION_ERROR", InvalidTypeMessage, [])
    ensures ValidPublicationType(req.publicationType) && req.publicationType.s == "assignment" && NoTargets(req) ==>
              r == Refuse("VALIDATION_ERROR", TargetsRequiredMessage, [])
    ensures r == Refuse("NOT_FOUND", NotFoundMessage, []) <==>
              && ValidPublicationType(req.publicationType)
              && !(req.publicationType.s == "assignment" && NoTargets(req))
              && stored.None?
    ensures r.Proceed? <==>
              && ValidPublicationType(req.publicationType)
              && !(req.publicationType.s == "assignment" && NoTargets(req))
              && stored.Some? && ValidateTheme(WithContentType(stored.value), true).valid
    ensures r.Proceed? ==> r.content == WithContentType(stored.value)
    ensures && ValidPublicationType(req.publicationType)
            && !(req.publicationType.s == "assignment" && NoTargets(req))
            && stored.Some? && !ValidateTheme(WithContentType(stored.value), true).valid ==>
              && r == Refuse("VALIDATION_ERROR", NotCompliantMessage,
                             Messages(ValidateTheme(WithContentType(stored.value), true).errors))
              && |r.validationErrors| > 0
    ensures r.Refuse? && r.message == NotCompliantMessage ==>
              && stored.Some?
              && r.validationErrors == Messages(ValidateTheme(WithContentType(stored.value), true).errors)
              && |r.validationErrors| > 0
  {
    if !ValidPublicationType(req.publicationType) then
      Refuse("VALIDATION_ERROR", InvalidTypeMessage, [])
    else if req.publicationType.s == "assignment" && NoTargets(req) then
      Refuse("VALIDATION_ERROR", TargetsRequiredMessage, [])
    else if stored.None? then
      Refuse("NOT_FOUND", NotFoundMessage, [])
    else
      var content := WithContentType(stored.value);
      var report := ValidateTheme(content, true);
      if !report.valid then Refuse("VALIDATION_ERROR", NotCompliantMessage, Messages(report.errors))
      else Proceed(content)
  }

  /** What goes on to be published conforms to the strict schema and is the stored theme with a type. */
  lemma ProceedIsCompliant(req: Request, stored: Option<Theme>)
    requires PreparePublication(req, stored).Proceed?
    ensures var c := PreparePublication(req, stored).content;
            && Conforms(c, true)
            && c.contentType.Some? && c.contentType.value in ContentTypes
            && HasContent(c)
            && stored.Some? && c.(contentType := stored.value.contentType) == stored.value
  {
    var c := PreparePublication(req, stored).content;
    ValidIffConforms(c, true);
  }

  /** A stored theme with no questions, flashcards or fiche is refused with the no-content message. */
  lemma EmptyThemeRefused(req: Request, doc: Theme)
    requires ValidPublicationType(req.publicationType) && !(req.publicationType.s == "assignment" && NoTargets(req))
    requires !HasContent(doc)
    ensures var r := PreparePublication(req, Some(doc));
            && r == Refuse("VALIDATION_ERROR", NotCompliantMessage, r.validationErrors)
            && Message(NoContent) in r.validationErrors
  {
    var content := WithContentType(doc);
    assert !HasContent(content);
    StrictChecksOnlyWhenStrict(content);
    var errs := ValidateTheme(content, true).errors;
    var k :| 0 <= k < |errs| && errs[k] == NoContent;
    assert Messages(errs)[k] == Message(NoContent);
  }
}
