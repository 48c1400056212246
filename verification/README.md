# Catalog workflow, theme schema validation and publication checks

This project models three parts of the pedagogical content orchestrator in Dafny and proves properties of them.

- **The catalog workflow engine** (`WorkflowManager`). A catalog entry moves through six states: draft, proposed, validated, published, rejected and archived.
  - The edge table `ALLOWED_TRANSITIONS` and the role table `TRANSITION_PERMISSIONS` are modelled.
  - So are the five guarded operations: submit, validate, reject, publish and archive. Each of them goes through the one primitive `transitionStatus`, which updates the status and appends a history row in a single unit of work.
  - The history read-back and the per-tenant statistics are modelled too.
  - The database becomes an immutable `Store`: a map of entries plus the history table. An operation returns the new store and the reply array. A failed operation returns the store unchanged, which is how the commit/rollback pair is represented.
- **The theme schema validator** (`SchemaValidator::validateTheme`). It is a pure function from a decoded content document and the `strict` flag to the accumulated error list. Each error is a `Violation` value, and `Schema.Message` renders it as the exact string the source appends.
  - `extractKeywords` is modelled on the token sequence.
- **The checks of `POST /api/publish/theme`**, in the endpoint's order:
  1. the publication type;
  2. the targets of an assignment;
  3. the theme lookup;
  4. the `content_type` the endpoint fills in when the stored content has none;
  5. strict (partner-compliance) validation of the result.

The main results are:

- **History consistency.** Every operation preserves an invariant: each entry's history rows, read oldest first, form a walk through the lifecycle graph that starts at draft and ends at the entry's current status.
- **Statistics.** The status counts add up to the tenant's number of entries.
- **Validator against a reference.** A report is valid exactly when the document satisfies an independent, field-by-field conformance predicate.
- **Error counts.** Each scalar field is reported at most once. Strict-only errors never appear without `strict`. A malformed array field gives a single shape error and no per-item errors.
- **Keywords.** Extraction returns a prefix of the filtered tokens: at most three of them.
- **Publication.** Whatever the endpoint goes on to publish conforms to the strict schema.

PHP value semantics are modelled explicitly in module `Php`:

- `empty()` on strings, null and arrays;
- `isset()` treating null as absent;
- `strlen()` as the UTF-8 byte count;
- the decimal rendering of `$i` in messages.

## Model

| member | source | states |
|---|---|---|
| Workflow.ParseStatus | orchestrator/services/WorkflowManager.php:20-25 | a string names at most one state; the parsed state's stored name is the string, and every state's name parses back to that state |
| Workflow.IsTransitionAllowed | orchestrator/services/WorkflowManager.php:58-64 | an unknown source state is never allowed; a pair of strings is allowed exactly when both name states and the pair is an edge of the lifecycle graph, which is written independently as a set of twelve edges |
| Workflow.AllowedIsEdge | orchestrator/services/WorkflowManager.php:28-35 | the row-by-row edge table and the set of edges describe the same graph |
| Workflow.EdgeExamples | orchestrator/services/WorkflowManager.php:28-35 | draft to proposed is allowed, draft to validated is not, and a string naming no state has no outgoing edge |
| Workflow.CanUserTransition | orchestrator/services/WorkflowManager.php:73-79 | an unknown target is refused; otherwise the answer matches the role policy stated role by role: admin and direction may reach any state, a teacher may reach proposed and draft, and a referent may reach validated and rejected |
| Workflow.OnlyDirectionOrAdminPublish | orchestrator/services/WorkflowManager.php:38-45 | a role may move an entry to published exactly when it is direction or admin |
| Workflow.TransitionStatus | orchestrator/services/WorkflowManager.php:321-360 | fails exactly off the graph's edges, with the "Transition from X to Y is not allowed" message and the store untouched; on success it echoes entry, previous and new status and comment, sets the entry's status and updated_by, keeps author and tenant, changes no other entry and appends exactly one history row |
| Workflow.SubmitForValidation | orchestrator/services/WorkflowManager.php:89-129 | succeeds exactly for an existing draft submitted by its author; it gives not-found, not-draft and not-owner in that order of precedence; the default comment is "Submitted for validation"; a failure changes nothing |
| Workflow.ValidateTheme | orchestrator/services/WorkflowManager.php:139-174 | succeeds exactly for an existing proposed entry and commits proposed to validated with the default comment "Theme validated"; otherwise not-found or not-proposed, and the store is unchanged |
| Workflow.RejectTheme | orchestrator/services/WorkflowManager.php:184-226 | an `empty()` comment is refused before the entry is looked up; otherwise succeeds exactly for a proposed entry and commits proposed to rejected, with the given comment logged |
| Workflow.PublishTheme | orchestrator/services/WorkflowManager.php:236-277 | succeeds exactly for an existing validated entry and commits validated to published with the default comment "Theme published to catalog" |
| Workflow.ArchiveTheme | orchestrator/services/WorkflowManager.php:287-309 | has no status check of its own and succeeds exactly from draft, published or rejected; any other status gets the primitive's not-allowed message, naming the current status |
| WorkflowHistory.CommittedKeepsConsistent | orchestrator/services/WorkflowManager.php:321-381 | a committed transition along an edge out of the entry's current status preserves status/history consistency |
| WorkflowHistory.TransitionKeepsConsistent | orchestrator/services/WorkflowManager.php:321-360 | the primitive, handed the entry's current status, preserves consistency whether it succeeds or fails |
| WorkflowHistory.SubmitKeepsConsistent | orchestrator/services/WorkflowManager.php:89-129 | submitting preserves consistency, for all arguments |
| WorkflowHistory.ValidateKeepsConsistent | orchestrator/services/WorkflowManager.php:139-174 | validating preserves consistency, for all arguments |
| WorkflowHistory.RejectKeepsConsistent | orchestrator/services/WorkflowManager.php:184-226 | rejecting preserves consistency, for all arguments |
| WorkflowHistory.PublishKeepsConsistent | orchestrator/services/WorkflowManager.php:236-277 | publishing preserves consistency, for all arguments |
| WorkflowHistory.ArchiveKeepsConsistent | orchestrator/services/WorkflowManager.php:287-309 | archiving preserves consistency, for all arguments |
| WorkflowHistory.OperationsKeepConsistent | orchestrator/services/WorkflowManager.php:89-309 | each of the five public operations preserves consistency |
| WorkflowHistory.GetWorkflowHistory | orchestrator/services/WorkflowManager.php:389-400 | returns exactly the entry's rows, most recent first: the reverse of insertion order |
| WorkflowHistory.HistoryIsComplete | orchestrator/services/WorkflowManager.php:389-400 | every stored history row of the entry appears in its history |
| WorkflowHistory.LatestRowMatchesStatus | orchestrator/services/WorkflowManager.php:389-400 | under the invariant, the first row returned names the entry's current status as its target, and an entry without history is a draft |
| WorkflowHistory.NewRowComesFirst | orchestrator/services/WorkflowManager.php:365-400 | after a committed transition, the entry's history has one more row; that row comes first and the older rows follow unchanged |
| WorkflowHistory.PublishTwiceFails | orchestrator/services/WorkflowManager.php:236-277 | publishing a validated entry succeeds; a second publish fails with "Only validated themes can be published" and changes nothing |
| WorkflowHistory.ArchiveThenBackToDraft | orchestrator/services/WorkflowManager.php:28-35 | a published entry can be archived and then returned to draft along the archived-to-draft edge; both steps succeed, consistency holds, and the two new rows come first in the history, newest first |
| WorkflowStats.GetWorkflowStats | orchestrator/services/WorkflowManager.php:476-493 | a status is a key exactly when some entry of the tenant is in it; its value is the positive number of the tenant's entries in that status |
| WorkflowStats.StatsAddUp | orchestrator/services/WorkflowManager.php:476-493 | the counts over all six statuses, with absent keys read as zero, add up to the number of the tenant's entries |
| Validator.TextErrors | orchestrator/lib/ai_service.php:411-421 | at most one error: "missing" exactly when the value is absent or `empty()`, "length" exactly when it is present but its byte length is outside the inclusive bounds |
| Validator.EnumErrors | orchestrator/lib/ai_service.php:423-427 | at most one error: "missing" exactly when `empty()`, "invalid" exactly when present and not one of the allowed values |
| Validator.IdErrors | orchestrator/lib/ai_service.php:450-454 | at most one error: "missing" exactly when `empty()`, "pattern" exactly when present and not the prefix letter followed by one or more digits |
| Validator.ScalarErrors | orchestrator/lib/ai_service.php:410-427 | the title, description and difficulty checks raise only scalar-field violations |
| Validator.StrictErrors | orchestrator/lib/ai_service.php:430-442 | raises only strict-only violations, and the no-content error exactly when questions, flashcards and fiche are all `empty()` |
| Validator.ChoicesErrors | orchestrator/lib/ai_service.php:462-466 | at most one error: "missing choices array" exactly when choices is absent or not an array, "2 to 6 choices" exactly when it is an array of another size |
| Validator.AnswerErrors | orchestrator/lib/ai_service.php:468-472 | at most one error: "invalid" exactly when correctAnswer is absent or not an integer; "out of range" exactly when it is an integer outside [0, number of choices) and choices is an array |
| Validator.QuestionErrors | orchestrator/lib/ai_service.php:449-473 | at most four errors, all question violations with this question's index; each of the eight is raised exactly when its condition holds: id missing iff `empty()`, id pattern iff present and not "q" followed by digits, text missing iff `empty()`, text length iff present and outside [5, 1000] bytes, choices missing iff absent or not an array, choice count iff an array outside 2 to 6, answer invalid iff absent or not an integer, answer range iff an integer outside [0, number of choices) with choices an array |
| Validator.QuestionListErrors | orchestrator/lib/ai_service.php:449-473 | every error of the list is a question violation whose index lies within the list |
| Validator.QuestionsErrors | orchestrator/lib/ai_service.php:445-475 | the questions block raises only question violations or the single "non-empty array" error |
| Validator.FlashcardErrors | orchestrator/lib/ai_service.php:482-500 | at most three errors, all flashcard violations with this card's index; id missing iff `empty()`, id pattern iff present and not "f" followed by digits, front missing iff `empty()`, front length iff outside [3, 500] bytes, back missing iff `empty()`, back length iff outside [3, 2000] bytes |
| Validator.FlashcardListErrors | orchestrator/lib/ai_service.php:482-500 | every error of the list is a flashcard violation whose index lies within the list |
| Validator.FlashcardsErrors | orchestrator/lib/ai_service.php:478-502 | the flashcards block raises only flashcard violations or the single "must be an array" error |
| Validator.KeyPointsErrors | orchestrator/lib/ai_service.php:531-537 | at most one error: "must be an array" exactly when keyPoints is present and a scalar, "at most 10" exactly when it is an array of more than ten items |
| Validator.SectionErrors | orchestrator/lib/ai_service.php:518-538 | at most three errors, all section violations with this section's index; title missing iff `empty()`, title length iff outside [3, 255] bytes, content missing iff `empty()`, content length iff outside [10, 5000] bytes, keyPoints not an array iff present and a scalar, too many iff an array of more than ten |
| Validator.SectionListErrors | orchestrator/lib/ai_service.php:518-538 | every error of the list is a section violation whose index lies within the list |
| Validator.ItemErrorsIff | orchestrator/lib/ai_service.php:449-538 | for any per-item check that reports only about its own item, a violation is in the loop's errors exactly when it names an item of the list by index and that item's check raises it |
| Validator.QuestionListErrorsIff | orchestrator/lib/ai_service.php:449-473 | a violation is reported by the question loop exactly when it is a question violation naming a question of the list and that question's checks raise it |
| Validator.FlashcardListErrorsIff | orchestrator/lib/ai_service.php:482-500 | a violation is reported by the flashcard loop exactly when it names a card of the list and that card's checks raise it |
| Validator.SectionListErrorsIff | orchestrator/lib/ai_service.php:518-538 | a violation is reported by the section loop exactly when it names a section of the list and that section's checks raise it |
| Validator.FicheErrors | orchestrator/lib/ai_service.php:505-541 | raises only section violations or fiche-shape errors; "not an object" iff the fiche is a scalar, "sections missing" iff the fiche is an array whose sections are `empty()`, "sections not an array" iff they are present and a scalar, "at most 20" iff an array of more than twenty |
| Validator.ValidateTheme | orchestrator/lib/ai_service.php:543-547 | valid exactly when the error list is empty; compliant exactly when valid and strict; never compliant without strict |
| ValidatorProperties.ReportInOrder | orchestrator/lib/ai_service.php:407-548 | errors are reported block by block: title, description and difficulty first, then the strict checks, the questions, the flashcards and the fiche; within the questions, the flashcards and the sections, an earlier item's errors come before a later item's; and one item's errors, like the title, description and difficulty errors, come in the order its fields are checked |
| ValidatorProperties.ReportOrderConsequences | orchestrator/lib/ai_service.php:407-548 | a title, description or difficulty error is never preceded by another kind of error; no question error follows a flashcard or fiche error; the errors of two questions appear in question order; two scalar errors, or two errors about the same question, card or section, appear in the order their fields are checked |
| ValidatorProperties.QuestionListInOrder | orchestrator/lib/ai_service.php:449-473 | the question loop reports its errors in question-index order |
| ValidatorProperties.FlashcardListInOrder | orchestrator/lib/ai_service.php:482-500 | the flashcard loop reports its errors in card-index order |
| ValidatorProperties.SectionListInOrder | orchestrator/lib/ai_service.php:518-538 | the section loop reports its errors in section-index order |
| ValidatorProperties.ScalarsInOrder | orchestrator/lib/ai_service.php:410-427 | the scalar errors come in field order: title, then description, then difficulty |
| ValidatorProperties.StrictPartInOrder | orchestrator/lib/ai_service.php:430-442 | the strict errors come in check order: content_type before no-content |
| ValidatorProperties.QuestionChecksInOrder | orchestrator/lib/ai_service.php:449-473 | one question's errors come in field order: id, text, choices, then correctAnswer |
| ValidatorProperties.FlashcardChecksInOrder | orchestrator/lib/ai_service.php:482-500 | one card's errors come in field order: id, front, then back |
| ValidatorProperties.SectionChecksInOrder | orchestrator/lib/ai_service.php:518-538 | one section's errors come in field order: title, content, then keyPoints |
| ValidatorProperties.TextErrorsEmptyIff | orchestrator/lib/ai_service.php:411-415 | a text field passes exactly when it is present with a byte length within the bounds |
| ValidatorProperties.IdErrorsEmptyIff | orchestrator/lib/ai_service.php:450-454 | an id passes exactly when it is present and matches the pattern |
| ValidatorProperties.EnumErrorsEmptyIff | orchestrator/lib/ai_service.php:423-427 | an enumerated field passes exactly when it is present and one of the allowed values |
| ValidatorProperties.KeyPointsErrorsEmptyIff | orchestrator/lib/ai_service.php:531-537 | keyPoints passes exactly when absent or an array of at most ten items |
| ValidatorProperties.QuestionErrorsEmptyIff | orchestrator/lib/ai_service.php:449-473 | a question draws no error exactly when it satisfies the reference predicate for a conforming question |
| ValidatorProperties.QuestionListEmptyIff | orchestrator/lib/ai_service.php:449-473 | a question list draws no error exactly when every question conforms |
| ValidatorProperties.FlashcardErrorsEmptyIff | orchestrator/lib/ai_service.php:482-500 | a card draws no error exactly when it conforms |
| ValidatorProperties.FlashcardListEmptyIff | orchestrator/lib/ai_service.php:482-500 | a card list draws no error exactly when every card conforms |
| ValidatorProperties.SectionErrorsEmptyIff | orchestrator/lib/ai_service.php:518-538 | a section draws no error exactly when it conforms |
| ValidatorProperties.SectionListEmptyIff | orchestrator/lib/ai_service.php:518-538 | a section list draws no error exactly when every section conforms |
| ValidatorProperties.FicheErrorsEmptyIff | orchestrator/lib/ai_service.php:505-541 | the fiche passes exactly when absent, or an array whose sections are an array of 1 to 20 conforming sections |
| ValidatorProperties.QuestionsErrorsEmptyIff | orchestrator/lib/ai_service.php:445-475 | the questions pass exactly when absent, or a non-empty array of conforming questions |
| ValidatorProperties.FlashcardsErrorsEmptyIff | orchestrator/lib/ai_service.php:478-502 | the flashcards pass exactly when absent, or an array of conforming cards |
| ValidatorProperties.ScalarErrorsEmptyIff | orchestrator/lib/ai_service.php:410-427 | title, description and difficulty pass exactly when all three conform |
| ValidatorProperties.StrictErrorsEmptyIff | orchestrator/lib/ai_service.php:430-442 | the strict checks pass exactly when content_type is one of the four types and some content is present |
| ValidatorProperties.ValidIffConforms | orchestrator/lib/ai_service.php:407-548 | the report is valid exactly when the document satisfies the independent field-by-field conformance predicate, in both modes |
| ValidatorProperties.ErrorsInParts | orchestrator/lib/ai_service.php:407-548 | the error list splits into five consecutive parts, each holding only its own kind of violation |
| ValidatorProperties.InOwnPart | orchestrator/lib/ai_service.php:407-548 | each violation occurs in the report exactly as often as in the one part that can raise it |
| ValidatorProperties.QuestionInQuestions | orchestrator/lib/ai_service.php:445-475 | a question violation is raised by the questions block exactly when questions is an array, the violation names one of its questions, and that question's checks raise it |
| ValidatorProperties.FlashcardInFlashcards | orchestrator/lib/ai_service.php:478-502 | a flashcard violation is raised by the flashcards block exactly when flashcards is an array, the violation names one of its cards, and that card's checks raise it |
| ValidatorProperties.SectionInFiche | orchestrator/lib/ai_service.php:505-541 | a section violation is raised by the fiche block exactly when sections is an array of at most twenty, the violation names one of them, and that section's checks raise it |
| ValidatorProperties.QuestionErrorInReport | orchestrator/lib/ai_service.php:407-548 | a question violation is in the report exactly when questions is an array holding the named question and that question's checks raise it |
| ValidatorProperties.FlashcardErrorInReport | orchestrator/lib/ai_service.php:407-548 | a flashcard violation is in the report exactly when flashcards is an array holding the named card and that card's checks raise it |
| ValidatorProperties.SectionErrorInReport | orchestrator/lib/ai_service.php:407-548 | a section violation is in the report exactly when sections is an array of at most twenty holding the named section and that section's checks raise it |
| ValidatorProperties.FicheShapeInReport | orchestrator/lib/ai_service.php:407-548 | a fiche-shape error is in the report exactly when the fiche checks raise it |
| ValidatorProperties.ScalarCount | orchestrator/lib/ai_service.php:410-427 | a scalar-field violation occurs in the report exactly as often as in the scalar checks |
| ValidatorProperties.TitleReportedOnce | orchestrator/lib/ai_service.php:411-415 | the title draws at most one error: missing exactly when `empty()`, length exactly when present with a byte length outside [3, 255] |
| ValidatorProperties.DescriptionReportedOnce | orchestrator/lib/ai_service.php:417-421 | the description draws at most one error: missing exactly when `empty()`, length exactly when outside [10, 2000] bytes |
| ValidatorProperties.DifficultyReportedOnce | orchestrator/lib/ai_service.php:423-427 | the difficulty draws at most one error: missing exactly when `empty()`, invalid exactly when not one of the three levels |
| ValidatorProperties.StrictChecksOnlyWhenStrict | orchestrator/lib/ai_service.php:430-442 | without strict, no strict-only error appears; with strict, no-content appears exactly when there is no content, and the content_type errors appear exactly when it is `empty()` or not one of the four types |
| ValidatorProperties.StrictInReport | orchestrator/lib/ai_service.php:430-442 | in strict mode a strict-only violation is in the report exactly when the strict checks raise it |
| ValidatorProperties.NoEmptySectionsError | orchestrator/lib/ai_service.php:509-516 | the "at least one section" error is unreachable, because the `empty()` test before it already catches an empty array |
| ValidatorProperties.NullSectionsReported | orchestrator/lib/ai_service.php:505-510 | a fiche whose sections key holds null is not `empty()` (it counts as content), yet it draws exactly the "sections missing" error |
| ValidatorProperties.FicheSectionsInRange | orchestrator/lib/ai_service.php:505-541 | a per-section error of the fiche block implies that sections is an array of 1 to 20 elements |
| ValidatorProperties.QuestionsShapeErrorAlone | orchestrator/lib/ai_service.php:445-448 | questions that are a scalar or an empty array give exactly one "non-empty array" error and no per-question error |
| ValidatorProperties.FlashcardsShapeErrorAlone | orchestrator/lib/ai_service.php:478-481 | scalar flashcards give exactly one "must be an array" error and no per-card error |
| ValidatorProperties.SectionErrorsOnlyInRange | orchestrator/lib/ai_service.php:505-541 | the whole report never holds the "at least one section" error, and a section error in it implies that sections is an array of 1 to 20 |
| ValidatorProperties.ChoicesExample | orchestrator/lib/ai_service.php:462-472 | with two choices and a valid id and text, answer 5 yields exactly the out-of-range error and answer 1 yields none |
| ValidatorProperties.ByteLengthExample | orchestrator/lib/ai_service.php:413-414 | a two-letter accented title (four bytes) passes the three-character minimum, while "ab" fails it |
| ValidatorProperties.ShortTitleExample | orchestrator/lib/ai_service.php:411-415 | a two-character title fails non-strict validation with the length error |
| ValidatorProperties.ScalarsAloneValid | orchestrator/lib/ai_service.php:407-548 | valid scalars without questions, flashcards or fiche pass non-strict validation, with no errors and not compliant |
| ValidatorProperties.StrictNeedsContent | orchestrator/lib/ai_service.php:430-442 | a document with valid scalars and content_type but no content fails strict validation with exactly the no-content error |
| IdPattern.TrailingNewlineAccepted | orchestrator/lib/ai_service.php:452-453 | the pattern as PCRE runs it accepts "q1\n"; the intended pattern rejects it |
| IdPattern.PcreIdMatches | orchestrator/lib/ai_service.php:452-453 | the id pattern as written, as PCRE runs it without the `D` modifier (the flashcard check at line 485 uses the same form): it accepts every intended id, only ids that start with the prefix letter and are at least two long, and beyond the intended ones only a digit run followed by one final newline |
| IdPattern.IdMatchesExactly | orchestrator/lib/ai_service.php:452-453 | the intended pattern accepts exactly the prefix letter followed by a non-empty run of digits |
| IdPattern.IdMatchesHasNoNewline | orchestrator/lib/ai_service.php:485-486 | an accepted id holds no newline, and on newline-free ids the PCRE reading and the intended one agree |
| AnswerCheck.AnswerErrorsAsWritten | orchestrator/lib/ai_service.php:468-472 | as written, the check raises a TypeError exactly when the answer is a non-negative integer and choices is a non-null scalar; otherwise at most one error, with "invalid" exactly for a missing or non-integer answer |
| AnswerCheck.AsWrittenAgreesOnArrays | orchestrator/lib/ai_service.php:462-472 | when choices is absent or an array, the check as written and the corrected one report the same errors |
| AnswerCheck.ScalarChoicesAbortValidation | orchestrator/lib/ai_service.php:462-472 | a scalar choices with answer 0 aborts as written; the corrected check leaves only the "missing choices array" error |
| AnswerCheck.CorrectedDiffersOnlyOnScalarChoices | orchestrator/lib/ai_service.php:468-472 | where the check as written does not abort, the two agree, except for a negative answer beside scalar choices, which only the as-written check flags |
| Keywords.Qualifying | orchestrator/lib/ai_service.php:610-612 | the filter keeps only tokens that occur in the input, are longer than three bytes and are not stop words, and never lengthens the list |
| Keywords.QualifyingCounts | orchestrator/lib/ai_service.php:610-612 | every keyword is kept as often as it occurs in the input, and no other token is kept |
| Keywords.QualifyingAppend | orchestrator/lib/ai_service.php:610-612 | filtering a concatenation gives the concatenation of the filtered parts, so the order is preserved |
| Keywords.ExtractKeywords | orchestrator/lib/ai_service.php:600-616 | the result is the first three keywords, or all of them when there are fewer, as a prefix of the filtered tokens |
| Keywords.PourIsStopWord | orchestrator/lib/ai_service.php:602 | "pour" is long enough but is a stop word, so it is not a keyword |
| Keywords.EteIsKeyword | orchestrator/lib/ai_service.php:611 | a three-letter word with two accented letters is five bytes long and is a keyword |
| Keywords.QualifyingExample | orchestrator/lib/ai_service.php:602-612 | from "pour" and that accented word, only the accented word is kept |
| Publish.TrueAcceptedAsType | orchestrator/api/publish.php:49-52 | the loose `in_array` accepts the boolean `true` as a publication type; the intended check rejects it |
| Publish.TypeChecksAgreeExceptTrue | orchestrator/api/publish.php:49-52 | for every value other than `true`, the loose check and the intended check agree |
| Publish.LooseEqualsText | orchestrator/api/publish.php:50 | PHP 8 loose `==` of a decoded JSON value with a non-empty, non-numeric name: true exactly for that very string or the boolean `true` |
| Publish.TypeAcceptedAsWritten | orchestrator/api/publish.php:49-52 | the publication-type check as written, a loose `in_array` over "catalog" and "assignment": it accepts exactly the boolean `true` and the two names |
| Publish.InferredType | orchestrator/api/publish.php:77-91 | the inferred content_type is always one of the four types the validator accepts |
| Publish.WithContentType | orchestrator/api/publish.php:77-91 | the result always has a content_type; a stored type is left alone; nothing other than content_type changes |
| Publish.InferredTypeMatchesContent | orchestrator/api/publish.php:77-91 | "complete" exactly when all three kinds of content or none are present; "quiz" exactly when questions are present and not all three are; "flashcards" exactly when flashcards but no questions are present; "fiche" exactly when only the fiche is |
| Publish.InferredTypeIsAccepted | orchestrator/api/publish.php:77-93 | a filled-in content_type never draws a content_type error under strict validation |
| Publish.PreparePublication | orchestrator/api/publish.php:49-99 | refuses an invalid type, then an assignment without targets, then a missing theme ("NOT_FOUND"), each with its exact code and message; proceeds exactly when these pass and strict validation of the typed content is valid; when they pass and strict validation fails, refuses with "VALIDATION_ERROR", the not-compliant message and the non-empty list of the validator's messages |
| Publish.ProceedIsCompliant | orchestrator/api/publish.php:93-99 | what proceeds conforms to the strict schema, has one of the four content types and some content, and is the stored theme apart from content_type |
| Publish.EmptyThemeRefused | orchestrator/api/publish.php:93-99 | a stored theme without questions, flashcards or fiche is refused as not compliant, and its messages include the no-content message |
| Php.StrLen | orchestrator/lib/ai_service.php:413 | `strlen` counts UTF-8 bytes: between one and four per character |
| Php.AsciiStrLen | orchestrator/lib/ai_service.php:413 | on ASCII text the byte length is the character count |
| Php.StrLenChar | orchestrator/lib/ai_service.php:413 | one character's `strlen` is its UTF-8 width |
| Php.StrLenConcat | orchestrator/lib/ai_service.php:413 | `strlen` of a concatenation is the sum of the two lengths, which with the one-character case fixes `strlen` on every string |
| Php.NatToString | orchestrator/lib/ai_service.php:451 | the interpolated index is a non-empty string of decimal digits, one digit long exactly for indices below ten, with a leading zero only for zero itself |
| Php.NatToStringValue | orchestrator/lib/ai_service.php:451 | reading the interpolated digits back as a decimal number gives the index itself |
| Php.NatToStringInjective | orchestrator/lib/ai_service.php:451 | distinct indices interpolate to distinct strings, so messages about different items never read alike |
| Schema.Messages | orchestrator/api/publish.php:96-98 | the validation_errors list has one message per violation, in the same order |
| Schema.Message | orchestrator/lib/ai_service.php:411-538 | the error text appended for each violation, verbatim; a message about one question, flashcard or fiche section starts with "Question ", "Flashcard " or "Fiche section ", that item's index and ": " |
| Schema.DistinctQuestionsDistinctMessages | orchestrator/lib/ai_service.php:449-473 | messages about two different questions never coincide, so each message identifies its question |
| Schema.DistinctFlashcardsDistinctMessages | orchestrator/lib/ai_service.php:482-500 | messages about two different flashcards never coincide |
| Schema.DistinctSectionsDistinctMessages | orchestrator/lib/ai_service.php:518-538 | messages about two different fiche sections never coincide |

## Left out

- **Data access.** SQL, PDO and database errors are left out. So are the generated history-row id, the `created_at`, `updated_at` and `published_at` timestamps, and the exception handlers around each operation. The store is a value, and one call is one atomic step. Concurrency between requests is not modelled.
- **Notifications.** The notifications sent after a successful submit, validate, reject or publish (`notifyReferents`, `notifyAuthor`, `notifyTenantTeachers`) are left out. They are side effects that do not affect the reply or the stored state.
- **Role enforcement.** The engine never calls `canUserTransition` itself, and role checks happen in the HTTP layer. The model states the permission table but does not claim that operations enforce it.
- **No public operation leads back to draft.** No public operation performs a transition back to draft, although the edge table allows it from proposed, validated, published, rejected and archived. `WorkflowHistory.ArchiveThenBackToDraft` reaches that edge by calling the primitive `transitionStatus` directly; in the source that method is private.
- **Tenant and history details.** `getCatalogEntry` does not filter by tenant, and neither does the model. The user-name and e-mail columns `getWorkflowHistory` joins in are not modelled. Rows are ordered by insertion, so ties in `created_at` are not modelled.
- **Non-string text fields.** Text fields are strings or absent. Integer, boolean and array values in a text field, where `strlen` coerces or throws, are outside the document model.
- **Collection fields.** A field read as a collection is either a JSON array (a `List`) or a scalar. A JSON object decoded where a list is expected is not modelled separately, so its string keys would be interpolated as `$i` in messages. List indices are the consecutive positions 0, 1, 2, and so on.
- **correctAnswer.** A correctAnswer that is a float or a numeric string counts as "not an integer" (`NonIntAnswer`), as `is_int` makes it.
- **Keyword tokenizing.** Lower-casing with `strtolower`, the `preg_replace` that blanks out non-letters and the `preg_split` into tokens are not modelled. `Keywords.ExtractKeywords` starts from the token sequence. The enrichment routine that builds image-search URLs from the keywords is presentational and is left out.
- **Request field presence.** `validateRequired`, which rejects a request without theme_id or publication_type, is not part of this model. The model therefore assumes the publication type is present and non-null.
- **Authentication and lookup.** Authentication, the tenant lookup and the missing-user check in publish.php are left out. The theme lookup by id and tenant becomes the `stored` parameter.
- **Undecodable stored content.** Stored content that does not decode as JSON (`json_decode` returning null) is not modelled.
- **After the checks.** The publication insert, the call to the partner, the webhook and the other publish.php routes after line 99 are left out.
- **Length units.** The validator's error messages say "characters", but the code measures with `strlen`, which counts bytes. The model follows the code: an accented letter counts two bytes.
- Validator.IdErrors, Validator.AnswerErrors, Validator.ValidateTheme, Publish.PreparePublication, Publish.ProceedIsCompliant: these model the corrected program of the three Findings rows, not the code as written, on exactly these inputs. Question and flashcard ids with a trailing newline, such as "q1\n" and "f1\n" (ai_service.php:452 and :485), are rejected here but accepted by the source. A publication_type of JSON `true` (publish.php:50) is refused here but let through by the source. A question whose choices is a scalar reports only "missing choices array" here; in the source a correctAnswer of 0 or more makes `count()` throw, and a negative correctAnswer adds an "out of range" error that the corrected `AnswerErrors` does not raise. The as-written behaviour is modelled separately by `IdPattern.PcreIdMatches`, `AnswerCheck.AnswerErrorsAsWritten` and `Publish.TypeAcceptedAsWritten`.
- Publish.TypeChecksAgreeExceptTrue, AnswerCheck.AnswerErrorsAsWritten, AnswerCheck.AsWrittenAgreesOnArrays, AnswerCheck.ScalarChoicesAbortValidation, AnswerCheck.CorrectedDiffersOnlyOnScalarChoices, Publish.TrueAcceptedAsType: PHP 8 semantics are assumed for `==` and `count()`. Under PHP 7.x, `0 == "catalog"` holds, so the publication-type check also accepts the integer 0 and other non-numeric-string comparisons differ. `count()` of a scalar returns 1 with a warning instead of throwing, so a scalar choices list is range-checked against a length of 1 rather than aborting validation.

## Findings

| source | as written | input that shows it | evidently intended | confidence | as-written member | corrected member |
|---|---|---|---|---|---|---|
| orchestrator/lib/ai_service.php:452 | `preg_match('/^q[0-9]+$/', ...)`: without the `D` modifier, PCRE's `$` also matches before a final newline (the flashcard pattern at line 485 has the same issue) | id "q1\n" | the id is the prefix letter followed by digits and nothing else | high, not executed | IdPattern.TrailingNewlineAccepted | IdPattern.IdMatchesExactly |
| orchestrator/lib/ai_service.php:470 | the range test is guarded by `isset($q['choices'])`, not `is_array`, so `count()` is applied to a scalar, which is a TypeError in PHP 8 and aborts validation | question with choices "A" and correctAnswer 0 | choices that is not an array reports "missing choices array" and skips the range test | medium, not executed; PHP 8 only (on 7.x `count("A")` is 1 with a warning) | AnswerCheck.ScalarChoicesAbortValidation | Validator.AnswerErrors |
| orchestrator/api/publish.php:50 | non-strict `in_array`: PHP 8 loose `==` makes `true == "catalog"` hold | publication_type `true` (JSON boolean) | only the strings "catalog" and "assignment" pass | medium, not executed; depends on `validateRequired`, which is not part of this model, letting a boolean through | Publish.TrueAcceptedAsType | Publish.PreparePublication |
