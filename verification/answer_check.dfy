/**
 * The `correctAnswer` range check as the source writes it. The test is
 * guarded by `isset($q['choices'])` rather than `is_array(...)`, so a
 * non-null scalar `choices` with a non-negative integer answer reaches
 * `count()` on a scalar, which PHP 8 rejects with a `TypeError` instead of
 * reporting a validation error. A negative answer is caught by the `< 0`
 * test before `count()` is reached and reported as out of range.
 *
 * The validator model uses `Validator.AnswerErrors`, which makes the range
 * test only when `choices` is an array, so that a malformed `choices` is
 * reported by its own error alone.
 */
module AnswerCheck {
  import opened Wrappers
  import opened Php
  import opened Schema
  import opened Validator

  /** The result of the check: the errors it appends, or the `TypeError` that aborts validation. */
  datatype Checked = Reported(errors: seq<Violation>) | TypeError

  /** The answer check exactly as written, `count()` on a scalar included. */
  function AnswerErrorsAsWritten(i: nat, q: Question): (r: Checked)
    ensures r.TypeError? <==>
              && q.correctAnswer.Some? && q.correctAnswer.value.IntAnswer? && q.correctAnswer.value.n >= 0
              && q.choices.Some? && q.choices.value.NotArray?
    ensures r.Reported? ==> |r.errors| <= 1
    ensures r.Reported? && QuestionAnswerInvalid(i) in r.errors <==>
              q.correctAnswer.None? || q.correctAnswer.value.NonIntAnswer?
  {
    match q.correctAnswer
    case None => Reported([QuestionAnswerInvalid(i)])
    case Some(NonIntAnswer) => Reported([QuestionAnswerInvalid(i)])
    case Some(IntAnswer(n)) =>
      if q.choices.None? then Reported([])
      else if n < 0 then Reported([QuestionAnswerRange(i)])
      else match q.choices.value
        case NotArray(_) => TypeError
        case List(cs) => if n >= |cs| then Reported([QuestionAnswerRange(i)]) else Reported([])
  }

  /** With `choices` absent or an array, the check as written and the corrected one agree. */
  lemma AsWrittenAgreesOnArrays(i: nat, q: Question)
    requires q.choices.None? || q.choices.value.List?
    ensures AnswerErrorsAsWritten(i, q) == Reported(AnswerErrors(i, q))
  {
  }

  /**
   * The discrepancy: a question whose `choices` is the string "A" and whose
   * answer is 0 aborts validation as written, while the corrected check
   * raises nothing of its own and leaves the report to the choices error.
   */
  lemma ScalarChoicesAbortValidation()
    ensures var q := Question(None, None, Some(NotArray(false)), Some(IntAnswer(0)));
            && AnswerErrorsAsWritten(0, q) == TypeError
            && AnswerErrors(0, q) == []
            && ChoicesErrors(0, q.choices) == [QuestionChoicesMissing(0)]
  {
  }

  /**
   * Wherever the check as written does not abort, the corrected one reports
   * the same errors, except that it does not flag a negative answer beside a
   * scalar `choices`.
   */
  lemma CorrectedDiffersOnlyOnScalarChoices(i: nat, q: Question)
    requires AnswerErrorsAsWritten(i, q).Reported?
    ensures q.choices.Some? && q.choices.value.NotArray? && q.correctAnswer.Some? && q.correctAnswer.value.IntAnswer?
            ==> AnswerErrorsAsWritten(i, q).errors == [QuestionAnswerRange(i)] && AnswerErrors(i, q) == []
    ensures !(q.choices.Some? && q.choices.value.NotArray? && q.correctAnswer.Some? && q.correctAnswer.value.IntAnswer?)
            ==> AnswerErrorsAsWritten(i, q).errors == AnswerErrors(i, q)
  {
  }
}
