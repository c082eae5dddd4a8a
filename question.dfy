/** `Question`: a multiple-choice quiz question, its scoring and the
    validator that checks it against Telegram's poll limits. */
module Questions {
  import opened Py

  datatype Question = Question(
    question: string,
    options: seq<string>,
    correctIdx: int,
    explanation: string,
    askTime: Option<int>,
    answerTime: Option<int>,
    answerIdx: Option<int>)

  /** A question as the extractors build it: nothing asked or answered yet. */
  function NewQuestion(text: string, options: seq<string>, correctIdx: int, explanation: string): Question {
    Question(text, options, correctIdx, explanation, None, None, None)
  }

  /** Telegram's limits on a quiz poll. */
  const MAX_QUESTION_LEN := 255
  const MAX_OPTION_LEN := 100
  const MAX_EXPLANATION_LEN := 200

  /** `Question.is_correct`: the recorded answer is the correct option (an
      unanswered question is not correct). */
  predicate IsCorrect(q: Question) {
    q.answerIdx == Some(q.correctIdx)
  }

  /** The first two checks of the validator: the question text and every
      option fit. */
  predicate TextsFit(q: Question) {
    && |q.question| <= MAX_QUESTION_LEN
    && forall k :: 0 <= k < |q.options| ==> |q.options[k]| <= MAX_OPTION_LEN
  }

  /** Everything a poll needs, the explanation included. */
  predicate FitsPoll(q: Question) {
    && TextsFit(q)
    && |q.explanation| <= MAX_EXPLANATION_LEN
    && 0 <= q.correctIdx < |q.options|
  }

  /** The verdict of `validate_telegram_poll` and the question as the call
      leaves it (the call truncates the explanation in place). */
  datatype Checked = Checked(valid: bool, question: Question)

  /** Whether a question can be sent as a Telegram quiz poll, together with
      the question as the check leaves it (the explanation cut to 200
      characters once text and options fit). */
  function ValidateTelegramPoll(q: Question): Checked {
    if |q.question| > MAX_QUESTION_LEN then Checked(false, q)
    else if exists k :: 0 <= k < |q.options| && |q.options[k]| > MAX_OPTION_LEN then Checked(false, q)
    else
      var q' := if |q.explanation| > MAX_EXPLANATION_LEN
        then q.(explanation := q.explanation[..MAX_EXPLANATION_LEN]) else q;
      if !(0 <= q'.correctIdx < |q'.options|) then Checked(false, q')
      else Checked(true, q')
  }

  /** A question passes exactly when its texts fit and its correct index
      names an option; a passing question fits a poll. Once the texts fit,
      the explanation is cut to 200 characters whatever the verdict;
      otherwise the question is left as it was. */
  lemma ValidateSpec(q: Question)
    ensures var r := ValidateTelegramPoll(q);
      && (r.valid <==> TextsFit(q) && 0 <= q.correctIdx < |q.options|)
      && (r.valid ==> FitsPoll(r.question))
      && (TextsFit(q) ==> r.question == q.(explanation := Take(q.explanation, MAX_EXPLANATION_LEN)))
      && (!TextsFit(q) ==> r.question == q)
  {
  }

  /** Validating twice changes nothing more: the verdict is the same and
      the question is not truncated a second time. */
  lemma ValidateIdempotent(q: Question)
    ensures var r := ValidateTelegramPoll(q);
      ValidateTelegramPoll(r.question) == r
  {
    var r := ValidateTelegramPoll(q);
    ValidateSpec(q);
    ValidateSpec(r.question);
  }

  // ---------------------------------------------------------------------
  // Scoring a quiz (`LearningSession.summary_quiz`)

  /** The number of correctly answered questions. */
  function CorrectCount(quiz: seq<Question>): (n: nat)
    ensures n <= |quiz|
  {
    if quiz == [] then 0
    else (if IsCorrect(quiz[0]) then 1 else 0) + CorrectCount(quiz[1..])
  }

  /** The count over a concatenation is the sum of the counts. */
  lemma {:induction false} CorrectCountAppend(a: seq<Question>, b: seq<Question>)
    ensures CorrectCount(a + b) == CorrectCount(a) + CorrectCount(b)
  {
    if a == [] {
      assert a + b == b;
    } else {
      assert (a + b)[1..] == a[1..] + b;
      CorrectCountAppend(a[1..], b);
    }
  }

  /** Replacing one question changes the count by what that question
      contributes before and after. */
  lemma {:induction false} CorrectCountUpdate(quiz: seq<Question>, i: nat, q: Question)
    requires i < |quiz|
    ensures CorrectCount(quiz[i := q])
         == CorrectCount(quiz) - (if IsCorrect(quiz[i]) then 1 else 0) + (if IsCorrect(q) then 1 else 0)
  {
    if i == 0 {
      assert quiz[i := q][1..] == quiz[1..];
    } else {
      assert quiz[i := q][1..] == quiz[1..][i - 1 := q];
      CorrectCountUpdate(quiz[1..], i - 1, q);
    }
  }
}
