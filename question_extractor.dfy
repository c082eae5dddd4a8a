/** The post-parse half of `QuestionExtractor.extract_questions`: every
    match of the language model's output becomes a `Question`, and those
    that fail Telegram's poll limits are dropped. The model's output and
    the regular expression are not modelled; each match arrives as its
    seven captured groups. */
module QuestionExtractor {
  import opened Py
  import opened Questions

  /** The groups `text, a, b, c, d, ans, expl` of one match. */
  datatype QuestionMatch = QuestionMatch(
    text: string, a: string, b: string, c: string, d: string,
    answer: string, explanation: string)

  const ANSWER_LETTERS := "abcd"

  /** `"abcd".index(answer)`: where `answer` first occurs in "abcd" as a
      substring; `ValueError` when it does not occur. */
  function AnswerIndex(answer: string): Result<nat> {
    match Find(ANSWER_LETTERS, answer)
    case None => Err(ValueError)
    case Some(j) => Ok(j)
  }

  /** The index is the first occurrence of the answer in "abcd", so one of
      the four options; there is none exactly when the answer does not occur. */
  lemma AnswerIndexSpec(answer: string)
    ensures var r := AnswerIndex(answer);
      && (r.Ok? <==> exists j :: OccursAt(ANSWER_LETTERS, answer, j))
      && (r.Ok? ==> OccursAt(ANSWER_LETTERS, answer, r.value) && r.value < 4)
      && (r.Ok? ==> forall j :: 0 <= j < r.value ==> !OccursAt(ANSWER_LETTERS, answer, j))
      && (r.Err? ==> r.error == ValueError)
  {
  }

  /** The four answer letters name the four options in order. */
  lemma AnswerLetters()
    ensures AnswerIndex("a") == Ok(0) && AnswerIndex("b") == Ok(1)
    ensures AnswerIndex("c") == Ok(2) && AnswerIndex("d") == Ok(3)
  {
    assert OccursAt(ANSWER_LETTERS, "a", 0);
    assert OccursAt(ANSWER_LETTERS, "b", 1) && !OccursAt(ANSWER_LETTERS, "b", 0);
    assert OccursAt(ANSWER_LETTERS, "c", 2) && !OccursAt(ANSWER_LETTERS, "c", 0) && !OccursAt(ANSWER_LETTERS, "c", 1);
    assert OccursAt(ANSWER_LETTERS, "d", 3);
    assert !OccursAt(ANSWER_LETTERS, "d", 0) && !OccursAt(ANSWER_LETTERS, "d", 1) && !OccursAt(ANSWER_LETTERS, "d", 2);
  }

  /** An answer that is not a substring of "abcd" (a capital letter, a
      trailing space, "e") raises. */
  lemma AnswerNotLetters()
    ensures AnswerIndex("A").Err? && AnswerIndex("b ").Err? && AnswerIndex("e").Err?
  {
    NotLetter("A");
    NotLetter("e");
    forall j | 0 <= j && j + 2 <= |ANSWER_LETTERS| ensures !OccursAt(ANSWER_LETTERS, "b ", j) {
      assert ANSWER_LETTERS[j..j + 2][1] == ANSWER_LETTERS[j + 1] != ' ';
    }
  }

  /** A one-character answer other than a..d occurs nowhere in "abcd". */
  lemma NotLetter(answer: string)
    requires |answer| == 1 && answer[0] !in ANSWER_LETTERS
    ensures AnswerIndex(answer).Err?
  {
    forall j | 0 <= j && j + 1 <= |ANSWER_LETTERS| ensures !OccursAt(ANSWER_LETTERS, answer, j) {
      assert ANSWER_LETTERS[j..j + 1][0] == ANSWER_LETTERS[j] != answer[0];
    }
  }

  /** The `Question(...)` built from one match: options a, b, c, d in that
      order, the answer letter's index, the stripped explanation, and
      nothing asked or answered yet. */
  function BuildQuestion(m: QuestionMatch): Result<Question> {
    match AnswerIndex(m.answer)
    case Err(e) => Err(e)
    case Ok(j) => Ok(NewQuestion(m.text, [m.a, m.b, m.c, m.d], j, Strip(m.explanation)))
  }

  /** Building fails exactly when the answer is not a substring of "abcd"; otherwise the
      question carries the match's text, the options a, b, c, d in order,
      the answer letter's position among them and the stripped explanation. */
  lemma BuildQuestionFields(m: QuestionMatch)
    ensures BuildQuestion(m).Err? <==> AnswerIndex(m.answer).Err?
    ensures BuildQuestion(m).Err? ==> BuildQuestion(m).error == ValueError
    ensures var r := BuildQuestion(m); r.Ok? ==>
      && r.value.question == m.text
      && r.value.options == [m.a, m.b, m.c, m.d]
      && 0 <= r.value.correctIdx < 4
      && OccursAt(ANSWER_LETTERS, m.answer, r.value.correctIdx)
      && r.value.explanation == Strip(m.explanation)
      && r.value.askTime.None? && r.value.answerTime.None? && r.value.answerIdx.None?
  {
  }

  /** What one match contributes: nothing when the question fails
      validation, otherwise the validated (explanation-truncated) question. */
  function Kept(q: Question): seq<Question> {
    var c := ValidateTelegramPoll(q);
    if c.valid then [c.question] else []
  }

  /** The questions of a list of matches, in match order; the first answer
      that is not a substring of "abcd" aborts the whole extraction. */
  function Extracted(matches: seq<QuestionMatch>): Result<seq<Question>> {
    if matches == [] then Ok([])
    else
      match BuildQuestion(matches[0])
      case Err(e) => Err(e)
      case Ok(q) =>
        match Extracted(matches[1..])
        case Err(e) => Err(e)
        case Ok(rest) => Ok(Kept(q) + rest)
  }

  lemma ExtractedStep(s: seq<QuestionMatch>)
    requires s != []
    ensures BuildQuestion(s[0]).Err? ==> Extracted(s) == Err(BuildQuestion(s[0]).error)
    ensures BuildQuestion(s[0]).Ok? ==> Extracted(s) == Prepend(Kept(BuildQuestion(s[0]).value), Extracted(s[1..]))
  {
  }

  /** One turn of the extraction loop keeps its invariant. */
  lemma LoopStep(whole: Result<seq<Question>>, s: seq<QuestionMatch>, done: seq<Question>)
    requires s != [] && whole == Prepend(done, Extracted(s))
    ensures BuildQuestion(s[0]).Err? ==> whole == Err(BuildQuestion(s[0]).error)
    ensures BuildQuestion(s[0]).Ok? ==> whole == Prepend(done + Kept(BuildQuestion(s[0]).value), Extracted(s[1..]))
  {
    ExtractedStep(s);
    if BuildQuestion(s[0]).Ok? {
      PrependTwice(done, Kept(BuildQuestion(s[0]).value), Extracted(s[1..]));
    }
  }

  /** `extract_questions`, after the language model has answered. */
  method ExtractQuestions(matches: seq<QuestionMatch>) returns (r: Result<seq<Question>>)
    ensures r == Extracted(matches)
  {
    var questions: seq<Question> := [];
    var i := 0;
    assert matches[0..] == matches;
    PrependEmpty(Extracted(matches));
    while i < |matches|
      invariant 0 <= i <= |matches|
      invariant Extracted(matches) == Prepend(questions, Extracted(matches[i..]))
    {
      LoopStep(Extracted(matches), matches[i..], questions);
      assert matches[i..][0] == matches[i] && matches[i..][1..] == matches[i + 1..];
      var built := BuildQuestion(matches[i]);
      if built.Err? {
        return Err(built.error);
      }
      var checked := ValidateTelegramPoll(built.value);
      var question := checked.question;
      if checked.valid {
        questions := questions + [question];
      } else {
        assert questions == questions + [];
      }
      i := i + 1;
    }
    assert matches[i..] == [];
    assert questions + [] == questions;
    return Ok(questions);
  }

  // ---------------------------------------------------------------------
  // Properties of the extraction

  /** Every extracted question fits a Telegram poll and has four options,
      and there are at most as many questions as matches. */
  lemma {:induction false} ExtractedFitPolls(matches: seq<QuestionMatch>)
    requires Extracted(matches).Ok?
    ensures |Extracted(matches).value| <= |matches|
    ensures forall k :: 0 <= k < |Extracted(matches).value| ==>
              FitsPoll(Extracted(matches).value[k]) && |Extracted(matches).value[k].options| == 4
  {
    if matches != [] {
      ExtractedFitPolls(matches[1..]);
      var q := BuildQuestion(matches[0]).value;
      var rest := Extracted(matches[1..]).value;
      assert Extracted(matches).value == Kept(q) + rest;
      ValidateSpec(q);
      BuildQuestionFields(matches[0]);
      assert forall k :: 0 <= k < |Kept(q)| ==> FitsPoll(Kept(q)[k]) && Kept(q)[k].options == q.options;
    }
  }

  /** The extraction fails exactly when some answer is not a substring of
      "abcd". */
  lemma {:induction false} ExtractedFails(matches: seq<QuestionMatch>)
    ensures Extracted(matches).Err? <==> exists k :: 0 <= k < |matches| && AnswerIndex(matches[k].answer).Err?
  {
    if matches != [] {
      ExtractedFails(matches[1..]);
      BuildQuestionFields(matches[0]);
      if AnswerIndex(matches[0].answer).Err? {
        assert Extracted(matches).Err?;
      } else {
        forall k | 1 <= k < |matches| ensures matches[k] == matches[1..][k - 1] {}
      }
    }
  }

  /** The extraction works match by match: the questions of a concatenation
      are those of each part, in order. */
  lemma {:induction false} ExtractedAppend(a: seq<QuestionMatch>, b: seq<QuestionMatch>)
    ensures Extracted(a + b) == (match Extracted(a)
                                 case Err(e) => Err(e)
                                 case Ok(qa) => Prepend(qa, Extracted(b)))
  {
    if a == [] {
      assert a + b == b;
      match Extracted(b)
      case Err(_) =>
      case Ok(qb) => assert [] + qb == qb;
    } else {
      assert (a + b)[0] == a[0];
      assert (a + b)[1..] == a[1..] + b;
      ExtractedAppend(a[1..], b);
      match BuildQuestion(a[0])
      case Err(_) =>
      case Ok(q) =>
        match Extracted(a[1..])
        case Err(_) =>
        case Ok(qa) =>
          match Extracted(b)
          case Err(_) =>
          case Ok(qb) => assert Kept(q) + (qa + qb) == (Kept(q) + qa) + qb;
    }
  }

  /** A single match yields its question, with the explanation stripped and
      cut to 200 characters, exactly when the question passes validation. */
  lemma ExtractedOne(m: QuestionMatch)
    requires BuildQuestion(m).Ok?
    ensures var q := BuildQuestion(m).value;
      Extracted([m]) == Ok(if ValidateTelegramPoll(q).valid
                           then [q.(explanation := Take(Strip(m.explanation), MAX_EXPLANATION_LEN))]
                           else [])
  {
    assert [m][1..] == [];
    ExtractedStep([m]);
    var q := BuildQuestion(m).value;
    BuildQuestionFields(m);
    ValidateSpec(q);
    assert Kept(q) + [] == Kept(q);
    assert Extracted([m]) == Ok(Kept(q));
  }
}
