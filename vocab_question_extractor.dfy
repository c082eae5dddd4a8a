/** The post-parse half of `VocabQuestionExtractor.extract_questions`: each
    match of the language model's output names the vocabulary root it asks
    about and carries a question built as in `QuestionExtractor`; questions
    that fail Telegram's poll limits, and questions about a root that is not
    in the vocabulary list (compared case-insensitively), are dropped. Each
    match arrives as its eight captured groups; the vocabulary list arrives
    as the roots of its `Vocab` objects, in list order. */
module VocabQuestionExtractor {
  import opened Py
  import opened Questions
  import QuestionExtractor

  /** The groups `input, text, a, b, c, d, ans, expl` of one match. */
  datatype VocabQuestionMatch = VocabQuestionMatch(
    input: string, text: string, a: string, b: string, c: string, d: string,
    answer: string, explanation: string)

  /** The seven groups the question itself is built from. */
  function QuestionGroups(m: VocabQuestionMatch): QuestionExtractor.QuestionMatch {
    QuestionExtractor.QuestionMatch(m.text, m.a, m.b, m.c, m.d, m.answer, m.explanation)
  }

  /** `next((vocab for vocab in vocabs if vocab.root.lower() ==
      root.lower()), None)`, as the position of that vocab: the first root
      equal to `root` up to case, or `None` when there is none. */
  function FirstRootMatch(roots: seq<string>, root: string): (r: Option<nat>)
    ensures r.Some? ==> r.value < |roots|
  {
    FirstWhere(roots, (v: string) => Lower(v) == Lower(root))
  }

  /** The match found is a root equal to `root` up to case, and no earlier
      root is; when none is found, no root is. */
  lemma FirstRootMatchSpec(roots: seq<string>, root: string)
    ensures var r := FirstRootMatch(roots, root);
      && (r.Some? ==> r.value < |roots| && Lower(roots[r.value]) == Lower(root))
      && (r.Some? ==> forall j :: 0 <= j < r.value ==> Lower(roots[j]) != Lower(root))
      && (r.None? ==> forall j :: 0 <= j < |roots| ==> Lower(roots[j]) != Lower(root))
  {
    FirstWhereSpec(roots, (v: string) => Lower(v) == Lower(root));
  }

  /** What one match contributes: the first answer that is not a
      substring of "abcd" raises; a question failing validation, or one whose root matches no
      vocabulary, contributes nothing; otherwise the pair of the matched
      vocabulary's own root and the validated question. */
  function Paired(m: VocabQuestionMatch, roots: seq<string>): Result<seq<(string, Question)>> {
    match QuestionExtractor.BuildQuestion(QuestionGroups(m))
    case Err(e) => Err(e)
    case Ok(q) =>
      var c := ValidateTelegramPoll(q);
      if !c.valid then Ok([])
      else
        match FirstRootMatch(roots, m.input)
        case None => Ok([])
        case Some(i) => Ok([(roots[i], c.question)])
  }

  /** The pairs of a list of matches, in match order. */
  function VocabExtracted(matches: seq<VocabQuestionMatch>, roots: seq<string>): Result<seq<(string, Question)>> {
    if matches == [] then Ok([])
    else
      match Paired(matches[0], roots)
      case Err(e) => Err(e)
      case Ok(p) => Prepend(p, VocabExtracted(matches[1..], roots))
  }

  /** One turn of the extraction loop keeps its invariant. */
  lemma LoopStep(whole: Result<seq<(string, Question)>>, s: seq<VocabQuestionMatch>, roots: seq<string>,
                 done: seq<(string, Question)>)
    requires s != [] && whole == Prepend(done, VocabExtracted(s, roots))
    ensures Paired(s[0], roots).Err? ==> whole == Err(Paired(s[0], roots).error)
    ensures Paired(s[0], roots).Ok? ==>
      whole == Prepend(done + Paired(s[0], roots).value, VocabExtracted(s[1..], roots))
  {
    if Paired(s[0], roots).Ok? {
      PrependTwice(done, Paired(s[0], roots).value, VocabExtracted(s[1..], roots));
    }
  }

  /** `extract_questions`, after the language model has answered. */
  method ExtractVocabQuestions(roots: seq<string>, matches: seq<VocabQuestionMatch>)
    returns (r: Result<seq<(string, Question)>>)
    ensures r == VocabExtracted(matches, roots)
  {
    var questions: seq<(string, Question)> := [];
    var i := 0;
    assert matches[0..] == matches;
    PrependEmpty(VocabExtracted(matches, roots));
    while i < |matches|
      invariant 0 <= i <= |matches|
      invariant VocabExtracted(matches, roots) == Prepend(questions, VocabExtracted(matches[i..], roots))
    {
      var m := matches[i];
      LoopStep(VocabExtracted(matches, roots), matches[i..], roots, questions);
      assert matches[i..][0] == m && matches[i..][1..] == matches[i + 1..];
      var built := QuestionExtractor.BuildQuestion(QuestionGroups(m));
      if built.Err? {
        return Err(built.error);
      }
      var checked := ValidateTelegramPoll(built.value);
      if !checked.valid {
        assert questions == questions + [];
        i := i + 1;
        continue;
      }
      var matched := FirstRootMatch(roots, m.input);
      FirstRootMatchSpec(roots, m.input);
      if matched.Some? {
        questions := questions + [(roots[matched.value], checked.question)];
      } else {
        assert questions == questions + [];
      }
      i := i + 1;
    }
    assert matches[i..] == [];
    assert questions + [] == questions;
    return Ok(questions);
  }

  // ---------------------------------------------------------------------
  // Properties of the extraction

  /** Every returned pair names a root of the vocabulary list (in its own
      spelling) and a question that fits a poll, with four options; there
      are at most as many pairs as matches. */
  lemma {:induction false} VocabExtractedSound(matches: seq<VocabQuestionMatch>, roots: seq<string>)
    requires VocabExtracted(matches, roots).Ok?
    ensures var ps := VocabExtracted(matches, roots).value;
      && |ps| <= |matches|
      && forall k :: 0 <= k < |ps| ==> ps[k].0 in roots && FitsPoll(ps[k].1) && |ps[k].1.options| == 4
  {
    if matches != [] {
      VocabExtractedSound(matches[1..], roots);
      var m := matches[0];
      var q := QuestionExtractor.BuildQuestion(QuestionGroups(m)).value;
      QuestionExtractor.BuildQuestionFields(QuestionGroups(m));
      ValidateSpec(q);
      FirstRootMatchSpec(roots, m.input);
      var p := Paired(m, roots).value;
      var rest := VocabExtracted(matches[1..], roots).value;
      assert VocabExtracted(matches, roots).value == p + rest;
      assert |p| <= 1;
      assert forall k :: 0 <= k < |p| ==> p[k].0 in roots && FitsPoll(p[k].1) && |p[k].1.options| == 4;
    }
  }

  /** The extraction fails exactly when some answer is not a substring of
      "abcd". */
  lemma {:induction false} VocabExtractedFails(matches: seq<VocabQuestionMatch>, roots: seq<string>)
    ensures VocabExtracted(matches, roots).Err? <==>
      exists k :: 0 <= k < |matches| && QuestionExtractor.AnswerIndex(matches[k].answer).Err?
  {
    if matches != [] {
      VocabExtractedFails(matches[1..], roots);
      PairedFails(matches[0], roots);
      if QuestionExtractor.AnswerIndex(matches[0].answer).Err? {
        assert VocabExtracted(matches, roots).Err?;
      } else {
        forall k | 1 <= k < |matches| ensures matches[k] == matches[1..][k - 1] {}
      }
    }
  }

  lemma PairedFails(m: VocabQuestionMatch, roots: seq<string>)
    ensures Paired(m, roots).Err? <==> QuestionExtractor.AnswerIndex(m.answer).Err?
  {
    QuestionExtractor.BuildQuestionFields(QuestionGroups(m));
  }

  /** A single match whose answer is a substring of "abcd": it yields nothing when its
      question fails validation or its root matches no vocabulary, and
      otherwise the first case-insensitively equal root of the list, in the
      list's spelling, with the validated question. */
  lemma VocabExtractedOne(m: VocabQuestionMatch, roots: seq<string>)
    requires QuestionExtractor.BuildQuestion(QuestionGroups(m)).Ok?
    ensures var q := QuestionExtractor.BuildQuestion(QuestionGroups(m)).value;
      var c := ValidateTelegramPoll(q);
      var found := FirstRootMatch(roots, m.input);
      VocabExtracted([m], roots) == Ok(if c.valid && found.Some? then [(roots[found.value], c.question)] else [])
  {
    assert [m][0] == m && [m][1..] == [];
    var p := Paired(m, roots).value;
    assert p + [] == p;
  }

  /** The questions of a list of pairs. */
  function QuestionsOf(ps: seq<(string, Question)>): (qs: seq<Question>)
    ensures |qs| == |ps| && forall k :: 0 <= k < |ps| ==> qs[k] == ps[k].1
  {
    seq(|ps|, k requires 0 <= k < |ps| => ps[k].1)
  }

  lemma QuestionsOfAppend(a: seq<(string, Question)>, b: seq<(string, Question)>)
    ensures QuestionsOf(a + b) == QuestionsOf(a) + QuestionsOf(b)
  {
    assert forall k :: 0 <= k < |a + b| ==> QuestionsOf(a + b)[k] == (QuestionsOf(a) + QuestionsOf(b))[k];
  }

  /** The question groups of a list of matches. */
  function AllGroups(matches: seq<VocabQuestionMatch>): (gs: seq<QuestionExtractor.QuestionMatch>)
    ensures |gs| == |matches| && forall k :: 0 <= k < |matches| ==> gs[k] == QuestionGroups(matches[k])
  {
    seq(|matches|, k requires 0 <= k < |matches| => QuestionGroups(matches[k]))
  }

  /** For a match whose root is in the list, the questions it contributes
      are those the plain question extraction keeps. */
  lemma PairedKept(m: VocabQuestionMatch, roots: seq<string>)
    requires FirstRootMatch(roots, m.input).Some?
    ensures Paired(m, roots).Err? <==> QuestionExtractor.BuildQuestion(QuestionGroups(m)).Err?
    ensures Paired(m, roots).Ok? ==>
      QuestionsOf(Paired(m, roots).value) == QuestionExtractor.Kept(QuestionExtractor.BuildQuestion(QuestionGroups(m)).value)
  {
  }

  /** When every match names a root of the list, the vocabulary extraction
      yields exactly the questions the plain question extraction yields from
      the same groups, in the same order (and fails exactly when it does). */
  lemma {:induction false} AllRootsMatched(matches: seq<VocabQuestionMatch>, roots: seq<string>)
    requires forall k :: 0 <= k < |matches| ==> FirstRootMatch(roots, matches[k].input).Some?
    ensures VocabExtracted(matches, roots).Err? <==> QuestionExtractor.Extracted(AllGroups(matches)).Err?
    ensures VocabExtracted(matches, roots).Ok? ==>
      QuestionsOf(VocabExtracted(matches, roots).value) == QuestionExtractor.Extracted(AllGroups(matches)).value
  {
    var gs := AllGroups(matches);
    if matches == [] {
      assert gs == [];
    } else {
      var m := matches[0];
      assert gs[0] == QuestionGroups(m) && gs[1..] == AllGroups(matches[1..]);
      assert forall k :: 0 <= k < |matches[1..]| ==> matches[1..][k] == matches[k + 1];
      AllRootsMatched(matches[1..], roots);
      QuestionExtractor.ExtractedStep(gs);
      PairedKept(m, roots);
      if Paired(m, roots).Ok? && VocabExtracted(matches[1..], roots).Ok? {
        var p := Paired(m, roots).value;
        var rest := VocabExtracted(matches[1..], roots).value;
        assert VocabExtracted(matches, roots).value == p + rest;
        QuestionsOfAppend(p, rest);
      }
    }
  }
}
