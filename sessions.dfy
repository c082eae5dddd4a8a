/** The state logic of the bot's handlers on one `LearningSession`, with the
    Telegram calls stripped away: every handler's effect on a session is a
    pure transition on `SessionView`, the session's fields as a value. The
    clock is a parameter (`now`, an integer time stamp). */
module Sessions {
  import opened Py
  import opened Questions
  import opened Keywords

  const KEYWORDS_PER_ROW := 3
  const KEYWORDS_PER_PAGE := 3 * KEYWORDS_PER_ROW
  /** `learn_handler` keeps at most this many characters of a text. */
  const MAX_TEXT_LEN := 1500
  /** The text that marks a vocabulary-quiz session. */
  const VOCAB_QUIZ := "VocabQuiz"
  const LEARN_COMMAND := "/learn"

  /** The fields of a `LearningSession`. `vocabRoots` and `translation` are
      used by the handlers but not declared by the class; they default to
      `[]` and `""`. The question cursor is never negative. */
  datatype SessionView = SessionView(
    sessionId: int,
    chatId: int,
    text: string,
    startTime: int,
    endTime: Option<int>,
    quiz: seq<Question>,
    nextQuestionIdx: nat,
    keywords: seq<Keyword>,
    currentKeywordPage: int,
    vocabRoots: seq<string>,
    translation: string)

  /** A session as the constructor leaves it. */
  function NewSession(sessionId: int, chatId: int, text: string, now: int): SessionView {
    SessionView(sessionId, chatId, text, now, None, [], 0, [], 0, [], "")
  }

  // ---------------------------------------------------------------------
  // `retrieve_text_to_learn`

  /** The text to learn: an explicit non-empty text; else, for a message
      starting with "/learn", the stripped rest of the message when the
      message has more than one word and nothing otherwise; else the raw
      message. */
  function RetrieveTextToLearn(text: Option<string>, message: string): Option<string> {
    if text.Some? && text.value != "" then text
    else if StartsWith(message, LEARN_COMMAND) then
      if |Fields(message)| > 1 then Some(Strip(message[|LEARN_COMMAND|..])) else None
    else Some(message)
  }

  /** A non-empty explicit text is returned as it is. */
  lemma RetrieveExplicit(text: string, message: string)
    requires text != ""
    ensures RetrieveTextToLearn(Some(text), message) == Some(text)
  {
  }

  /** The command is one word. */
  lemma CommandIsWord()
    ensures forall j :: 0 <= j < |LEARN_COMMAND| ==> !IsSpace(LEARN_COMMAND[j])
  {
  }

  /** A bare "/learn", even with trailing whitespace, yields nothing. */
  lemma RetrieveBareLearn(trailing: string)
    requires AllSpace(trailing)
    ensures RetrieveTextToLearn(None, LEARN_COMMAND + trailing) == None
    ensures RetrieveTextToLearn(Some(""), LEARN_COMMAND + trailing) == None
  {
    CommandIsWord();
    PrefixOfConcat(LEARN_COMMAND, trailing);
    FieldsOfWord(LEARN_COMMAND, trailing);
  }

  /** "/learn <text>" yields the text, stripped, and that is never empty. */
  lemma RetrieveLearnArgument(gap: string, text: string)
    requires gap != [] && AllSpace(gap) && HasNonSpace(text)
    ensures RetrieveTextToLearn(None, LEARN_COMMAND + gap + text) == Some(Strip(text))
    ensures Strip(text) != ""
  {
    var m := LEARN_COMMAND + (gap + text);
    assert LEARN_COMMAND + gap + text == m;
    CommandWithArgument(gap, text);
    assert RetrieveTextToLearn(None, m) == Some(Strip(gap + text));
    StripSpaceAround(gap, text);
    StripNonEmpty(text);
  }

  /** "/learn" followed by whitespace and a visible character has at least
      two words, and what follows the command is the rest of the message. */
  lemma CommandWithArgument(gap: string, text: string)
    requires gap != [] && AllSpace(gap) && HasNonSpace(text)
    ensures var m := LEARN_COMMAND + (gap + text);
      StartsWith(m, LEARN_COMMAND) && |Fields(m)| > 1 && m[|LEARN_COMMAND|..] == gap + text
  {
    var rest := gap + text;
    CommandIsWord();
    PrefixOfConcat(LEARN_COMMAND, rest);
    assert IsSpace(rest[0]);
    FieldsAfterWord(LEARN_COMMAND, rest);
    var j :| 0 <= j < |text| && !IsSpace(text[j]);
    assert rest[|gap| + j] == text[j];
  }

  /** A message that does not start with "/learn" is the text itself. */
  lemma RetrieveOther(message: string)
    requires !StartsWith(message, LEARN_COMMAND)
    ensures RetrieveTextToLearn(None, message) == Some(message)
    ensures RetrieveTextToLearn(Some(""), message) == Some(message)
  {
  }

  /** Whatever follows "/learn" is kept only when something visible does, so
      a "/learn" message never yields an empty text. */
  lemma RetrieveLearnNeverEmpty(text: Option<string>, message: string)
    requires StartsWith(message, LEARN_COMMAND)
    requires text.None? || text.value == ""
    ensures var r := RetrieveTextToLearn(text, message); r.Some? ==> r.value != ""
  {
    if |Fields(message)| > 1 {
      LearnCommandRest(message);
    }
  }

  /** A message with a word after "/learn" has something visible after it. */
  lemma LearnCommandRest(message: string)
    requires StartsWith(message, LEARN_COMMAND) && |Fields(message)| > 1
    ensures Strip(message[|LEARN_COMMAND|..]) != ""
  {
    var n := |LEARN_COMMAND|;
    CommandIsWord();
    StartsWithWord(message, LEARN_COMMAND);
    SecondField(message, n);
    StripNonEmpty(message[n..]);
  }

  // ---------------------------------------------------------------------
  // `remove_introducing_paragraph`

  const PARAGRAPH_BREAK := "\n\n"

  /** Drops the first "\n\n"-separated paragraph when it ends with ':' and
      joins the paragraphs back together. */
  function RemoveIntroducingParagraph(s: string): string {
    var paragraphs := SplitOn(s, PARAGRAPH_BREAK);
    var kept := if EndsWith(paragraphs[0], ":") then paragraphs[1..] else paragraphs;
    Join(PARAGRAPH_BREAK, kept)
  }

  /** A first paragraph not ending with ':' leaves the text as it is; one
      that does is removed together with the break after it (all of a
      one-paragraph text), and the rest of the text is kept unchanged. */
  lemma RemoveIntroducingParagraphSpec(s: string)
    ensures var first := SplitOn(s, PARAGRAPH_BREAK)[0];
      var r := RemoveIntroducingParagraph(s);
      && Find(first, PARAGRAPH_BREAK).None?
      && (!EndsWith(first, ":") ==> r == s)
      && (EndsWith(first, ":") && Find(s, PARAGRAPH_BREAK).None? ==> r == "" && s == first)
      && (EndsWith(first, ":") && Find(s, PARAGRAPH_BREAK).Some? ==> s == first + PARAGRAPH_BREAK + r)
  {
    var ps := SplitOn(s, PARAGRAPH_BREAK);
    SplitOnPieces(s, PARAGRAPH_BREAK);
    assert ps[0] in ps;
    JoinSplitOn(s, PARAGRAPH_BREAK);
    match Find(s, PARAGRAPH_BREAK)
    case None =>
    case Some(i) =>
      var rest := s[i + |PARAGRAPH_BREAK|..];
      assert ps == [s[..i]] + SplitOn(rest, PARAGRAPH_BREAK);
      assert ps[1..] == SplitOn(rest, PARAGRAPH_BREAK);
      JoinSplitOn(rest, PARAGRAPH_BREAK);
      assert s[i..i + |PARAGRAPH_BREAK|] == PARAGRAPH_BREAK;
      assert s == s[..i] + s[i..i + |PARAGRAPH_BREAK|] + rest;
  }

  /** The introduction the language model writes before a story: a line
      ending with ':' and a blank line are dropped, the story is kept. */
  lemma RemoveIntroduction(intro: string, story: string)
    requires Find(intro, PARAGRAPH_BREAK).None? && EndsWith(intro, ":")
    ensures RemoveIntroducingParagraph(intro + PARAGRAPH_BREAK + story) == story
  {
    var s := intro + PARAGRAPH_BREAK + story;
    var i := |intro|;
    assert OccursAt(s, PARAGRAPH_BREAK, i) by {
      assert s[i..i + 2] == PARAGRAPH_BREAK;
    }
    forall j | 0 <= j < i ensures !OccursAt(s, PARAGRAPH_BREAK, j) {
      if j + 2 <= i {
        assert s[j..j + 2] == intro[j..j + 2];
        assert !OccursAt(intro, PARAGRAPH_BREAK, j);
      } else {
        assert s[i - 1] == intro[i - 1] == ':';
        assert s[j..j + 2][0] == s[i - 1];
      }
    }
    assert Find(s, PARAGRAPH_BREAK) == Some(i);
    assert s[..i] == intro;
    assert s[i + 2..] == story;
    assert SplitOn(s, PARAGRAPH_BREAK) == [intro] + SplitOn(story, PARAGRAPH_BREAK);
    JoinSplitOn(story, PARAGRAPH_BREAK);
  }

  // ---------------------------------------------------------------------
  // Sessions are created (`learn_handler`)

  /** The session `learn_handler` appends for the `count`-th session of a
      profile: its id is `count` and it keeps the first 1500 characters of
      the text. */
  function LearnSession(count: nat, chatId: int, text: string, now: int): SessionView {
    NewSession(count, chatId, Take(text, MAX_TEXT_LEN), now)
  }

  /** A new session has its place as id, at most 1500 characters of the
      text, a prefix of it, and nothing asked, answered or paged yet. */
  lemma LearnSessionSpec(count: nat, chatId: int, text: string, now: int)
    ensures var s := LearnSession(count, chatId, text, now);
      && s.sessionId == count
      && |s.text| <= MAX_TEXT_LEN && s.text <= text
      && (|text| <= MAX_TEXT_LEN ==> s.text == text)
      && s.quiz == [] && s.nextQuestionIdx == 0 && s.currentKeywordPage == 0
      && s.endTime.None? && s.startTime == now
  {
  }

  // ---------------------------------------------------------------------
  // The keyword keyboard (`create_keywords_keyboard`)

  /** The last page: Python's floor division `(len - 1) // 9`, which Dafny's
      division by a positive divisor agrees with; -1 when there are no
      keywords. */
  function MaxPage(count: nat): int {
    (count - 1) / KEYWORDS_PER_PAGE
  }

  /** Every keyword lies on a page from 0 to the last one, and the last page
      holds at least one keyword. */
  lemma MaxPageSpec(count: nat)
    ensures count == 0 ==> MaxPage(count) == -1
    ensures count > 0 ==> 0 <= MaxPage(count) && MaxPage(count) * KEYWORDS_PER_PAGE < count <= MaxPage(count) * KEYWORDS_PER_PAGE + KEYWORDS_PER_PAGE
  {
  }

  /** The words of the session's keywords, in order. */
  function Words(keywords: seq<Keyword>): (ws: seq<string>)
    ensures |ws| == |keywords| && forall i :: 0 <= i < |keywords| ==> ws[i] == keywords[i].word
  {
    seq(|keywords|, i requires 0 <= i < |keywords| => keywords[i].word)
  }

  /** The words shown on the current keyboard page: the slice of nine that
      starts at page × 9, shorter on the last page. */
  function PageWords(s: SessionView): seq<string> {
    var start := s.currentKeywordPage * KEYWORDS_PER_PAGE;
    Slice(Words(s.keywords), start, start + KEYWORDS_PER_PAGE)
  }

  /** Row `i` of a page, `page[3 * i:3 * i + 3]`. */
  function Row(page: seq<string>, i: nat): (r: seq<string>)
    requires i * KEYWORDS_PER_ROW < |page|
    ensures r == page[i * 3..if i * 3 + 3 <= |page| then i * 3 + 3 else |page|]
  {
    Slice(page, i * KEYWORDS_PER_ROW, i * KEYWORDS_PER_ROW + KEYWORDS_PER_ROW)
  }

  /** The page's words in rows of three: row `i` for i = 0, 3, 6. */
  function Rows(page: seq<string>): (rows: seq<seq<string>>)
    ensures |rows| == (|page| + KEYWORDS_PER_ROW - 1) / KEYWORDS_PER_ROW
  {
    seq((|page| + KEYWORDS_PER_ROW - 1) / KEYWORDS_PER_ROW,
        i requires 0 <= i < (|page| + KEYWORDS_PER_ROW - 1) / KEYWORDS_PER_ROW => Row(page, i))
  }

  /** The keyword buttons of the keyboard, row by row (the "<<" and ">>"
      navigation row follows them). */
  function KeywordRows(s: SessionView): seq<seq<string>> {
    Rows(PageWords(s))
  }

  /** The rows read one after the other. */
  function Concat(rows: seq<seq<string>>): seq<string> {
    if rows == [] then [] else rows[0] + Concat(rows[1..])
  }

  /** The rows, read in order, are the page; every row has one to three
      words, and only the last may have fewer than three. */
  lemma {:induction false} RowsSpec(page: seq<string>)
    ensures Concat(Rows(page)) == page
    ensures forall i :: 0 <= i < |Rows(page)| ==> 1 <= |Rows(page)[i]| <= KEYWORDS_PER_ROW
    ensures forall i :: 0 <= i < |Rows(page)| - 1 ==> |Rows(page)[i]| == KEYWORDS_PER_ROW
    decreases |page|
  {
    var rows := Rows(page);
    if |page| > KEYWORDS_PER_ROW {
      RowsSpec(page[3..]);
      RowsTail(page);
      assert rows[1..] == Rows(page[3..]);
      assert page == page[..3] + page[3..];
    } else if page != [] {
      assert |rows| == 1;
      assert rows[0] == page[0..|page|] == page;
      assert rows[1..] == [];
    }
  }

  /** Past the first row, the rows are those of the rest of the page. */
  lemma RowsTail(page: seq<string>)
    requires |page| > KEYWORDS_PER_ROW
    ensures Rows(page) == [page[..3]] + Rows(page[3..])
  {
    var rows := Rows(page);
    var tail := Rows(page[3..]);
    assert |rows| == |tail| + 1;
    assert rows[0] == page[..3];
    forall i | 0 <= i < |tail| ensures rows[i + 1] == tail[i] {
      RowShift(page, i);
    }
    assert rows == [page[..3]] + tail;
  }

  lemma RowShift(page: seq<string>, i: nat)
    requires |page| > KEYWORDS_PER_ROW && i * 3 < |page| - 3
    ensures Row(page, i + 1) == Row(page[3..], i)
  {
    var t := page[3..];
    var b := if i * 3 + 3 <= |t| then i * 3 + 3 else |t|;
    assert (i + 1) * 3 == i * 3 + 3;
    assert t[i * 3..b] == page[i * 3 + 3..b + 3];
  }

  /** On a page from 0 to the last, the keyboard shows the words at
      positions `page * 9` up to `page * 9 + 9`, and at least one. */
  lemma PageWordsSpec(s: SessionView)
    requires 0 <= s.currentKeywordPage <= MaxPage(|s.keywords|)
    ensures var start := s.currentKeywordPage * KEYWORDS_PER_PAGE;
      var end := if start + KEYWORDS_PER_PAGE <= |s.keywords| then start + KEYWORDS_PER_PAGE else |s.keywords|;
      && 1 <= |PageWords(s)| <= KEYWORDS_PER_PAGE
      && PageWords(s) == Words(s.keywords)[start..end]
  {
    MaxPageSpec(|s.keywords|);
  }

  // ---------------------------------------------------------------------
  // Paging (`keywords_on_click_handler`, "prev_page" and "next_page")

  /** "prev_page": nothing at page 0 or before, one page back otherwise. */
  function PrevPage(s: SessionView): SessionView {
    if s.currentKeywordPage <= 0 then s
    else s.(currentKeywordPage := Max(0, s.currentKeywordPage - 1))
  }

  /** "next_page": nothing on the last page or after, one page on
      otherwise. */
  function NextPage(s: SessionView): SessionView {
    var maxPage := MaxPage(|s.keywords|);
    if s.currentKeywordPage >= maxPage then s
    else s.(currentKeywordPage := Min(maxPage, s.currentKeywordPage + 1))
  }

  function Max(a: int, b: int): int { if a >= b then a else b }
  function Min(a: int, b: int): int { if a <= b then a else b }

  /** The page is the first one or an existing one. */
  predicate PageInRange(s: SessionView) {
    s.currentKeywordPage == 0 || 0 <= s.currentKeywordPage <= MaxPage(|s.keywords|)
  }

  /** Paging back moves by exactly one page, and not past the first; only
      the page changes. */
  lemma PrevPageSpec(s: SessionView)
    ensures var r := PrevPage(s);
      && (s.currentKeywordPage <= 0 ==> r == s)
      && (s.currentKeywordPage > 0 ==> r == s.(currentKeywordPage := s.currentKeywordPage - 1))
      && (PageInRange(s) ==> PageInRange(r))
  {
  }

  /** Paging on moves by exactly one page, and not past the last; only the
      page changes. */
  lemma NextPageSpec(s: SessionView)
    ensures var r := NextPage(s);
      && (s.currentKeywordPage >= MaxPage(|s.keywords|) ==> r == s)
      && (s.currentKeywordPage < MaxPage(|s.keywords|) ==> r == s.(currentKeywordPage := s.currentKeywordPage + 1))
      && (PageInRange(s) ==> PageInRange(r))
  {
  }

  // ---------------------------------------------------------------------
  // The quiz cursor (`ask_question_handler`)

  /** The question the handler sends as a poll: the one under the cursor,
      or none once the quiz is over (the summary is sent instead). */
  function Asked(s: SessionView): Option<Question> {
    if s.nextQuestionIdx >= |s.quiz| then None else Some(s.quiz[s.nextQuestionIdx])
  }

  /** The session after `ask_question_handler`. */
  function AfterAsk(s: SessionView): SessionView {
    if s.nextQuestionIdx >= |s.quiz| then s else s.(nextQuestionIdx := s.nextQuestionIdx + 1)
  }

  /** The cursor moves by exactly one while questions remain, and a question
      is asked exactly then; at the end nothing changes. The cursor never
      passes the end of the quiz. */
  lemma AfterAskSpec(s: SessionView)
    ensures var r := AfterAsk(s);
      && (s.nextQuestionIdx < |s.quiz| ==> r == s.(nextQuestionIdx := s.nextQuestionIdx + 1))
      && (s.nextQuestionIdx >= |s.quiz| ==> r == s)
      && (Asked(s).Some? <==> r.nextQuestionIdx == s.nextQuestionIdx + 1)
      && (Asked(s).Some? ==> Asked(s).value == s.quiz[r.nextQuestionIdx - 1])
      && (s.nextQuestionIdx <= |s.quiz| ==> r.nextQuestionIdx <= |r.quiz|)
  {
  }

  /** Asking over and over walks through the quiz in order: after `k` asks
      from the start the cursor is at `min(k, |quiz|)`. */
  function AskTimes(s: SessionView, k: nat): SessionView
    decreases k
  {
    if k == 0 then s else AskTimes(AfterAsk(s), k - 1)
  }

  lemma {:induction false} AskTimesSpec(s: SessionView, k: nat)
    requires s.nextQuestionIdx <= |s.quiz|
    decreases k
    ensures var r := AskTimes(s, k);
      && r.nextQuestionIdx == Min(s.nextQuestionIdx + k, |s.quiz|)
      && r == s.(nextQuestionIdx := r.nextQuestionIdx)
  {
    if k > 0 {
      AskTimesSpec(AfterAsk(s), k - 1);
    }
  }

  // ---------------------------------------------------------------------
  // Answers (`ask_question_on_answer_handler`)

  /** The answered question is `quiz[next_question_idx - 1]` (with Python's
      negative indexing: before any question was asked, the last one). */
  function AnsweredIndex(s: SessionView): Option<nat> {
    Index(|s.quiz|, s.nextQuestionIdx - 1)
  }

  /** The quiz after the poll answer `optionIds` at `now`: the first chosen
      option and the time are recorded on the answered question. The index
      and the empty option list raise `IndexError`. */
  function Answered(s: SessionView, optionIds: seq<int>, now: int): Result<SessionView> {
    match AnsweredIndex(s)
    case None => Err(IndexError)
    case Some(i) =>
      if optionIds == [] then Err(IndexError)
      else Ok(s.(quiz := s.quiz[i := s.quiz[i].(answerTime := Some(now), answerIdx := Some(optionIds[0]))]))
  }

  /** The vocabulary root a "VocabQuiz" answer gives feedback to,
      `vocab_roots[next_question_idx - 1]`; none for other sessions. */
  function FeedbackRoot(s: SessionView): Result<Option<string>> {
    if s.text != VOCAB_QUIZ then Ok(None)
    else
      match Index(|s.vocabRoots|, s.nextQuestionIdx - 1)
      case None => Err(IndexError)
      case Some(j) => Ok(Some(s.vocabRoots[j]))
  }

  /** Answering after a question was asked changes only the question under
      the cursor, and of it only the answer and its time; the answer is
      correct exactly when the chosen option is the correct one, and the
      correct count moves accordingly. */
  lemma AnsweredSpec(s: SessionView, optionIds: seq<int>, now: int)
    requires 1 <= s.nextQuestionIdx <= |s.quiz|
    ensures Answered(s, optionIds, now).Err? <==> optionIds == []
    ensures optionIds != [] ==>
      var r := Answered(s, optionIds, now).value;
      var i := s.nextQuestionIdx - 1;
      && r == s.(quiz := r.quiz)
      && |r.quiz| == |s.quiz|
      && (forall k :: 0 <= k < |s.quiz| && k != i ==> r.quiz[k] == s.quiz[k])
      && r.quiz[i] == s.quiz[i].(answerTime := Some(now), answerIdx := Some(optionIds[0]))
      && (IsCorrect(r.quiz[i]) <==> optionIds[0] == s.quiz[i].correctIdx)
      && CorrectCount(r.quiz) == CorrectCount(s.quiz) - (if IsCorrect(s.quiz[i]) then 1 else 0)
                                 + (if optionIds[0] == s.quiz[i].correctIdx then 1 else 0)
  {
    if optionIds != [] {
      var i := s.nextQuestionIdx - 1;
      CorrectCountUpdate(s.quiz, i, s.quiz[i].(answerTime := Some(now), answerIdx := Some(optionIds[0])));
    }
  }

  /** Before any question was asked, an answer lands on the last question,
      and on an empty quiz it raises. */
  lemma AnsweredBeforeAsking(s: SessionView, optionIds: seq<int>, now: int)
    requires s.nextQuestionIdx == 0
    ensures s.quiz == [] ==> Answered(s, optionIds, now) == Err(IndexError)
    ensures s.quiz != [] ==> AnsweredIndex(s) == Some(|s.quiz| - 1)
  {
  }

  /** In a vocabulary quiz whose roots line up with its questions, the
      answered question and the root fed back are the ones at the same
      position. */
  lemma FeedbackRootAligned(s: SessionView)
    requires s.text == VOCAB_QUIZ && |s.vocabRoots| == |s.quiz| && 1 <= s.nextQuestionIdx <= |s.quiz|
    ensures AnsweredIndex(s) == Some(s.nextQuestionIdx - 1)
    ensures FeedbackRoot(s) == Ok(Some(s.vocabRoots[s.nextQuestionIdx - 1]))
  {
  }

  // ---------------------------------------------------------------------
  // More questions, stopping, translating

  /** The session with the new questions appended after its quiz. */
  function WithMoreQuestions(s: SessionView, questions: seq<Question>): SessionView {
    s.(quiz := s.quiz + questions)
  }

  /** New questions go after the old ones, which keep their answers, and
      the cursor stays: the next question asked is the first new one when
      the old ones were all asked. */
  lemma WithMoreQuestionsSpec(s: SessionView, questions: seq<Question>)
    ensures var r := WithMoreQuestions(s, questions);
      && r.quiz[..|s.quiz|] == s.quiz && r.quiz[|s.quiz|..] == questions
      && r.nextQuestionIdx == s.nextQuestionIdx
      && CorrectCount(r.quiz) == CorrectCount(s.quiz) + CorrectCount(questions)
      && (s.nextQuestionIdx == |s.quiz| && questions != [] ==> Asked(r) == Some(questions[0]))
  {
    var r := WithMoreQuestions(s, questions);
    assert r.quiz[..|s.quiz|] == s.quiz && r.quiz[|s.quiz|..] == questions;
    CorrectCountAppend(s.quiz, questions);
  }

  /** Extending a vocabulary quiz does not extend its roots: once new
      questions arrive, its questions and roots no longer line up, and a
      later answer finds no root for its question. */
  lemma MoreQuestionsBreakAlignment(s: SessionView, questions: seq<Question>)
    requires |s.vocabRoots| == |s.quiz| && questions != []
    ensures var r := WithMoreQuestions(s, questions);
      && |r.vocabRoots| < |r.quiz|
      && (r.text == VOCAB_QUIZ && r.nextQuestionIdx == |s.quiz| + 1 ==> FeedbackRoot(r) == Err(IndexError))
  {
  }

  /** `stop_learn_handler` records the end time; nothing else changes. */
  function Stopped(s: SessionView, now: int): SessionView {
    s.(endTime := Some(now))
  }

  /** `translate_handler` on the text of the running session: a translation
      already made is reused, otherwise the new one is made and kept. */
  function Translated(s: SessionView, translate: string -> string): (SessionView, string) {
    if s.translation != "" then (s, s.translation)
    else
      var t := translate(s.text);
      (s.(translation := t), t)
  }

  /** A translation is made at most once: translating again returns the
      kept one and changes nothing, and only the translation changes. */
  lemma TranslatedSpec(s: SessionView, translate: string -> string, other: string -> string)
    ensures var (r, t) := Translated(s, translate);
      && r == s.(translation := r.translation)
      && (s.translation != "" ==> r == s && t == s.translation)
      && (s.translation == "" ==> t == translate(s.text) && r.translation == t)
      && (t != "" ==> Translated(r, other) == (r, t))
  {
  }
}
