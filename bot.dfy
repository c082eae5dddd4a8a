/** The bot's handlers on a user profile, with the Telegram calls stripped
    away. A profile owns its sessions, the last of which is the running
    one, and its vocabulary store; each handler changes the running session
    in place and its `ensures` ties the new state of the session to the
    pure transition of module `Sessions` and the new store to the value
    functions of `Vocabulary` and `VocabQuizzes`. What the language model
    returns, the clock (`now`, `today`) and the random draws are
    parameters. A handler that raises (an index out of range, an empty
    profile) returns `Err` and changes nothing: the profile is then never
    saved. */
module Bot {
  import opened Py
  import opened Questions
  import opened Keywords
  import opened Scheduler
  import opened Vocabulary
  import opened Sessions
  import opened VocabQuizzes
  import opened VocabQuestionExtractor

  /** `LearningSession`, with the two fields the handlers use but the class
      does not declare (`vocab_roots`, `translation`). */
  class LearningSession {
    const sessionId: int
    const chatId: int
    const text: string
    const startTime: int
    var endTime: Option<int>
    var quiz: seq<Question>
    var nextQuestionIdx: nat
    var keywords: seq<Keyword>
    var currentKeywordPage: int
    var vocabRoots: seq<string>
    var translation: string

    function View(): SessionView
      reads this
    {
      SessionView(sessionId, chatId, text, startTime, endTime, quiz, nextQuestionIdx,
                  keywords, currentKeywordPage, vocabRoots, translation)
    }

    constructor (sessionId: int, chatId: int, text: string, now: int)
      ensures View() == NewSession(sessionId, chatId, text, now)
    {
      this.sessionId := sessionId;
      this.chatId := chatId;
      this.text := text;
      startTime := now;
      endTime := None;
      quiz := [];
      nextQuestionIdx := 0;
      keywords := [];
      currentKeywordPage := 0;
      vocabRoots := [];
      translation := "";
    }
  }

  /** `UserProfile`: the sessions in creation order and the store. */
  class UserProfile {
    const userId: int
    var sessions: seq<LearningSession>
    const vocabs: Vocabs

    constructor (userId: int)
      ensures this.userId == userId && sessions == []
      ensures fresh(vocabs) && vocabs.Valid() && vocabs.model == map[] && vocabs.order == []
    {
      this.userId := userId;
      sessions := [];
      vocabs := new Vocabs();
    }

    /** The running session: the last one in the list. */
    function Current(): LearningSession
      reads this
      requires sessions != []
    {
      sessions[|sessions| - 1]
    }

    /** What a handler on the running session may change. */
    function CurrentFrame(): set<object>
      reads this
    {
      if sessions == [] then {} else {Current()}
    }
  }

  // ---------------------------------------------------------------------
  // Replies

  /** What the handlers answer: a request for a text, a quiz poll, or the
      quiz summary (`summary_quiz`'s correct count out of the quiz's length,
      followed by the prompt for more practice, which names /vocabs after a
      vocabulary quiz). */
  datatype Reply = AskForText | Poll(question: Question) | QuizSummary(correct: nat, total: nat, vocabQuiz: bool)

  /** What `keywords_on_click_handler` answers: nothing, a new keyboard, a
      keyword's summary over the keyboard, or "Keyword not found.". */
  datatype ClickReply = Unchanged | Keyboard(rows: seq<seq<string>>) | Shown(summary: string, rows: seq<seq<string>>) | NotFound

  /** The reply of `ask_question_handler` for a session. */
  function AskReply(s: SessionView): Reply {
    match Asked(s)
    case Some(q) => Poll(q)
    case None => QuizSummary(CorrectCount(s.quiz), |s.quiz|, s.text == VOCAB_QUIZ)
  }

  /** A poll is sent exactly while questions remain, and it is the question
      under the cursor; otherwise the summary counts the correct answers of
      the whole quiz, never more than its length. */
  lemma AskReplySpec(s: SessionView)
    ensures AskReply(s).Poll? <==> s.nextQuestionIdx < |s.quiz|
    ensures AskReply(s).Poll? ==> AskReply(s).question == s.quiz[s.nextQuestionIdx]
    ensures AskReply(s).QuizSummary? ==>
      && AskReply(s).total == |s.quiz| && AskReply(s).correct <= AskReply(s).total
      && AskReply(s).correct == CorrectCount(s.quiz)
      && (AskReply(s).vocabQuiz <==> s.text == VOCAB_QUIZ)
  {
  }

  // ---------------------------------------------------------------------
  // The quiz

  /** `ask_question_handler`: the next question is sent and the cursor moves
      on, or the summary is sent at the end. */
  method AskQuestion(profile: UserProfile) returns (r: Result<Reply>)
    modifies profile.CurrentFrame()
    ensures profile.sessions == old(profile.sessions) && (old(profile.vocabs.Valid()) ==> profile.vocabs.Valid())
    ensures profile.sessions == [] ==> r == Err(IndexError)
    ensures profile.sessions != [] ==>
      var s := profile.Current();
      r == Ok(AskReply(old(s.View()))) && s.View() == AfterAsk(old(s.View()))
  {
    if profile.sessions == [] {
      return Err(IndexError);
    }
    var session := profile.sessions[|profile.sessions| - 1];
    var reply := AskSession(session);
    r := Ok(reply);
  }

  /** The next question of one session, or its summary at the end. */
  method AskSession(session: LearningSession) returns (reply: Reply)
    modifies session
    ensures reply == AskReply(old(session.View())) && session.View() == AfterAsk(old(session.View()))
  {
    if session.nextQuestionIdx >= |session.quiz| {
      reply := QuizSummary(CorrectCount(session.quiz), |session.quiz|, session.text == VOCAB_QUIZ);
    } else {
      reply := Poll(session.quiz[session.nextQuestionIdx]);
      session.nextQuestionIdx := session.nextQuestionIdx + 1;
    }
  }

  /** `learn_handler`: without a text to learn, asks for one; otherwise
      appends a new session (its id the number of sessions before, the
      text cut to 1500 characters), stores the extracted keywords, then the
      extracted questions, and asks the first question. When building the
      questions raises, the session keeps its keywords. */
  method Learn(profile: UserProfile, text: Option<string>, message: string, chatId: int, now: int,
               keywords: seq<Keyword>, questions: Result<seq<Question>>) returns (r: Result<Reply>)
    modifies profile
    ensures var t := RetrieveTextToLearn(text, message);
      if t.None? || t.value == "" then r == Ok(AskForText) && profile.sessions == old(profile.sessions)
      else
        && |profile.sessions| == |old(profile.sessions)| + 1
        && profile.sessions[..|old(profile.sessions)|] == old(profile.sessions)
        && fresh(profile.Current())
        && var s := LearnSession(|old(profile.sessions)|, chatId, t.value, now).(keywords := keywords);
           && (questions.Err? ==> r == Err(questions.error) && profile.Current().View() == s)
           && (questions.Ok? ==>
                 var s' := s.(quiz := questions.value);
                 r == Ok(AskReply(s')) && profile.Current().View() == AfterAsk(s'))
  {
    var t := RetrieveTextToLearn(text, message);
    if t.None? || t.value == "" {
      return Ok(AskForText);
    }
    var body := Take(t.value, MAX_TEXT_LEN);
    var session := new LearningSession(|profile.sessions|, chatId, body, now);
    profile.sessions := profile.sessions + [session];
    session.keywords := keywords;
    if questions.Err? {
      return Err(questions.error);
    }
    session.quiz := questions.value;
    r := AskQuestion(profile);
  }

  /** The change a vocabulary-quiz answer makes to the store: the root fed
      back, when there is one and it is stored, is reviewed with the
      quality of a correct or a wrong answer; otherwise nothing changes. */
  function Feedback(m: map<string, VocabView>, root: Option<string>, correct: bool,
                    correctQuality: int, wrongQuality: int, today: int): map<string, VocabView>
    requires ValidQuality(correctQuality) && ValidQuality(wrongQuality)
  {
    if root.Some? && root.value in m then
      ReviewedRoot(m, root.value, if correct then correctQuality else wrongQuality, today)
    else m
  }

  /** Only the root fed back changes, and only its schedule; a root that is
      not stored, or no root at all, leaves the store as it is. */
  lemma FeedbackSpec(m: map<string, VocabView>, root: Option<string>, correct: bool,
                     correctQuality: int, wrongQuality: int, today: int)
    requires ValidQuality(correctQuality) && ValidQuality(wrongQuality) && SoundStore(m)
    ensures var r := Feedback(m, root, correct, correctQuality, wrongQuality, today);
      && SoundStore(r) && r.Keys == m.Keys
      && (forall k :: k in m && root != Some(k) ==> r[k] == m[k])
      && (root.Some? && root.value in m ==>
            r[root.value] == m[root.value].(schedule := Reviewed(m[root.value].schedule,
                                                                 if correct then correctQuality else wrongQuality, today)))
  {
    if root.Some? && root.value in m {
      ReviewedRootSpec(m, root.value, if correct then correctQuality else wrongQuality, today);
    }
  }

  /** `ask_question_on_answer_handler`: records the first chosen option and
      the time on the question under the cursor (the last one asked), feeds
      a vocabulary-quiz answer back to the root of that question (the
      qualities of `correct_answer` and `wrong_answer` are parameters), and
      asks the next question. */
  method AnswerPoll(profile: UserProfile, optionIds: seq<int>, now: int, today: int,
                    correctQuality: int, wrongQuality: int) returns (r: Result<Reply>)
    requires profile.vocabs.Valid() && ValidQuality(correctQuality) && ValidQuality(wrongQuality)
    modifies profile.CurrentFrame(), profile.vocabs, profile.vocabs.dictionary.Values
    ensures profile.vocabs.Valid()
    ensures profile.vocabs.dictionary == old(profile.vocabs.dictionary)
    ensures profile.vocabs.order == old(profile.vocabs.order)
    ensures profile.sessions == [] ==> r == Err(IndexError) && profile.vocabs.model == old(profile.vocabs.model)
    ensures profile.sessions != [] ==>
      var before := old(profile.Current().View());
      var answered := Answered(before, optionIds, now);
      var root := FeedbackRoot(before);
      if answered.Err? || root.Err? then
        r == Err(IndexError) && profile.Current().View() == before && profile.vocabs.model == old(profile.vocabs.model)
      else
        var i := AnsweredIndex(before).value;
        && profile.Current().View() == AfterAsk(answered.value)
        && r == Ok(AskReply(answered.value))
        && profile.vocabs.model == Feedback(old(profile.vocabs.model), root.value,
                                            optionIds[0] == before.quiz[i].correctIdx,
                                            correctQuality, wrongQuality, today)
  {
    if profile.sessions == [] {
      return Err(IndexError);
    }
    var session := profile.sessions[|profile.sessions| - 1];
    assert session as object != profile.vocabs && session as object != profile;
    assert session as object !in profile.vocabs.dictionary.Values;
    assert profile as object != profile.vocabs && profile as object !in profile.vocabs.dictionary.Values;
    r := AnswerOn(session, profile.vocabs, optionIds, now, today, correctQuality, wrongQuality);
  }

  /** `ask_question_on_answer_handler` on the running session and the
      store. */
  method AnswerOn(session: LearningSession, vocabs: Vocabs, optionIds: seq<int>, now: int, today: int,
                  correctQuality: int, wrongQuality: int) returns (r: Result<Reply>)
    requires vocabs.Valid() && ValidQuality(correctQuality) && ValidQuality(wrongQuality)
    requires session as object != vocabs && session as object !in vocabs.dictionary.Values
    modifies session, vocabs, vocabs.dictionary.Values
    ensures vocabs.Valid()
    ensures vocabs.dictionary == old(vocabs.dictionary) && vocabs.order == old(vocabs.order)
    ensures var before := old(session.View());
      var answered := Answered(before, optionIds, now);
      var root := FeedbackRoot(before);
      if answered.Err? || root.Err? then
        r == Err(IndexError) && session.View() == before && vocabs.model == old(vocabs.model)
      else
        var i := AnsweredIndex(before).value;
        && session.View() == AfterAsk(answered.value)
        && r == Ok(AskReply(answered.value))
        && vocabs.model == Feedback(old(vocabs.model), root.value,
                                    optionIds[0] == before.quiz[i].correctIdx,
                                    correctQuality, wrongQuality, today)
  {
    var answer := AnswerSession(session, optionIds, now);
    if answer.Err? {
      return Err(answer.error);
    }
    // The next question is asked before the store is updated: the two
    // touch disjoint objects, so the order does not show.
    var reply := AskSession(session);
    FeedbackStore(vocabs, answer.value.0, answer.value.1, correctQuality, wrongQuality, today);
    r := Ok(reply);
  }

  /** The session half of `ask_question_on_answer_handler`: the answer is
      recorded on the question under the cursor, and the root to feed back
      (if any) comes out with whether the answer was correct. */
  method AnswerSession(session: LearningSession, optionIds: seq<int>, now: int)
    returns (r: Result<(Option<string>, bool)>)
    modifies session
    ensures var before := old(session.View());
      var answered := Answered(before, optionIds, now);
      var root := FeedbackRoot(before);
      if answered.Err? || root.Err? then
        r == Err(IndexError) && session.View() == before
      else
        var i := AnsweredIndex(before).value;
        && r == Ok((root.value, optionIds[0] == before.quiz[i].correctIdx))
        && session.View() == answered.value
  {
    var i := Index(|session.quiz|, session.nextQuestionIdx - 1);
    if i.None? || optionIds == [] {
      return Err(IndexError);
    }
    var root: Option<string> := None;
    if session.text == VOCAB_QUIZ {
      var j := Index(|session.vocabRoots|, session.nextQuestionIdx - 1);
      if j.None? {
        return Err(IndexError);
      }
      root := Some(session.vocabRoots[j.value]);
    }
    RecordAnswer(session, i.value, optionIds[0], now);
    r := Ok((root, IsCorrect(session.quiz[i.value])));
  }

  /** The store half of `ask_question_on_answer_handler`: the fed-back root,
      when stored, is reviewed with the quality of a correct or a wrong
      answer. */
  method FeedbackStore(vocabs: Vocabs, root: Option<string>, correct: bool,
                       correctQuality: int, wrongQuality: int, today: int)
    requires vocabs.Valid() && ValidQuality(correctQuality) && ValidQuality(wrongQuality)
    modifies vocabs, vocabs.dictionary.Values
    ensures vocabs.Valid()
    ensures vocabs.dictionary == old(vocabs.dictionary) && vocabs.order == old(vocabs.order)
    ensures vocabs.model == Feedback(old(vocabs.model), root, correct, correctQuality, wrongQuality, today)
  {
    if root.Some? && root.value in vocabs.dictionary {
      var quality := if correct then correctQuality else wrongQuality;
      vocabs.ReviewStored(root.value, quality, today);
    }
  }

  /** The first chosen option and the time, recorded on question `i`. */
  method RecordAnswer(session: LearningSession, i: nat, optionId: int, now: int)
    requires i < |session.quiz|
    modifies session
    ensures session.View() == old(session.View()).(quiz := old(session.quiz)[i := old(session.quiz)[i].(answerTime := Some(now), answerIdx := Some(optionId))])
  {
    var question := session.quiz[i].(answerTime := Some(now), answerIdx := Some(optionId));
    session.quiz := session.quiz[i := question];
  }

  /** `morequestions_handler`: the questions extracted again from the text
      go after the old ones and the next one is asked. */
  method MoreQuestions(profile: UserProfile, questions: Result<seq<Question>>) returns (r: Result<Reply>)
    modifies profile.CurrentFrame()
    ensures profile.sessions == [] ==> r == Err(IndexError)
    ensures profile.sessions != [] ==>
      var before := old(profile.Current().View());
      && (questions.Err? ==> r == Err(questions.error) && profile.Current().View() == before)
      && (questions.Ok? ==>
            var after := WithMoreQuestions(before, questions.value);
            r == Ok(AskReply(after)) && profile.Current().View() == AfterAsk(after))
  {
    if profile.sessions == [] {
      return Err(IndexError);
    }
    var session := profile.sessions[|profile.sessions| - 1];
    if questions.Err? {
      return Err(questions.error);
    }
    session.quiz := session.quiz + questions.value;
    r := AskQuestion(profile);
  }

  // ---------------------------------------------------------------------
  // Keywords

  /** The keyword a tap on `keyword <words>` selects: the first of the
      session's keywords whose word is the words rejoined with single
      spaces. */
  function Tapped(keywords: seq<Keyword>, data: seq<string>): Option<nat>
    requires data != []
  {
    FirstWhere(keywords, (k: Keyword) => k.word == Join(" ", data[1..]))
  }

  /** `keywords_on_click_handler`: "prev_page" and "next_page" turn the
      page (and redraw the keyboard when it moved); any other button
      selects a keyword, which is clicked in the store (quality 3) and whose
      summary is shown unless it is on screen already. */
  method KeywordCallback(profile: UserProfile, data: string, onScreen: string, today: int)
    returns (r: Result<ClickReply>)
    requires profile.vocabs.Valid()
    modifies profile.CurrentFrame(), profile.vocabs, profile.vocabs.dictionary.Values
    ensures profile.vocabs.Valid()
    ensures profile.sessions == [] || Fields(data) == [] ==>
      && r == Err(IndexError) && profile.vocabs.model == old(profile.vocabs.model)
      && profile.vocabs.dictionary == old(profile.vocabs.dictionary) && profile.vocabs.order == old(profile.vocabs.order)
    ensures profile.sessions != [] ==>
      var before := old(profile.Current().View());
      var after := profile.Current().View();
      var cmd := Fields(data);
      && (cmd == [] ==> after == before)
      && (cmd != [] && cmd[0] == "prev_page" ==>
            && after == PrevPage(before) && profile.vocabs.model == old(profile.vocabs.model)
            && profile.vocabs.dictionary == old(profile.vocabs.dictionary) && profile.vocabs.order == old(profile.vocabs.order)
            && r == Ok(if before.currentKeywordPage <= 0 then Unchanged else Keyboard(KeywordRows(after))))
      && (cmd != [] && cmd[0] == "next_page" ==>
            && after == NextPage(before) && profile.vocabs.model == old(profile.vocabs.model)
            && profile.vocabs.dictionary == old(profile.vocabs.dictionary) && profile.vocabs.order == old(profile.vocabs.order)
            && r == Ok(if before.currentKeywordPage >= MaxPage(|before.keywords|) then Unchanged
                       else Keyboard(KeywordRows(after))))
      && (cmd != [] && cmd[0] != "prev_page" && cmd[0] != "next_page" ==>
            && after == before
            && match Tapped(before.keywords, cmd)
               case None =>
                 && r == Ok(NotFound) && profile.vocabs.model == old(profile.vocabs.model)
                 && profile.vocabs.dictionary == old(profile.vocabs.dictionary) && profile.vocabs.order == old(profile.vocabs.order)
               case Some(k) =>
                 var keyword := before.keywords[k];
                 && profile.vocabs.model == Encountered(old(profile.vocabs.model), keyword, before.sessionId, CLICK_QUALITY, today)
                 && profile.vocabs.order == (if keyword.root in old(profile.vocabs.dictionary) then old(profile.vocabs.order)
                                             else old(profile.vocabs.order) + [keyword.root])
                 && (forall root :: root in old(profile.vocabs.dictionary) ==>
                       root in profile.vocabs.dictionary && profile.vocabs.dictionary[root] == old(profile.vocabs.dictionary[root]))
                 && r == Ok(if Summary(keyword) == onScreen then Unchanged else Shown(Summary(keyword), KeywordRows(before))))
  {
    r := KeywordCommand(profile, Fields(data), onScreen, today);
  }

  /** `keywords_on_click_handler` once the button's data is split into
      words. */
  method KeywordCommand(profile: UserProfile, words: seq<string>, onScreen: string, today: int)
    returns (r: Result<ClickReply>)
    requires profile.vocabs.Valid()
    modifies profile.CurrentFrame(), profile.vocabs, profile.vocabs.dictionary.Values
    ensures profile.vocabs.Valid()
    ensures profile.sessions == [] || words == [] ==>
      && r == Err(IndexError) && profile.vocabs.model == old(profile.vocabs.model)
      && profile.vocabs.dictionary == old(profile.vocabs.dictionary) && profile.vocabs.order == old(profile.vocabs.order)
    ensures profile.sessions != [] ==>
      var before := old(profile.Current().View());
      var after := profile.Current().View();
      && (words == [] ==> after == before)
      && (words != [] && words[0] == "prev_page" ==>
            && after == PrevPage(before) && profile.vocabs.model == old(profile.vocabs.model)
            && profile.vocabs.dictionary == old(profile.vocabs.dictionary) && profile.vocabs.order == old(profile.vocabs.order)
            && r == Ok(if before.currentKeywordPage <= 0 then Unchanged else Keyboard(KeywordRows(after))))
      && (words != [] && words[0] == "next_page" ==>
            && after == NextPage(before) && profile.vocabs.model == old(profile.vocabs.model)
            && profile.vocabs.dictionary == old(profile.vocabs.dictionary) && profile.vocabs.order == old(profile.vocabs.order)
            && r == Ok(if before.currentKeywordPage >= MaxPage(|before.keywords|) then Unchanged
                       else Keyboard(KeywordRows(after))))
      && (words != [] && words[0] != "prev_page" && words[0] != "next_page" ==>
            && after == before
            && match Tapped(before.keywords, words)
               case None =>
                 && r == Ok(NotFound) && profile.vocabs.model == old(profile.vocabs.model)
                 && profile.vocabs.dictionary == old(profile.vocabs.dictionary) && profile.vocabs.order == old(profile.vocabs.order)
               case Some(k) =>
                 var keyword := before.keywords[k];
                 && profile.vocabs.model == Encountered(old(profile.vocabs.model), keyword, before.sessionId, CLICK_QUALITY, today)
                 && profile.vocabs.order == (if keyword.root in old(profile.vocabs.dictionary) then old(profile.vocabs.order)
                                             else old(profile.vocabs.order) + [keyword.root])
                 && (forall root :: root in old(profile.vocabs.dictionary) ==>
                       root in profile.vocabs.dictionary && profile.vocabs.dictionary[root] == old(profile.vocabs.dictionary[root]))
                 && r == Ok(if Summary(keyword) == onScreen then Unchanged else Shown(Summary(keyword), KeywordRows(before))))
  {
    if profile.sessions == [] {
      return Err(IndexError);
    }
    var session := profile.sessions[|profile.sessions| - 1];
    if words == [] {
      return Err(IndexError);
    }
    if words[0] == "prev_page" || words[0] == "next_page" {
      assert profile.vocabs as object != session;
      assert session as object !in profile.vocabs.dictionary.Values;
      var reply := TurnPage(session, words[0] == "next_page");
      return Ok(reply);
    }
    var reply := TapKeyword(profile.vocabs, session, words, onScreen, today);
    r := Ok(reply);
  }

  /** "prev_page" and "next_page": the page moves by one within its bounds,
      and the keyboard is redrawn unless the page stayed. */
  method TurnPage(session: LearningSession, forward: bool) returns (reply: ClickReply)
    modifies session
    ensures var before := old(session.View());
      if forward then
        && session.View() == NextPage(before)
        && reply == if before.currentKeywordPage >= MaxPage(|before.keywords|) then Unchanged
                    else Keyboard(KeywordRows(session.View()))
      else
        && session.View() == PrevPage(before)
        && reply == if before.currentKeywordPage <= 0 then Unchanged else Keyboard(KeywordRows(session.View()))
  {
    if !forward {
      if session.currentKeywordPage <= 0 {
        return Unchanged;
      }
      session.currentKeywordPage := Max(0, session.currentKeywordPage - 1);
    } else {
      var maxPage := MaxPage(|session.keywords|);
      if session.currentKeywordPage >= maxPage {
        return Unchanged;
      }
      session.currentKeywordPage := Min(maxPage, session.currentKeywordPage + 1);
    }
    reply := Keyboard(KeywordRows(session.View()));
  }

  /** A tap on a keyword button: the first keyword with the tapped words is
      clicked in the store (quality 3) and its summary shown over the
      session's keyboard, unless it is on screen already. */
  method TapKeyword(vocabs: Vocabs, session: LearningSession, fields: seq<string>, onScreen: string, today: int)
    returns (reply: ClickReply)
    requires vocabs.Valid() && fields != []
    modifies vocabs, vocabs.dictionary.Values
    ensures vocabs.Valid() && session.View() == old(session.View())
    ensures var s := session.View();
      match Tapped(s.keywords, fields)
      case None =>
        && reply == NotFound && vocabs.model == old(vocabs.model)
        && vocabs.dictionary == old(vocabs.dictionary) && vocabs.order == old(vocabs.order)
      case Some(k) =>
        var keyword := s.keywords[k];
        && vocabs.model == Encountered(old(vocabs.model), keyword, s.sessionId, CLICK_QUALITY, today)
        && vocabs.order == (if keyword.root in old(vocabs.dictionary) then old(vocabs.order)
                            else old(vocabs.order) + [keyword.root])
        && (forall root :: root in old(vocabs.dictionary) ==>
              root in vocabs.dictionary && vocabs.dictionary[root] == old(vocabs.dictionary[root]))
        && reply == if Summary(keyword) == onScreen then Unchanged else Shown(Summary(keyword), KeywordRows(s))
  {
    var hit := Tapped(session.keywords, fields);
    if hit.None? {
      return NotFound;
    }
    var keyword := session.keywords[hit.value];
    ghost var s := session.View();
    vocabs.ClickKeyword(keyword, session.sessionId, today);
    assert session.View() == s;
    if Summary(keyword) == onScreen {
      return Unchanged;
    }
    return Shown(Summary(keyword), KeywordRows(session.View()));
  }

  /** A keyword button carries `keyword <word>`; for a word without spaces,
      tapping it selects the first keyword with that word. */
  lemma TapSelectsWord(keywords: seq<Keyword>, word: string)
    requires word != [] && forall j :: 0 <= j < |word| ==> !IsSpace(word[j])
    ensures Fields("keyword " + word) == ["keyword", word]
    ensures Tapped(keywords, Fields("keyword " + word)) == FirstWhere(keywords, (k: Keyword) => k.word == word)
  {
    var w := "keyword";
    assert "keyword " + word == w + " " + word;
    assert forall j :: 0 <= j < |w| ==> !IsSpace(w[j]);
    FieldsOfTwoWords(w, word);
    assert Fields("keyword " + word)[1..] == [word];
  }

  /** Two words with one space between them split into those two words. */
  lemma FieldsOfTwoWords(w: string, word: string)
    requires w != [] && forall j :: 0 <= j < |w| ==> !IsSpace(w[j])
    requires word != [] && forall j :: 0 <= j < |word| ==> !IsSpace(word[j])
    ensures Fields(w + " " + word) == [w, word]
  {
    var parts := [w] + [word];
    assert parts == [w, word];
    assert w + " " + word == w + (" " + word);
    FieldsWordThenSpace(w, word);
    FieldsOfSpacedWord(word);
    assert Fields(w + (" " + word)) == parts;
  }

  lemma FieldsWordThenSpace(w: string, word: string)
    requires w != [] && forall j :: 0 <= j < |w| ==> !IsSpace(w[j])
    ensures Fields(w + (" " + word)) == [w] + Fields(" " + word)
  {
    var rest := " " + word;
    assert rest[0] == ' ';
    FieldsAfterWord(w, rest);
  }

  /** A word after one space is a single field. */
  lemma FieldsOfSpacedWord(word: string)
    requires word != [] && forall j :: 0 <= j < |word| ==> !IsSpace(word[j])
    ensures Fields(" " + word) == [word]
  {
    FieldsOfLoneWord(word);
    FieldsAfterSpace(word);
  }

  lemma FieldsAfterSpace(word: string)
    ensures Fields(" " + word) == Fields(word)
  {
    var gap := " ";
    assert AllSpace(gap) by {
      assert forall k :: 0 <= k < |gap| ==> gap[k] == ' ';
    }
    FieldsLeadingSpace(gap, word);
  }

  // ---------------------------------------------------------------------
  // Stopping and translating

  /** `stop_learn_handler`: the running session ends now. */
  method StopLearn(profile: UserProfile, now: int) returns (r: Result<()>)
    modifies profile.CurrentFrame()
    ensures profile.sessions == [] ==> r == Err(IndexError)
    ensures profile.sessions != [] ==>
      r == Ok(()) && profile.Current().View() == Stopped(old(profile.Current().View()), now)
  {
    if profile.sessions == [] {
      return Err(IndexError);
    }
    var session := profile.sessions[|profile.sessions| - 1];
    session.endTime := Some(now);
    return Ok(());
  }

  /** `translate_handler`: the words given with the command are translated;
      without any, the text of a running (not stopped) session is, once;
      otherwise there is nothing to translate. */
  method Translate(profile: UserProfile, args: seq<string>, translate: string -> string) returns (r: Option<string>)
    modifies profile.CurrentFrame()
    ensures args != [] ==>
      r == Some(translate(Join(" ", args))) &&
      (profile.sessions != [] ==> profile.Current().View() == old(profile.Current().View()))
    ensures args == [] && profile.sessions == [] ==> r == None
    ensures args == [] && profile.sessions != [] ==>
      var before := old(profile.Current().View());
      if before.endTime.Some? then r == None && profile.Current().View() == before
      else r == Some(Translated(before, translate).1) && profile.Current().View() == Translated(before, translate).0
  {
    if |args| > 0 {
      return Some(translate(Join(" ", args)));
    }
    if profile.sessions != [] && profile.sessions[|profile.sessions| - 1].endTime.None? {
      var session := profile.sessions[|profile.sessions| - 1];
      if session.translation != "" {
        return Some(session.translation);
      }
      var translation := translate(session.text);
      session.translation := translation;
      return Some(translation);
    }
    return None;
  }

  // ---------------------------------------------------------------------
  // The vocabulary quiz

  /** `vocabquiz_handler`: a new "VocabQuiz" session is built from the first
      20 due vocabularies and appended, and its first question is asked.
      The store does not change. */
  method VocabQuiz(profile: UserProfile, chatId: int, now: int, today: int, choice: nat -> nat)
    returns (r: Result<Reply>)
    requires profile.vocabs.Valid()
    modifies profile
    ensures unchanged(profile.vocabs)
    ensures |profile.sessions| == |old(profile.sessions)| + 1
    ensures profile.sessions[..|old(profile.sessions)|] == old(profile.sessions)
    ensures fresh(profile.Current())
    ensures var s := VocabQuizSession(|old(profile.sessions)|, chatId, now,
                                      DueViews(profile.vocabs.model, profile.vocabs.order, QUIZ_DUE, today), choice);
      r == Ok(AskReply(s)) && profile.Current().View() == AfterAsk(s)
  {
    var due := profile.vocabs.DueVocabs(QUIZ_DUE, today);
    profile.vocabs.DueVocabsViews(QUIZ_DUE, today);
    var views := Views(due);
    var session := NewVocabQuiz(|profile.sessions|, chatId, now, views, choice);
    ghost var vocabs, s := profile.vocabs, session.View();
    assert profile as object != vocabs && profile as object !in vocabs.dictionary.Values;
    assert session as object != vocabs && session as object !in vocabs.dictionary.Values;
    profile.sessions := profile.sessions + [session];
    var reply := AskSession(session);
    assert profile.vocabs == vocabs && profile.Current() == session;
    r := Ok(reply);
  }

  /** The session `vocabquiz_handler` builds, before it is appended. */
  method NewVocabQuiz(count: nat, chatId: int, now: int, due: seq<VocabView>, choice: nat -> nat)
    returns (session: LearningSession)
    ensures fresh(session) && session.View() == VocabQuizSession(count, chatId, now, due, choice)
  {
    session := new LearningSession(count, chatId, VOCAB_QUIZ, now);
    session.vocabRoots := QuizRoots(due);
    session.quiz := QuizQuestions(due, choice);
  }

  /** The first answer of a vocabulary quiz feeds back to the root the
      asked question was drawn for, and that question is in its pool. */
  lemma VocabQuizFirstAnswer(count: nat, chatId: int, now: int, due: seq<VocabView>, choice: nat -> nat)
    requires Pooled(due) != []
    ensures var s := AfterAsk(VocabQuizSession(count, chatId, now, due, choice));
      var v := due[Pooled(due)[0]];
      && AnsweredIndex(s) == Some(0)
      && FeedbackRoot(s) == Ok(Some(v.root))
      && s.quiz[0] in v.quiz
  {
    VocabQuizSpec(count, chatId, now, due, choice);
    var s0 := VocabQuizSession(count, chatId, now, due, choice);
    AfterAskSpec(s0);
    FeedbackRootAligned(AfterAsk(s0));
  }

  // ---------------------------------------------------------------------
  // Refreshing the question pools

  /** The selection of `refresh_vocab_quiz`: the due vocabularies picked by
      the loop over their pool sizes, in due order. */
  method SelectForRefresh(due: seq<Vocab>, draw: nat -> real) returns (quizVocabs: seq<Vocab>)
    ensures quizVocabs == Gather(due, Selected(Sizes(Views(due)), draw))
  {
    var chosen := SelectPositions(Sizes(Views(due)), draw);
    quizVocabs := Gather(due, chosen);
  }

  /** The selection loop of `refresh_vocab_quiz`, over the pool sizes of
      the due vocabularies: each is taken when its pool is empty or the next
      draw falls below one over its pool's size, until 10 are taken. */
  method SelectPositions(sizes: seq<nat>, draw: nat -> real) returns (chosen: seq<nat>)
    ensures chosen == Selected(sizes, draw)
  {
    ghost var selected := Selected(sizes, draw);
    chosen := [];
    var calls := 0;
    var i := 0;
    while i < |sizes|
      invariant 0 <= i <= |sizes|
      invariant |chosen| < REFRESH_CAP
      invariant forall k :: 0 <= k < |chosen| ==> chosen[k] < i
      invariant SelectFrom(sizes, draw, i, calls, chosen) == selected
    {
      var n := sizes[i];
      var pick := false;
      var calls' := calls;
      if n == 0 {
        pick := true;
      } else {
        pick := draw(calls) < 1.0 / (n as real);
        calls' := calls + 1;
      }
      SelectStep(sizes, draw, i, calls, chosen, selected, pick, calls');
      calls := calls';
      if pick {
        chosen := chosen + [i];
      }
      if |chosen| >= REFRESH_CAP {
        return;
      }
      i := i + 1;
    }
  }

  /** The objects at the chosen positions, in order. */
  function Gather(due: seq<Vocab>, chosen: seq<nat>): (r: seq<Vocab>)
    requires forall k :: 0 <= k < |chosen| ==> chosen[k] < |due|
    ensures |r| == |chosen| && forall k :: 0 <= k < |chosen| ==> r[k] == due[chosen[k]]
  {
    seq(|chosen|, k requires 0 <= k < |chosen| => due[chosen[k]])
  }

  /** One turn of the selection loop: the selection made so far either is
      complete or continues from the next vocabulary. */
  lemma SelectStep(sizes: seq<nat>, draw: nat -> real, i: nat, calls: nat, chosen: seq<nat>, selected: seq<nat>,
                   pick: bool, calls': nat)
    requires i < |sizes| && forall k :: 0 <= k < |chosen| ==> chosen[k] < i
    requires SelectFrom(sizes, draw, i, calls, chosen) == selected
    requires pick == Takes(sizes[i], draw(calls))
    requires calls' == if sizes[i] == 0 then calls else calls + 1
    ensures var chosen' := if pick then chosen + [i] else chosen;
      && (|chosen'| >= REFRESH_CAP ==> chosen' == selected)
      && (|chosen'| < REFRESH_CAP ==> SelectFrom(sizes, draw, i + 1, calls', chosen') == selected)
  {
  }

  /** The appending loop of `refresh_vocab_quiz`: each returned question
      joins the pool of the selected vocabulary with its root. */
  method AddRefreshed(vocabs: Vocabs, quizVocabs: seq<Vocab>, roots: seq<string>, pairs: seq<(string, Question)>)
    requires vocabs.Valid()
    requires forall k :: 0 <= k < |quizVocabs| ==>
      quizVocabs[k].root in vocabs.dictionary && vocabs.dictionary[quizVocabs[k].root] == quizVocabs[k]
    requires |roots| == |quizVocabs| && forall k :: 0 <= k < |roots| ==> roots[k] == quizVocabs[k].root
    requires forall k :: 0 <= k < |pairs| ==> pairs[k].0 in roots
    modifies vocabs, vocabs.dictionary.Values
    ensures vocabs.Valid()
    ensures vocabs.dictionary == old(vocabs.dictionary) && vocabs.order == old(vocabs.order)
    ensures forall k :: 0 <= k < |pairs| ==> pairs[k].0 in old(vocabs.model)
    ensures vocabs.model == PoolsExtended(old(vocabs.model), pairs)
  {
    ghost var m0 := vocabs.model;
    assert forall k :: 0 <= k < |pairs| ==> pairs[k].0 in m0 by {
      forall k | 0 <= k < |pairs| ensures pairs[k].0 in m0 {
        assert pairs[k].0 in roots;
        var j :| 0 <= j < |roots| && roots[j] == pairs[k].0;
      }
    }
    for n := 0 to |pairs|
      invariant vocabs.Valid()
      invariant vocabs.dictionary == old(vocabs.dictionary) && vocabs.order == old(vocabs.order)
      invariant vocabs.model.Keys == m0.Keys
      invariant PoolsExtended(m0, pairs) == PoolsExtended(vocabs.model, pairs[n..])
    {
      var (root, question) := pairs[n];
      var at := FirstWhere(quizVocabs, (v: Vocab) => v.root == root);
      FirstWhereSpec(quizVocabs, (v: Vocab) => v.root == root);
      assert at.Some? by {
        assert pairs[n].0 in roots;
        var j :| 0 <= j < |roots| && roots[j] == pairs[n].0;
        assert ((v: Vocab) => v.root == root)(quizVocabs[j]);
      }
      var matched := quizVocabs[at.value];
      assert pairs[n..][1..] == pairs[n + 1..];
      WithQuestionSpec(vocabs.model, matched.root, question);
      vocabs.AddQuestion(matched.root, question);
    }
    assert pairs[|pairs|..] == [];
  }

  /** `refresh_vocab_quiz` for one profile: the first 30 due vocabularies,
      a random selection of at most 10 of them, new questions from the
      language model's `matches` for them, and each question appended to
      its vocabulary's pool. */
  method RefreshProfile(profile: UserProfile, today: int, draw: nat -> real, matches: seq<VocabQuestionMatch>)
    returns (r: Result<()>)
    requires profile.vocabs.Valid()
    modifies profile.vocabs, profile.vocabs.dictionary.Values
    ensures profile.vocabs.Valid()
    ensures profile.vocabs.dictionary == old(profile.vocabs.dictionary)
    ensures profile.vocabs.order == old(profile.vocabs.order)
    ensures var want := Refreshed(old(profile.vocabs.model), old(profile.vocabs.order), today, draw, matches);
      && (want.Ok? ==> r == Ok(()) && profile.vocabs.model == want.value)
      && (want.Err? ==> r == Err(want.error) && profile.vocabs.model == old(profile.vocabs.model))
  {
    r := RefreshStore(profile.vocabs, today, draw, matches);
  }

  /** `refresh_vocab_quiz` on the store of one profile. */
  method RefreshStore(vocabs: Vocabs, today: int, draw: nat -> real, matches: seq<VocabQuestionMatch>)
    returns (r: Result<()>)
    requires vocabs.Valid()
    modifies vocabs, vocabs.dictionary.Values
    ensures vocabs.Valid()
    ensures vocabs.dictionary == old(vocabs.dictionary) && vocabs.order == old(vocabs.order)
    ensures var want := Refreshed(old(vocabs.model), old(vocabs.order), today, draw, matches);
      && (want.Ok? ==> r == Ok(()) && vocabs.model == want.value)
      && (want.Err? ==> r == Err(want.error) && vocabs.model == old(vocabs.model))
  {
    ghost var m0, order0 := vocabs.model, vocabs.order;
    RefreshedSelected(m0, order0, today, draw, matches);
    var due := vocabs.DueVocabs(REFRESH_DUE, today);
    vocabs.DueVocabsViews(REFRESH_DUE, today);
    if due == [] {
      assert DueViews(m0, order0, REFRESH_DUE, today) == [];
      return Ok(());
    }
    var quizVocabs, roots := SelectInStore(vocabs, due, today, draw);
    if |quizVocabs| == 0 {
      return Ok(());
    }
    r := ExtendPools(vocabs, quizVocabs, roots, matches);
  }

  /** The rest of `refresh_vocab_quiz` once the vocabularies are selected:
      the language model's matches for their roots become questions, and
      each joins the pool of its vocabulary. */
  method ExtendPools(vocabs: Vocabs, quizVocabs: seq<Vocab>, roots: seq<string>, matches: seq<VocabQuestionMatch>)
    returns (r: Result<()>)
    requires vocabs.Valid()
    requires forall k :: 0 <= k < |quizVocabs| ==>
      quizVocabs[k].root in vocabs.dictionary && vocabs.dictionary[quizVocabs[k].root] == quizVocabs[k]
    requires |roots| == |quizVocabs| && forall k :: 0 <= k < |roots| ==> roots[k] == quizVocabs[k].root
    requires forall k :: 0 <= k < |roots| ==> roots[k] in vocabs.model
    modifies vocabs, vocabs.dictionary.Values
    ensures vocabs.Valid()
    ensures vocabs.dictionary == old(vocabs.dictionary) && vocabs.order == old(vocabs.order)
    ensures var want := PoolsRefreshed(old(vocabs.model), roots, matches);
      && (want.Ok? ==> r == Ok(()) && vocabs.model == want.value)
      && (want.Err? ==> r == Err(want.error) && vocabs.model == old(vocabs.model))
  {
    var extracted := ExtractVocabQuestions(roots, matches);
    if extracted.Err? {
      return Err(extracted.error);
    }
    VocabExtractedSound(matches, roots);
    AddRefreshed(vocabs, quizVocabs, roots, extracted.value);
    return Ok(());
  }

  /** The selection of `refresh_vocab_quiz` from the due objects of a
      store, with their roots: the selected roots of the store, each naming
      its own object. */
  method SelectInStore(vocabs: Vocabs, due: seq<Vocab>, today: int, draw: nat -> real)
    returns (quizVocabs: seq<Vocab>, roots: seq<string>)
    requires vocabs.Valid() && due == vocabs.DueVocabs(REFRESH_DUE, today)
    ensures roots == SelectedRoots(DueViews(vocabs.model, vocabs.order, REFRESH_DUE, today), draw)
    ensures forall k :: 0 <= k < |roots| ==> roots[k] in vocabs.model
    ensures |roots| == |quizVocabs| && forall k :: 0 <= k < |roots| ==> roots[k] == quizVocabs[k].root
    ensures forall k :: 0 <= k < |quizVocabs| ==>
      quizVocabs[k].root in vocabs.dictionary && vocabs.dictionary[quizVocabs[k].root] == quizVocabs[k]
  {
    vocabs.DueVocabsViews(REFRESH_DUE, today);
    quizVocabs := SelectForRefresh(due, draw);
    roots := Roots(quizVocabs);
    RefreshRoots(vocabs, due, quizVocabs, roots, today, draw);
  }

  /** The roots of a list of vocabularies, in order. */
  function Roots(vs: seq<Vocab>): (r: seq<string>)
    ensures |r| == |vs| && forall k :: 0 <= k < |vs| ==> r[k] == vs[k].root
  {
    seq(|vs|, k requires 0 <= k < |vs| => vs[k].root)
  }

  /** The roots of the selected objects are the selected roots of the
      store, and each names its own object. */
  lemma RefreshRoots(vocabs: Vocabs, due: seq<Vocab>, quizVocabs: seq<Vocab>, roots: seq<string>,
                     today: int, draw: nat -> real)
    requires vocabs.Valid()
    requires due == vocabs.DueVocabs(REFRESH_DUE, today)
    requires Views(due) == DueViews(vocabs.model, vocabs.order, REFRESH_DUE, today)
    requires var sel := Selected(Sizes(Views(due)), draw);
      |quizVocabs| == |sel| && forall k :: 0 <= k < |sel| ==> quizVocabs[k] == due[sel[k]]
    requires |roots| == |quizVocabs| && forall k :: 0 <= k < |roots| ==> roots[k] == quizVocabs[k].root
    ensures roots == SelectedRoots(DueViews(vocabs.model, vocabs.order, REFRESH_DUE, today), draw)
    ensures forall k :: 0 <= k < |quizVocabs| ==>
      quizVocabs[k].root in vocabs.dictionary && vocabs.dictionary[quizVocabs[k].root] == quizVocabs[k]
  {
    var views := Views(due);
    var sel := Selected(Sizes(views), draw);
    var dueRoots := DueRoots(vocabs.model, vocabs.order, REFRESH_DUE, today);
    forall k | 0 <= k < |sel|
      ensures roots[k] == views[sel[k]].root
      ensures quizVocabs[k].root in vocabs.dictionary && vocabs.dictionary[quizVocabs[k].root] == quizVocabs[k]
    {
      assert views[sel[k]] == due[sel[k]].View();
      assert due[sel[k]] == vocabs.dictionary[dueRoots[sel[k]]];
    }
  }
}
