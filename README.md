# TelegramGermanTutorBot, modelled in Dafny

This project models the logic of a Telegram bot that teaches German vocabulary, with the Telegram transport, the language model and persistence stripped away. What remains is modelled in Dafny:

- **The scheduler.** Each vocabulary root (a `Vocab`) has an SM-2-style review schedule (`Vocab.update`). The ease factor is kept in exact hundredths and dates are day numbers.
- **The vocabulary store** (`Vocabs`, a class over a dictionary kept in insertion order):
  - its three encounter operations, `define_vocab`, `click_keyword` and `ignore_keyword`, with qualities 1, 3 and 5;
  - its due list, `due_vocabs`, built as a filter, a stable sort by `next_review`, and the first `n`.
- **Quiz questions.** The Telegram poll validator, which truncates the explanation, and the count of correct answers.
- **The handlers.** Each handler's effect on the user profile, its running `LearningSession` and the store. The modelled state logic covers:
  - learning a text;
  - the keyword keyboard and its paging;
  - asking and answering quiz questions, including vocabulary-quiz feedback to the store;
  - more questions, stopping and translating;
  - building a vocabulary quiz;
  - the batch that refreshes the question pools of due vocabularies;
  - the two string helpers, `retrieve_text_to_learn` and `remove_introducing_paragraph`.
- **The extractors, after parsing.** Each turns the language model's parsed matches into values:
  - quiz questions, with the answer letter's index and invalid polls dropped;
  - vocabulary questions, paired case-insensitively with the vocabulary they ask about;
  - definitions and keywords, with nouns prefixed by their article;
  - keyword snippets, aligned by index with the keywords.

## How the project is laid out

Modules follow the source files:

| module | source | what it holds |
|---|---|---|
| `Py` | — | Python built-ins the code relies on: `int()` truncation, slicing with Python's bounds, negative indexing, `str.strip`, `str.split`, `str.find`/`index`, `str.lower`, `split(sep)`/`join`, `next(...)` |
| `Scheduler` | data_models.py | `Vocab.update` as a pure function on the five scheduler fields |
| `Ordering` | data_models.py | the filter, stable sort and take-`n` behind `due_vocabs` |
| `Keywords` | data_models.py | `Keyword` and `summary`, and the noun-article rule shared by two extractors |
| `Questions` | data_models.py | `Question`, `is_correct`, `validate_telegram_poll`, the correct-answer count |
| `Vocabulary` | data_models.py | the `Vocab` and `Vocabs` classes, together with their value model and that model's laws |
| `Sessions` | main.py | every handler's effect on one session, as a pure transition on the session's fields |
| `VocabQuizzes` | main.py | the vocabulary-quiz build and the pool refresh, on values |
| `Bot` | main.py | the `LearningSession` and `UserProfile` classes and the handlers as methods; the ensures clauses tie their new state to the transitions above |
| `QuestionExtractor`, `VocabQuestionExtractor`, `DefinitionExtractor`, `KeywordExtractor` | the four extractor files | each extractor's post-parse loop, and the properties of its result |

## Class and value design

- The classes are those whose fields the code updates in place:
  - `Vocab` and `Vocabs` (data_models.py);
  - `LearningSession` and `UserProfile` (main.py, data_models.py).
- A `Vocabs` object keeps a ghost `model`: the state of every stored `Vocab`, as a value. `Valid()` couples `model` to the objects.
- Every method states its new state as a function of the old `model`. The lemmas about those functions carry the properties.
- `Question` and `Keyword` are datatypes. `validate_telegram_poll` returns its verdict together with the question as the call leaves it.

## Behaviour of the code worth knowing

- **A failing review.** A failing quality (< 3) resets `repetitions` to 0, and the interval is then `int(interval * ease)`, not 1 (data_models.py:60-68). So a first definition lookup on a new root leaves it with `repetitions = 0`, `interval = 0` and due the same day (`Scheduler.NewRootScenario`, `Vocabulary.DefineNewRootDueToday`). A failure on a root with interval 10 and ease 2.0 gives interval 14 (`Scheduler.FailureOnEstablishedRoot`). SM-2 as published restarts a failed item at interval 1; this code does not.
- **Encounters on an existing root.** An existing root gets no new encounter when it is met again (data_models.py:78-100); only the first meeting is recorded.
- **Extending a vocabulary quiz.** `/morequestions` extends `quiz` but not `vocab_roots` (main.py:211-212). A vocabulary quiz extended this way no longer lines up with its roots, and an answer to a new question raises (`Sessions.MoreQuestionsBreakAlignment`).
- **Fields the classes do not declare.** Some fields are used by the handlers but missing from the classes in data_models.py: `LearningSession.vocab_roots`, `LearningSession.translation` and `Vocab.quiz`. As declared, the dataclasses would reject the `vocab_roots=` argument of `vocabquiz_handler` (main.py:460-465) and fail on the first read of `translation` or `quiz`. The model declares the three fields: `vocab_roots` defaults to an empty list, `translation` to an empty string, and the pool is a field of `Vocab` that starts empty.
- **Answer feedback.** `Vocab.correct_answer` and `Vocab.wrong_answer` are not defined, so the qualities of a right and a wrong answer are parameters.

## Model

| member | source | states |
|---|---|---|
| Py.Truncate | data_models.py:68 | `int(a / d)` truncates toward zero: for a >= 0, r*d <= a < r*d + d, and symmetrically for a < 0 |
| Py.Take | main.py:86 | `s[:n]` is a prefix of `s` whose length is `n` capped by `len(s)` (Python's rule for negative `n` included) |
| Py.Slice | main.py:126 | `s[a:b]` holds `j - i` elements when the normalised end `j` lies past the normalised start `i`, none otherwise, and its k-th element is `s[i + k]` |
| Py.Index | main.py:183 | `s[i]` designates a position exactly when -len <= i < len; a negative index counts from the end |
| Py.FirstWhereSpec | main.py:241-242 | `next(x for x in s if p(x))` finds an element satisfying `p` with none before it, or none when no element does |
| Py.Strip | main.py:59 | `strip()` returns the slice that follows the leading whitespace and is followed only by whitespace; a non-empty result starts and ends with a visible character |
| Py.StripNonEmpty | main.py:59 | a string with a visible character keeps one under `strip()` |
| Py.Fields | main.py:58 | `split()` is empty exactly when the string has no visible character |
| Py.Find | question_extractor.py:47 | `str.index` finds the first occurrence of the substring, and there is no occurrence when it finds none |
| Py.JoinSplitOn | main.py:271-274 | joining the pieces of `split(sep)` with `sep` gives back the string |
| Py.SplitOnPieces | main.py:271 | no piece of `split(sep)` contains the separator |
| Py.Lower | vocab_question_extractor.py:49 | `lower()` keeps the length and lowers character by character |
| Scheduler.EaseDeltaTable | data_models.py:53 | the ease deltas for q = 5..0 are +10, 0, -14, -32, -54, -80 hundredths |
| Scheduler.ReviewedEase | data_models.py:53-56 | the new ease is the old one plus the delta, floored at 1.3, so never below 1.3; below q = 5 a sound ease does not grow |
| Scheduler.ReviewedRepetitions | data_models.py:58-61 | quality < 3 sets repetitions to 0; otherwise they grow by exactly 1 |
| Scheduler.ReviewedInterval | data_models.py:63-68 | interval 1 after the first pass in a row, 6 after the second; otherwise, and on every failing review, floor(old interval × new ease) |
| Scheduler.ReviewedDates | data_models.py:70-71 | last review = today and next review = today + interval |
| Scheduler.ReviewedSound | data_models.py:49-71 | a review keeps a schedule sound: ease >= 1.3, counters not negative, next review = last review + interval |
| Scheduler.InitialSound | data_models.py:33-37 | a new root's schedule (2.5, no dates, 0, 0) is sound |
| Scheduler.FailureNeverShortens | data_models.py:60-68 | a failed review never shortens the interval, and lengthens any interval of 4 days or more |
| Scheduler.PassingStreak | data_models.py:58-68 | three passes after a reset give intervals 1, 6 and floor(6 × ease) |
| Scheduler.NewRootScenario | data_models.py:49-71 | a new root looked up (q = 1), then tapped (3), then answered right twice (5, 5), has intervals 0, 1, 6, 12 |
| Scheduler.FailureOnEstablishedRoot | data_models.py:53-68 | repetitions 4, interval 10, ease 2.0 and quality 1 give repetitions 0 and interval 14 |
| Vocabulary.Vocab.constructor | data_models.py:29-37 | a new `Vocab` has no encounters, the initial schedule and an empty pool |
| Vocabulary.Vocab.FromKeyword | data_models.py:39-47 | `from_keyword` builds a fresh root with exactly one encounter made from the keyword |
| Vocabulary.Vocab.Update | data_models.py:49-71 | a quality outside 0..5 raises `ValueError` and changes nothing; otherwise only the schedule changes, to the reviewed one |
| Vocabulary.EncounteredOnlyRoot | data_models.py:78-100 | an encounter adds the keyword's root if absent, and no other root changes |
| Vocabulary.EncounteredNewRoot | data_models.py:78-84 | a new root gets exactly one encounter built from the keyword, an empty pool, and one review from the initial schedule |
| Vocabulary.EncounteredExistingRoot | data_models.py:78-84 | an existing root keeps its encounters and pool; only its schedule advances |
| Vocabulary.DefineNewRootDueToday | data_models.py:78-84 | a definition lookup of a new root leaves it due today, with repetitions 0 and interval 0 |
| Vocabulary.EncounteredSound | data_models.py:78-100 | encounters keep every stored schedule sound and reviewed |
| Vocabulary.ReviewedRootSpec | main.py:191-196 | reviewing one stored root keeps the store sound and changes only that root's schedule |
| Vocabulary.WithQuestionSpec | main.py:405 | appending to one root's pool keeps the store sound and touches nothing else |
| Vocabulary.DueRoots | data_models.py:102-109 | `due_vocabs(n)`: at most `n` distinct roots, all due by today, in non-decreasing `next_review` order; no due root left out is due earlier than a chosen one; fewer than `n` only when every due root is chosen (so the length is min(n, number due)), and every due root is chosen when `n` covers the store |
| Vocabulary.DueRootsDistinct | data_models.py:102-109 | no root is chosen twice, because each root has one entry in the dictionary |
| Vocabulary.DueViews | data_models.py:102-109 | the due vocabularies are the stored states of those roots, in that order |
| Vocabulary.Vocabs.constructor | data_models.py:74-76 | a new store is empty and valid |
| Vocabulary.Vocabs.AddRoot | data_models.py:80-81 | the new root is stored as a fresh object, last in insertion order, and no other entry changes |
| Vocabulary.Vocabs.Insert | data_models.py:81 | storing an object under its root adds exactly that entry at the end of the order |
| Vocabulary.Vocabs.Review | data_models.py:83-84 | reviewing a stored root changes only that root's state, and the dictionary and order stay the same |
| Vocabulary.Vocabs.ReviewStored | main.py:191-196 | a review of a stored root keeps the store valid, and its model is the reviewed value |
| Vocabulary.Vocabs.AddQuestion | main.py:405 | `vocab.quiz.append(q)` on a stored root keeps the store valid, and its model gains that question |
| Vocabulary.Vocabs.Encounter | data_models.py:78-100 | the shared encounter body: the new model is `Encountered` of the old one, a new root goes last in the order, and old objects are untouched |
| Vocabulary.Vocabs.DefineVocab | data_models.py:78-84 | `define_vocab` is the encounter with quality 1 |
| Vocabulary.Vocabs.ClickKeyword | data_models.py:86-92 | `click_keyword` is the encounter with quality 3 |
| Vocabulary.Vocabs.IgnoreKeyword | data_models.py:94-100 | `ignore_keyword` is the encounter with quality 5 |
| Vocabulary.Vocabs.DueVocabs | data_models.py:102-109 | `due_vocabs` returns the stored objects themselves, not copies, for the roots `DueRoots` chooses; it changes nothing |
| Vocabulary.Vocabs.DueVocabsViews | data_models.py:102-109 | the returned objects are in the states `DueViews` names |
| Ordering.AtMost | data_models.py:103-106 | the filter keeps exactly the entries due by the bound, and no more entries than it is given |
| Ordering.AtMostAppend | data_models.py:103-106 | the filter keeps the order of the entries it keeps: filtering a concatenation filters each part |
| Ordering.AtMostWithKey | data_models.py:103-106 | every entry of a key within the bound is kept, in its order, and none of a key beyond it |
| Ordering.SortAtMostStable | data_models.py:103-108 | due entries with equal `next_review` come out of filter and sort in the dictionary's insertion order |
| Ordering.SortSorted | data_models.py:108 | the sort orders by `next_review` and keeps the length |
| Ordering.SortPermutation | data_models.py:108 | the sort is a permutation of its input |
| Ordering.SortStable | data_models.py:108 | the sort is stable: entries with equal keys keep their dictionary order |
| Ordering.SortDistinct | data_models.py:108 | sorting a list with no entry twice gives a list with no entry twice |
| Ordering.AtMostDistinct | data_models.py:103-106 | the filter keeps a list with no entry twice free of repeats |
| Ordering.Earliest | data_models.py:102-109 | filter, sort and take: a sorted prefix of the sorted due entries, of length min(n, due), with no due entry left out that is earlier than a chosen one; shorter than `n` only when it holds every due entry; no entry twice when the input has none twice |
| Keywords.SummaryShape | data_models.py:15-17 | the summary starts with "root (pos): definition" and ends with the quoted snippet on its own line exactly when there is one |
| Keywords.NounRootShape | definition_extractor.py:40-41 | a noun (case-insensitively) with an article gets "art root"; any other root is kept; the parsed root always ends the stored one |
| Keywords.NounRootExamples | keyword_extractor.py:84-85 | "Noun"/"NOUN" with "das" gives "das Haus"; an empty article or a non-noun keeps the root |
| Questions.ValidateSpec | data_models.py:125-139 | valid exactly when the text is <= 255 characters, every option is <= 100, and the index is in range; once the first two checks pass the explanation is cut to 200 characters, whatever the verdict |
| Questions.ValidateIdempotent | data_models.py:125-139 | validating again gives the same verdict and does not truncate again |
| Questions.CorrectCount | data_models.py:159-160 | the correct count is at most the quiz's length |
| Questions.CorrectCountAppend | data_models.py:159 | the count over a concatenation is the sum of the counts |
| Questions.CorrectCountUpdate | data_models.py:159 | replacing one question changes the count by that question's own contribution |
| Sessions.RetrieveExplicit | main.py:54-55 | a non-empty explicit text is returned as it is |
| Sessions.RetrieveBareLearn | main.py:56-61 | a bare "/learn", with or without trailing whitespace, gives nothing |
| Sessions.RetrieveLearnArgument | main.py:56-59 | "/learn <gap><text>" gives the stripped text, which is not empty |
| Sessions.CommandWithArgument | main.py:58 | "/learn" followed by whitespace and a visible character has more than one word |
| Sessions.RetrieveOther | main.py:62-64 | a message not starting with "/learn" is itself the text |
| Sessions.RetrieveLearnNeverEmpty | main.py:56-61 | a "/learn" message never gives an empty text |
| Sessions.LearnCommandRest | main.py:58-59 | a "/learn" message with a second word has a visible character after the command |
| Sessions.RemoveIntroducingParagraphSpec | main.py:270-274 | the text is unchanged unless the first paragraph ends with ':'; such a paragraph, and the break after it, are removed, and the rest is kept unchanged |
| Sessions.RemoveIntroduction | main.py:270-274 | an introduction line ending in ':' and a blank line before a story leave exactly the story |
| Sessions.LearnSessionSpec | main.py:86-93 | a new session's id is the number of earlier sessions; its text is a prefix of at most 1500 characters, the whole text when it fits; the quiz is empty, the cursor and the page are 0, and it has not ended |
| Sessions.MaxPageSpec | main.py:232 | `(len - 1) // 9` is -1 for no keywords; otherwise it is the last page, which holds at least one keyword |
| Sessions.Words | main.py:121 | the keyboard lists the keywords' words in order |
| Sessions.Row | main.py:130 | row i is `page[3i : 3i + 3]` |
| Sessions.Rows | main.py:128-131 | a page of n words has ceil(n / 3) rows |
| Sessions.RowsSpec | main.py:128-131 | the rows read in order are the page; each has 1 to 3 words and only the last may have fewer than 3 |
| Sessions.PageWordsSpec | main.py:123-126 | on an existing page the keyboard shows `words[page*9 : page*9 + 9]`, at least one word |
| Sessions.PrevPageSpec | main.py:225-227 | "prev_page" does nothing at page 0 or below, otherwise moves back by one; a page in range stays in range |
| Sessions.NextPageSpec | main.py:231-235 | "next_page" does nothing on or past the last page, otherwise moves on by one; a page in range stays in range |
| Sessions.AfterAskSpec | main.py:148-172 | while questions remain, the cursor moves by exactly one and the question under the old cursor is asked; at the end nothing changes; the cursor never passes the end |
| Sessions.AskTimesSpec | main.py:148-172 | k asks in a row leave the cursor at min(start + k, len(quiz)) and change nothing else |
| Sessions.AnsweredSpec | main.py:183-186 | an answer changes only `quiz[cursor - 1]`, and of it only the answer and its time; an empty option list raises; the correct count moves by that question alone |
| Sessions.AnsweredBeforeAsking | main.py:183 | before any question is asked, an answer lands on the last question, or raises on an empty quiz |
| Sessions.FeedbackRootAligned | main.py:189-190 | in an aligned vocabulary quiz, the root fed back is the one at the answered question's position |
| Sessions.WithMoreQuestionsSpec | main.py:211-212 | new questions go after the old ones, which keep their answers; the cursor stays, so once the old questions were all asked the next one asked is the first new one |
| Sessions.MoreQuestionsBreakAlignment | main.py:190-212 | extending a vocabulary quiz leaves more questions than roots, and an answer to a new question raises |
| Sessions.TranslatedSpec | main.py:359-369 | a session's translation is made at most once and then reused; only the translation changes |
| Bot.LearningSession.constructor | data_models.py:142-152 | a new session has no end time, an empty quiz, cursor 0, no keywords and page 0 |
| Bot.UserProfile.constructor | data_models.py:170-174 | a new profile has no sessions and an empty, valid store |
| Bot.AskReplySpec | main.py:148-170 | a poll is sent exactly while questions remain, and it is the one under the cursor; otherwise the summary counts the correct answers out of the quiz's length |
| Bot.AskQuestion | main.py:143-175 | `ask_question_handler` raises on a profile without sessions; otherwise the running session moves on as `AfterAsk` and the reply is `AskReply` |
| Bot.AskSession | main.py:147-172 | the same on one session |
| Bot.Learn | main.py:67-114 | no text: asks for one and changes nothing; otherwise appends one fresh session (the old sessions unchanged), stores the keywords, then the questions, and asks the first one; a failing extraction keeps the keywords |
| Bot.FeedbackSpec | main.py:188-196 | feedback changes only the schedule of the root fed back, and nothing when that root is not stored |
| Bot.AnswerPoll | main.py:178-200 | `ask_question_on_answer_handler`: on an out-of-range cursor, an empty answer or a missing root it raises and changes nothing; otherwise it records the answer, feeds it back to the store as `Feedback`, and asks the next question |
| Bot.AnswerOn | main.py:182-200 | the same on the running session and the store |
| Bot.AnswerSession | main.py:182-190 | the session half: the answer is recorded as `Answered`, and the root to feed back comes out with whether the answer is correct |
| Bot.FeedbackStore | main.py:189-196 | the store half: the store's new model is `Feedback` of the old one |
| Bot.RecordAnswer | main.py:183-186 | only question i changes, and of it only the answer index and time |
| Bot.MoreQuestions | main.py:203-215 | `morequestions_handler` appends the new questions to the running session (as `WithMoreQuestions`) and asks the next one; a failing extraction changes nothing |
| Bot.KeywordCallback | main.py:218-255 | `keywords_on_click_handler`: paging as `PrevPage`/`NextPage`, with the keyboard redrawn only when the page moved; a tap clicks the first matching keyword in the store (quality 3) and shows its summary unless it is on screen; an unknown keyword, a page turn and a raising call leave the store's dictionary and order as they were; a tap adds a new root at the end of the order and keeps every stored object |
| Bot.KeywordCommand | main.py:223-255 | the same, once the button data is split into words, including what becomes of the store's dictionary and order |
| Bot.TurnPage | main.py:225-238 | one page step within bounds; `Unchanged` when the page cannot move |
| Bot.TapKeyword | main.py:239-253 | a tap leaves the session alone and changes the store exactly as `Encountered` with quality 3: a new root goes at the end of the order and every stored object stays; an unknown keyword leaves dictionary and order as they were |
| Bot.TapSelectsWord | main.py:223-241 | a button's data "keyword <word>" splits into two words and selects the first keyword with that word |
| Bot.StopLearn | main.py:302-311 | `stop_learn_handler` records the end time of the running session and nothing else |
| Bot.Translate | main.py:349-374 | words given with the command are translated; otherwise a running session's text is translated once and the translation kept; otherwise there is nothing to translate |
| Bot.VocabQuiz | main.py:449-469 | `vocabquiz_handler` appends one fresh `VocabQuizSession` over the first 20 due vocabularies, asks its first question, and leaves the store unchanged |
| Bot.NewVocabQuiz | main.py:457-465 | the session built is `VocabQuizSession` |
| Bot.VocabQuizFirstAnswer | main.py:457-463 | the first answer of a vocabulary quiz feeds back to the root its question was drawn for |
| Bot.SelectForRefresh | main.py:385-392 | the vocabularies chosen for a refresh are the due objects at the `Selected` positions |
| Bot.SelectPositions | main.py:385-392 | the selection loop, with its early exit at 10, computes `Selected` |
| Bot.SelectStep | main.py:386-392 | one turn of the loop either completes the selection or continues it from the next vocabulary |
| Bot.Gather | main.py:385-389 | the chosen objects, in the chosen order |
| Bot.AddRefreshed | main.py:400-405 | each returned question joins the pool of the selected vocabulary with its root: the model becomes `PoolsExtended`, in the same dictionary and order |
| Bot.RefreshProfile | main.py:377-407 | `refresh_vocab_quiz` for one profile makes the store's model `Refreshed` of the old one, or raises and leaves it unchanged |
| Bot.RefreshStore | main.py:381-407 | the same on the store |
| Bot.ExtendPools | main.py:397-405 | once the vocabularies are selected, the model becomes `PoolsRefreshed` |
| Bot.SelectInStore | main.py:381-392 | the selected objects are stored under their roots, and those roots are the `SelectedRoots` of the due list |
| Bot.RefreshRoots | main.py:386-389 | the selected objects' roots are the selected roots of the store, each naming its own object |
| VocabQuizzes.PooledFromSpec | main.py:457-458 | the `if vocab.quiz` filter keeps exactly the positions with questions, in increasing order |
| VocabQuizzes.PooledFromIncreasing | main.py:457 | the kept positions increase |
| VocabQuizzes.PooledFromHas | main.py:457 | every position with questions is kept |
| VocabQuizzes.Pooled | main.py:457 | every kept position names a vocabulary with questions |
| VocabQuizzes.Choose | main.py:457 | `random.choice` returns a member of the pool |
| VocabQuizzes.Picks | main.py:457 | one question is drawn from each kept pool, in due order |
| VocabQuizzes.PooledRoots | main.py:458 | the roots of the kept vocabularies, in the same order |
| VocabQuizzes.VocabQuizSpec | main.py:454-465 | `quiz` and `vocab_roots` have equal length min(pooled, 10); question i is from the pool of the vocabulary named by root i; positions increase; with at most 10 pools all are used |
| VocabQuizzes.StepSpec | main.py:388-389 | a loop turn appends its position exactly when it picks, keeping the choice increasing |
| VocabQuizzes.Selected | main.py:385-392 | every selected position is a due vocabulary |
| VocabQuizzes.SelectedSpec | main.py:385-392 | at most 10 positions, increasing; every empty pool is selected unless 10 were taken before it; any empty pool means something is selected |
| VocabQuizzes.SelectFromIncreasing | main.py:386-392 | the loop extends what was chosen, stays increasing, and stops at 10 |
| VocabQuizzes.SelectFromTakesEmpty | main.py:386-392 | every empty pool is taken, up to the tenth pick |
| VocabQuizzes.Sizes | main.py:387 | the pool sizes of the due vocabularies |
| VocabQuizzes.SelectedRoots | main.py:385-392 | the selected roots are the roots at the selected positions |
| VocabQuizzes.PoolsExtendedSpec | main.py:400-405 | every root's pool grows by exactly its returned questions, in order; nothing else changes and the store stays sound |
| VocabQuizzes.PoolsExtendedKeys | main.py:400-405 | appending to pools keeps the roots and soundness |
| VocabQuizzes.PoolsExtendedAt | main.py:400-405 | one root's pool after the appends is its old pool followed by its returned questions |
| VocabQuizzes.QuestionsForOthers | main.py:400-405 | a root that no pair names gets no questions |
| VocabQuizzes.RefreshedSelected | main.py:381-395 | when nothing is selected (in particular when nothing is due) the store is left as it is; otherwise the refresh is the pools refreshed for the selected roots, all of them stored |
| VocabQuizzes.SelectedRootsStored | main.py:381-389 | every selected root is stored and due |
| VocabQuizzes.RefreshSelection | main.py:381-395 | at most 10 roots are selected, all due and stored; empty pools are selected unless 10 were taken first; a profile with an empty due pool is never skipped |
| VocabQuizzes.EmptyPoolsSelected | main.py:386-392 | on vocabulary values: empty pools are selected |
| VocabQuizzes.EmptyPoolSelected | main.py:388-389 | one empty pool before the selection's reach is selected |
| VocabQuizzes.RefreshedStore | main.py:377-407 | a successful refresh keeps the store sound with the same roots; unselected roots are unchanged; a selected root changes only by questions that fit a poll, appended at the end of its pool |
| VocabQuizzes.PoolsRefreshedStore | main.py:397-405 | the same, once the roots are selected |
| VocabQuizzes.PoolExtendedAt | main.py:400-405 | the same, for one stored root |
| VocabQuizzes.QuestionsForFit | main.py:397-405 | a root's returned questions all fit a poll when the pairs do |
| QuestionExtractor.AnswerIndexSpec | question_extractor.py:47 | `"abcd".index(answer)` is the first occurrence, below 4; `ValueError` exactly when the answer does not occur |
| QuestionExtractor.AnswerLetters | question_extractor.py:47 | "a", "b", "c", "d" give 0, 1, 2, 3 |
| QuestionExtractor.AnswerNotLetters | question_extractor.py:47 | "A", "b " and "e" raise |
| QuestionExtractor.NotLetter | question_extractor.py:47 | any one-character answer other than a..d raises |
| QuestionExtractor.BuildQuestionFields | question_extractor.py:44-48 | building fails exactly when the answer is not a substring of "abcd" (so "ab" is accepted, as index 0); otherwise options are [a, b, c, d] in order, the index is the answer's first position in "abcd", the explanation is stripped, and nothing is asked or answered yet |
| QuestionExtractor.ExtractedStep | question_extractor.py:43-51 | the first match either aborts the extraction or contributes its kept question in front of the rest |
| QuestionExtractor.ExtractQuestions | question_extractor.py:42-53 | the loop computes `Extracted` |
| QuestionExtractor.ExtractedFitPolls | question_extractor.py:49-51 | every returned question fits a poll and has four options; there are at most as many as matches |
| QuestionExtractor.ExtractedFails | question_extractor.py:43-47 | the extraction fails exactly when some answer is not a substring of "abcd" |
| QuestionExtractor.ExtractedAppend | question_extractor.py:43-51 | the questions of a concatenation are those of each part, in match order |
| QuestionExtractor.ExtractedOne | question_extractor.py:43-51 | one match yields its question, explanation stripped and cut to 200 characters, exactly when it passes validation |
| VocabQuestionExtractor.FirstRootMatch | vocab_question_extractor.py:48-49 | the vocabulary found is a position in the list |
| VocabQuestionExtractor.FirstRootMatchSpec | vocab_question_extractor.py:48-49 | the first root equal case-insensitively, with none before it; or none when no root is equal |
| VocabQuestionExtractor.ExtractVocabQuestions | vocab_question_extractor.py:39-53 | the loop computes `VocabExtracted` |
| VocabQuestionExtractor.VocabExtractedSound | vocab_question_extractor.py:39-53 | every pair names a root of the list, spelled as in the list, and a question that fits a poll with four options; there are at most as many pairs as matches |
| VocabQuestionExtractor.VocabExtractedFails | vocab_question_extractor.py:40-44 | the extraction fails exactly when some answer is not a substring of "abcd" |
| VocabQuestionExtractor.PairedFails | vocab_question_extractor.py:41-45 | one match fails exactly when its answer is not a substring of "abcd" |
| VocabQuestionExtractor.VocabExtractedOne | vocab_question_extractor.py:41-51 | one match yields nothing when its question is invalid or its root matches no vocabulary; otherwise the matched root, in the list's spelling, with the validated question |
| VocabQuestionExtractor.PairedKept | vocab_question_extractor.py:46-51 | for a matched root, the questions contributed are those the plain extraction keeps |
| VocabQuestionExtractor.AllRootsMatched | vocab_question_extractor.py:39-53 | when every root matches, the questions are exactly those of the plain extraction, in the same order |
| DefinitionExtractor.ExtractDefinitions | definition_extractor.py:31-46 | one keyword per match, in match order, each `KeywordOfDefinition` |
| DefinitionExtractor.DefinitionFields | definition_extractor.py:37-43 | word, part of speech and definition are kept, and the snippet is the example; an empty root falls back to the word; a noun with an article gets "art root", and any other root is kept |
| DefinitionExtractor.FahrenMeanings | definition_extractor.py:21-24 | "fahren" as a verb keeps its root; as a noun with "das" it becomes "das Fahren"; an empty root gives the word itself |
| KeywordExtractor.FindSentences | keyword_extractor.py:53-68 | `_find_sentences` returns one entry per keyword, each the first sentence mentioning it, or "" |
| KeywordExtractor.ExtractKeywords | keyword_extractor.py:79-95 | one keyword per match, in match order, and keyword i gets snippet i of the alignment |
| KeywordExtractor.FoundSentenceFirst | keyword_extractor.py:61-64 | a mentioning sentence with none before it is the one found |
| KeywordExtractor.FoundSentenceNone | keyword_extractor.py:61-66 | no mention gives ""; a non-empty snippet is a sentence that mentions the word; with no empty sentences, "" means no mention |
| KeywordExtractor.ExtractedKeywordFields | keyword_extractor.py:81-91 | word, part of speech and definition are kept; a noun with an article gets "art root"; a snippet is a mentioning sentence |
| KeywordExtractor.SnippetIgnoresCase | keyword_extractor.py:58-59 | words equal up to case get the same snippet |

## Left out

- Telegram I/O: replies, polls, keyboards as widgets, the conversation-handler wiring, the job queue and `main`. Handlers return a `Reply` value in their place.
- The language model calls and prompts, and the whole of translation_extractor.py and ask_anything_extractor.py. What the model returns, already parsed, is a parameter. The translation is a function parameter.
- Regular-expression matching and `nltk.sent_tokenize`. Each match is modelled as its captured groups, and the text as its list of sentences. The compiled word-boundary pattern is the predicate parameter `mentions`.
- `UserProfileDB` persistence, which is not part of this model. A profile is an in-memory object, and a handler that raises returns `Err` and changes nothing, because an unsaved profile is discarded.
- Concurrency: asyncio tasks and concurrent updates.
- Clocks: `datetime.now()` and `date.today()` are the parameters `now` and `today`. `VocabEncounter.time` is not modelled.
- Randomness: `random.random()` is the parameter `draw(k)`, the k-th draw, and `random.choice` is the parameter `choice(k)`, an index taken modulo the pool's size.
- Floating point: the ease factor is exact hundredths, so float rounding error is not modelled.
- Unicode case folding: `lower()` maps ASCII and Latin-1 capitals together with ẞ. Other scripts are not modelled.
- Time spent and minute rounding, in `summary_quiz` and `LearningSession.summary`. Only the correct-answer count is modelled.
- `UserProfile.summary`, because it calls `len()` and iteration on `Vocabs`, which that class does not support.
- `define_handler`'s loop over the keywords, `random_text_handler`, `learn_text_handler`, `ask_anything_handler`, `help_handler`, `remind_vocabs` and its handlers, and the loop over all profiles in `refresh_vocab_quiz`. Apart from I/O they chain calls that are modelled (`DefineVocab`, `Learn`, `RemoveIntroducingParagraph`, `RefreshProfile`). One behaviour of that loop is not captured: it catches no exception, so a `ValueError` from one profile's extraction (vocab_question_extractor.py:45) ends the batch for every later profile (main.py:380-407), and through `remind_vocabs` it also ends the reminder loop. The model gives one profile's `Err` only.
- The `if not matched_vocab: continue` in `refresh_vocab_quiz` is never taken, because every returned root is a selected one (`VocabQuestionExtractor.VocabExtractedSound`). A root with no match would make `next(...)` raise `StopIteration`; this cannot happen, so it is not modelled.
- Questions.ValidateTelegramPoll: a value function that returns the verdict together with the truncated question. It does not update the question in place, because a question is a value in this model.
- Bot.AnswerPoll and VocabQuizzes.Picks: the answer is not recorded on the pool's question. In memory, `random.choice(vocab.quiz)` (main.py:457) puts the pool's own `Question` objects into the session's quiz, so the writes at main.py:185-186 land on the pool's question too. A later vocabulary quiz that draws the same question would then count the old answer in `summary_quiz` (data_models.py:159). Whether that sharing survives `set_user_profile` depends on the persistence layer, which is not part of this model. The model copies questions as values.
- Bot.AnswerPoll: checks both indexes before recording anything. The source records the answer before it looks up `vocab_roots`, but a raising handler never saves its profile, so the order makes no difference.
- Bot.AnswerOn: asks the next question before updating the store. The source does the reverse, but the two touch disjoint objects.
- Bot.AnswerPoll: reviews the fed-back root with the parameter qualities of a right and a wrong answer. As written, `vocab.correct_answer()` and `vocab.wrong_answer()` (main.py:194, main.py:196) name methods `Vocab` does not define, so a vocabulary-quiz answer to a stored root raises `AttributeError` before the profile is saved (main.py:198) and nothing is recorded.
- Bot.StopLearn: returns `Ok(())` in place of the reply `session.summary()` (main.py:310). That reply is the correct-answer count `Questions.CorrectCount` over the quiz, the time spent and the keywords' roots.
- Bot.VocabQuiz: states `unchanged(profile.vocabs)` rather than re-stating the store's validity.
