/** The vocabulary quiz on values: which due vocabularies a quiz session is
    built from (`vocabquiz_handler`), which of them a refresh asks new
    questions for, and how the returned questions join their pools
    (`refresh_vocab_quiz`). The random choices are parameters: `choice(k)`
    is what the `k`-th call of `random.choice` picks (modulo the pool's
    size) and `draw(k)` what the `k`-th call of `random.random()` returns. */
module VocabQuizzes {
  import opened Py
  import opened Questions
  import opened Vocabulary
  import opened Sessions
  import opened VocabQuestionExtractor

  /** `vocabquiz_handler` looks at the first 20 due vocabularies and asks at
      most 10 questions. */
  const QUIZ_DUE := 20
  const QUIZ_SIZE := 10
  /** `refresh_vocab_quiz` looks at the first 30 due vocabularies and
      refreshes at most 10. */
  const REFRESH_DUE := 30
  const REFRESH_CAP := 10

  // ---------------------------------------------------------------------
  // Building a quiz session

  /** The positions, from `i` on, of the vocabularies that have questions. */
  function PooledFrom(due: seq<VocabView>, i: nat): (p: seq<nat>)
    requires i <= |due|
    ensures forall k :: 0 <= k < |p| ==> i <= p[k] < |due| && due[p[k]].quiz != []
    decreases |due| - i
  {
    if i == |due| then []
    else (if due[i].quiz != [] then [i] else []) + PooledFrom(due, i + 1)
  }

  /** The positions of the vocabularies the `if vocab.quiz` filter keeps. */
  function Pooled(due: seq<VocabView>): (p: seq<nat>)
    ensures forall k :: 0 <= k < |p| ==> p[k] < |due| && due[p[k]].quiz != []
  {
    PooledFrom(due, 0)
  }

  /** The positions kept are, in increasing order, exactly those of the
      vocabularies with questions. */
  lemma {:induction false} PooledFromSpec(due: seq<VocabView>, i: nat)
    requires i <= |due|
    ensures var p := PooledFrom(due, i);
      && (forall k :: 0 <= k < |p| ==> i <= p[k] < |due| && due[p[k]].quiz != [])
      && (forall k, l :: 0 <= k < l < |p| ==> p[k] < p[l])
      && (forall j :: i <= j < |due| && due[j].quiz != [] ==> j in p)
    decreases |due| - i
  {
    PooledFromIncreasing(due, i);
    forall j | i <= j < |due| && due[j].quiz != [] ensures j in PooledFrom(due, i) {
      PooledFromHas(due, i, j);
    }
  }

  lemma {:induction false} PooledFromIncreasing(due: seq<VocabView>, i: nat)
    requires i <= |due|
    ensures Increasing(PooledFrom(due, i))
    decreases |due| - i
  {
    if i < |due| {
      PooledFromIncreasing(due, i + 1);
      var rest := PooledFrom(due, i + 1);
      if due[i].quiz != [] {
        assert PooledFrom(due, i) == [i] + rest;
        PrependIncreasing(i, rest);
      } else {
        assert PooledFrom(due, i) == rest;
      }
    }
  }

  /** A position before all of an increasing list keeps it increasing. */
  lemma PrependIncreasing(i: nat, rest: seq<nat>)
    requires Increasing(rest) && forall k :: 0 <= k < |rest| ==> i < rest[k]
    ensures Increasing([i] + rest)
  {
    var p := [i] + rest;
    forall k, l | 0 <= k < l < |p| ensures p[k] < p[l] {
      assert p[l] == rest[l - 1];
      if k > 0 {
        assert p[k] == rest[k - 1];
      }
    }
  }

  lemma {:induction false} PooledFromHas(due: seq<VocabView>, i: nat, j: nat)
    requires i <= j < |due| && due[j].quiz != []
    ensures j in PooledFrom(due, i)
    decreases |due| - i
  {
    var rest := PooledFrom(due, i + 1);
    if due[i].quiz != [] {
      var p := [i] + rest;
      assert PooledFrom(due, i) == p;
      if j == i {
        assert p[0] == i;
      } else {
        PooledFromHas(due, i + 1, j);
        var k :| 0 <= k < |rest| && rest[k] == j;
        assert p[k + 1] == j;
      }
    } else {
      assert PooledFrom(due, i) == rest;
      PooledFromHas(due, i + 1, j);
    }
  }

  /** The question a random draw `c` picks from a non-empty pool. */
  function Choose(pool: seq<Question>, c: nat): (q: Question)
    requires pool != []
    ensures q in pool
  {
    pool[c % |pool|]
  }

  /** One question drawn from each pool, in the order of the due list. */
  function Picks(due: seq<VocabView>, choice: nat -> nat): (qs: seq<Question>)
    ensures |qs| == |Pooled(due)|
    ensures forall k :: 0 <= k < |qs| ==> qs[k] == Choose(due[Pooled(due)[k]].quiz, choice(k))
  {
    var p := Pooled(due);
    seq(|p|, k requires 0 <= k < |p| => Choose(due[p[k]].quiz, choice(k)))
  }

  /** The roots of the vocabularies with questions, in the same order. */
  function PooledRoots(due: seq<VocabView>): (rs: seq<string>)
    ensures |rs| == |Pooled(due)|
    ensures forall k :: 0 <= k < |rs| ==> rs[k] == due[Pooled(due)[k]].root
  {
    var p := Pooled(due);
    seq(|p|, k requires 0 <= k < |p| => due[p[k]].root)
  }

  /** The quiz of a vocabulary quiz session: one question drawn from each
      due vocabulary that has questions, in due order, at most 10. */
  function QuizQuestions(due: seq<VocabView>, choice: nat -> nat): seq<Question> {
    Take(Picks(due, choice), QUIZ_SIZE)
  }

  /** The roots of the same vocabularies, in the same order, at most 10. */
  function QuizRoots(due: seq<VocabView>): seq<string> {
    Take(PooledRoots(due), QUIZ_SIZE)
  }

  /** The session `vocabquiz_handler` appends as the `count`-th one. */
  function VocabQuizSession(count: nat, chatId: int, now: int, due: seq<VocabView>, choice: nat -> nat): SessionView {
    NewSession(count, chatId, VOCAB_QUIZ, now).(vocabRoots := QuizRoots(due), quiz := QuizQuestions(due, choice))
  }

  /** A vocabulary quiz asks one question per vocabulary with questions, up
      to 10, in the order of the due list: question `i` comes from the pool
      of the vocabulary whose root is in place `i` of `vocab_roots`. So the
      quiz and its roots line up, and every answer finds its root. */
  lemma VocabQuizSpec(count: nat, chatId: int, now: int, due: seq<VocabView>, choice: nat -> nat)
    ensures var s := VocabQuizSession(count, chatId, now, due, choice);
      var p := Pooled(due);
      && s.text == VOCAB_QUIZ && s.sessionId == count && s.nextQuestionIdx == 0
      && |s.quiz| == |s.vocabRoots| == Sessions.Min(|p|, QUIZ_SIZE)
      && (forall i :: 0 <= i < |s.quiz| ==>
            && p[i] < |due| && due[p[i]].quiz != []
            && s.vocabRoots[i] == due[p[i]].root
            && s.quiz[i] in due[p[i]].quiz)
      && (forall i, j :: 0 <= i < j < |s.quiz| ==> p[i] < p[j])
      && (|p| <= QUIZ_SIZE ==> forall j :: 0 <= j < |due| && due[j].quiz != [] ==> j in p[..|s.quiz|])
  {
    PooledFromSpec(due, 0);
    var p := Pooled(due);
    var qs, rs := Picks(due, choice), PooledRoots(due);
    var s := VocabQuizSession(count, chatId, now, due, choice);
    assert s.quiz <= qs && s.vocabRoots <= rs;
    forall i | 0 <= i < |s.quiz|
      ensures s.vocabRoots[i] == due[p[i]].root && s.quiz[i] in due[p[i]].quiz
    {
      assert s.quiz[i] == qs[i];
      assert s.vocabRoots[i] == rs[i];
    }
    if |p| <= QUIZ_SIZE {
      assert p[..|p|] == p;
    }
  }

  // ---------------------------------------------------------------------
  // Choosing what to refresh

  /** The selection loop of `refresh_vocab_quiz` over the pool sizes of the
      due vocabularies, from position `i`, after `calls` draws and with
      `chosen` selected so far: a vocabulary without questions is always
      taken, one with `n` questions when the next draw is below `1 / n`
      (a draw is made only then); the loop stops once 10 are taken. */
  function SelectFrom(sizes: seq<nat>, draw: nat -> real, i: nat, calls: nat, chosen: seq<nat>): (r: seq<nat>)
    requires i <= |sizes| && forall k :: 0 <= k < |chosen| ==> chosen[k] < i
    ensures forall k :: 0 <= k < |r| ==> r[k] < |sizes|
    decreases |sizes| - i
  {
    if i == |sizes| then chosen
    else
      var n := sizes[i];
      var pick := Takes(n, draw(calls));
      var calls' := if n == 0 then calls else calls + 1;
      var chosen' := Step(chosen, i, pick);
      if |chosen'| >= REFRESH_CAP then chosen' else SelectFrom(sizes, draw, i + 1, calls', chosen')
  }

  /** `chosen` after the loop's turn at position `i`. */
  function Step(chosen: seq<nat>, i: nat, pick: bool): seq<nat> {
    if pick then chosen + [i] else chosen
  }

  /** A turn extends the choice by `i` exactly when it picks, so the choice
      stays increasing and below the next position. */
  lemma StepSpec(chosen: seq<nat>, i: nat, pick: bool)
    requires forall k :: 0 <= k < |chosen| ==> chosen[k] < i
    ensures var c := Step(chosen, i, pick);
      && chosen <= c && |c| == |chosen| + (if pick then 1 else 0)
      && (forall k :: 0 <= k < |c| ==> c[k] < i + 1)
      && (pick ==> c[|c| - 1] == i)
      && (forall j :: j in chosen ==> j in c)
      && (Increasing(chosen) ==> Increasing(c))
  {
    if pick {
      var c := chosen + [i];
      assert forall k :: 0 <= k < |chosen| ==> c[k] == chosen[k];
    }
  }

  /** Whether a vocabulary with a pool of `n` questions is taken for a
      refresh on draw `d`: always when its pool is empty, otherwise with
      chance 1/n. */
  predicate Takes(n: nat, d: real) {
    n == 0 || d < 1.0 / (n as real)
  }

  /** The positions the refresh selects. */
  function Selected(sizes: seq<nat>, draw: nat -> real): (r: seq<nat>)
    ensures forall k :: 0 <= k < |r| ==> r[k] < |sizes|
  {
    SelectFrom(sizes, draw, 0, 0, [])
  }

  /** The selection is at most 10 positions, in increasing order; it takes
      every vocabulary without questions, except those after the tenth
      taken. */
  lemma SelectedSpec(sizes: seq<nat>, draw: nat -> real)
    ensures var r := Selected(sizes, draw);
      && |r| <= REFRESH_CAP
      && (forall k, l :: 0 <= k < l < |r| ==> r[k] < r[l])
      && (forall j :: 0 <= j < |sizes| && sizes[j] == 0 && (|r| < REFRESH_CAP || j < r[|r| - 1]) ==> j in r)
      && ((exists j :: 0 <= j < |sizes| && sizes[j] == 0) ==> r != [])
  {
    SelectFromIncreasing(sizes, draw, 0, 0, []);
    SelectFromTakesEmpty(sizes, draw, 0, 0, []);
    var r := Selected(sizes, draw);
    var reach := Reach(sizes, r);
    assert Increasing(r) && EmptyTaken(sizes, reach, r);
    forall j | 0 <= j < |sizes| && sizes[j] == 0 && (|r| < REFRESH_CAP || j < r[|r| - 1])
      ensures j in r
    {
      assert j < reach;
    }
    if exists j :: 0 <= j < |sizes| && sizes[j] == 0 {
      var j :| 0 <= j < |sizes| && sizes[j] == 0;
      if |r| < REFRESH_CAP {
        assert j < reach && j in r;
      }
    }
  }

  /** The positions in `c` increase. */
  ghost predicate Increasing(c: seq<nat>) {
    forall k, l :: 0 <= k < l < |c| ==> c[k] < c[l]
  }

  /** Every position before `i` without questions is in `c`. */
  ghost predicate EmptyTaken(sizes: seq<nat>, i: nat, c: seq<nat>) {
    forall j :: 0 <= j < i && j < |sizes| && sizes[j] == 0 ==> j in c
  }

  /** The selection extends what was chosen, stays increasing and takes at
      most 10 positions. */
  lemma {:induction false} SelectFromIncreasing(sizes: seq<nat>, draw: nat -> real, i: nat, calls: nat, chosen: seq<nat>)
    requires i <= |sizes| && |chosen| < REFRESH_CAP
    requires forall k :: 0 <= k < |chosen| ==> chosen[k] < i
    requires Increasing(chosen)
    ensures var r := SelectFrom(sizes, draw, i, calls, chosen);
      chosen <= r && |r| <= REFRESH_CAP && Increasing(r)
    decreases |sizes| - i
  {
    if i < |sizes| {
      var n := sizes[i];
      var pick := Takes(n, draw(calls));
      var calls' := if n == 0 then calls else calls + 1;
      var chosen' := Step(chosen, i, pick);
      StepSpec(chosen, i, pick);
      if |chosen'| < REFRESH_CAP {
        SelectFromIncreasing(sizes, draw, i + 1, calls', chosen');
        PrefixTransitive(chosen, chosen', SelectFrom(sizes, draw, i + 1, calls', chosen'));
      }
    }
  }

  lemma PrefixTransitive(a: seq<nat>, b: seq<nat>, c: seq<nat>)
    requires a <= b && b <= c
    ensures a <= c
  {
    assert c[..|a|] == b[..|a|];
  }

  /** How far a selection `r` looked: to the end, or to its tenth pick. */
  function Reach(sizes: seq<nat>, r: seq<nat>): nat {
    if |r| < REFRESH_CAP then |sizes| else r[|r| - 1]
  }

  /** Every position without questions is taken, up to the last position
      taken once 10 are. */
  lemma {:induction false} SelectFromTakesEmpty(sizes: seq<nat>, draw: nat -> real, i: nat, calls: nat, chosen: seq<nat>)
    requires i <= |sizes| && |chosen| < REFRESH_CAP
    requires forall k :: 0 <= k < |chosen| ==> chosen[k] < i
    requires EmptyTaken(sizes, i, chosen)
    ensures var r := SelectFrom(sizes, draw, i, calls, chosen);
      EmptyTaken(sizes, Reach(sizes, r), r)
    decreases |sizes| - i
  {
    if i < |sizes| {
      var n := sizes[i];
      var pick := Takes(n, draw(calls));
      var calls' := if n == 0 then calls else calls + 1;
      var chosen' := Step(chosen, i, pick);
      StepSpec(chosen, i, pick);
      assert EmptyTaken(sizes, i + 1, chosen') by {
        forall j | 0 <= j < i + 1 && j < |sizes| && sizes[j] == 0 ensures j in chosen' {
          if j < i {
            assert j in chosen;
          } else {
            assert chosen'[|chosen'| - 1] == i;
          }
        }
      }
      if |chosen'| < REFRESH_CAP {
        SelectFromTakesEmpty(sizes, draw, i + 1, calls', chosen');
      } else {
        assert Reach(sizes, chosen') == i;
        assert EmptyTaken(sizes, i, chosen');
      }
    }
  }

  /** The pool sizes of the due vocabularies, `len(vocab.quiz)`. */
  function Sizes(due: seq<VocabView>): (r: seq<nat>)
    ensures |r| == |due| && forall i :: 0 <= i < |due| ==> r[i] == |due[i].quiz|
  {
    seq(|due|, i requires 0 <= i < |due| => |due[i].quiz|)
  }

  /** The roots of the vocabularies the refresh selects, in due order. */
  function SelectedRoots(due: seq<VocabView>, draw: nat -> real): (roots: seq<string>)
    ensures var sel := Selected(Sizes(due), draw);
      |roots| == |sel| && forall k :: 0 <= k < |sel| ==> roots[k] == due[sel[k]].root
  {
    var sel := Selected(Sizes(due), draw);
    seq(|sel|, k requires 0 <= k < |sel| => due[sel[k]].root)
  }

  // ---------------------------------------------------------------------
  // Returned questions join their pools

  /** The questions of `pairs` for `root`, in order. */
  function QuestionsFor(pairs: seq<(string, Question)>, root: string): seq<Question> {
    if pairs == [] then []
    else (if pairs[0].0 == root then [pairs[0].1] else []) + QuestionsFor(pairs[1..], root)
  }

  /** The store after each returned question is appended, in order, to the
      pool of the root it was returned with. */
  function PoolsExtended(m: map<string, VocabView>, pairs: seq<(string, Question)>): map<string, VocabView>
    requires forall k :: 0 <= k < |pairs| ==> pairs[k].0 in m
  {
    if pairs == [] then m
    else PoolsExtended(WithQuestion(m, pairs[0].0, pairs[0].1), pairs[1..])
  }

  /** Every root's pool grows by exactly the returned questions for it, in
      order; nothing else in the store changes. */
  lemma {:induction false} PoolsExtendedSpec(m: map<string, VocabView>, pairs: seq<(string, Question)>)
    requires forall k :: 0 <= k < |pairs| ==> pairs[k].0 in m
    ensures var r := PoolsExtended(m, pairs);
      && r.Keys == m.Keys
      && (forall k :: k in m ==> r[k] == m[k].(quiz := m[k].quiz + QuestionsFor(pairs, k)))
      && (SoundStore(m) ==> SoundStore(r))
  {
    PoolsExtendedKeys(m, pairs);
    forall k | k in m
      ensures PoolsExtended(m, pairs)[k] == m[k].(quiz := m[k].quiz + QuestionsFor(pairs, k))
    {
      PoolsExtendedAt(m, pairs, k);
    }
  }

  lemma {:induction false} PoolsExtendedKeys(m: map<string, VocabView>, pairs: seq<(string, Question)>)
    requires forall k :: 0 <= k < |pairs| ==> pairs[k].0 in m
    ensures var r := PoolsExtended(m, pairs);
      r.Keys == m.Keys && (SoundStore(m) ==> SoundStore(r))
  {
    if pairs != [] {
      var (root, q) := pairs[0];
      var m1 := WithQuestion(m, root, q);
      WithQuestionSpec(m, root, q);
      assert forall k :: 0 <= k < |pairs[1..]| ==> pairs[1..][k] == pairs[k + 1];
      PoolsExtendedKeys(m1, pairs[1..]);
    }
  }

  lemma {:induction false} PoolsExtendedAt(m: map<string, VocabView>, pairs: seq<(string, Question)>, k: string)
    requires forall k :: 0 <= k < |pairs| ==> pairs[k].0 in m
    requires k in m
    ensures var r := PoolsExtended(m, pairs);
      k in r && r[k] == m[k].(quiz := m[k].quiz + QuestionsFor(pairs, k))
  {
    if pairs != [] {
      var (root, q) := pairs[0];
      var m1 := WithQuestion(m, root, q);
      WithQuestionSpec(m, root, q);
      assert forall k :: 0 <= k < |pairs[1..]| ==> pairs[1..][k] == pairs[k + 1];
      PoolsExtendedAt(m1, pairs[1..], k);
      assert PoolsExtended(m, pairs) == PoolsExtended(m1, pairs[1..]);
      var rest := QuestionsFor(pairs[1..], k);
      if k == root {
        assert QuestionsFor(pairs, k) == [q] + rest;
        assert m[k].quiz + [q] + rest == m[k].quiz + ([q] + rest);
      } else {
        assert QuestionsFor(pairs, k) == [] + rest == rest;
      }
    } else {
      assert m[k].quiz + [] == m[k].quiz;
    }
  }

  /** The questions for a root no pair names are none. */
  lemma {:induction false} QuestionsForOthers(pairs: seq<(string, Question)>, roots: seq<string>, root: string)
    requires forall k :: 0 <= k < |pairs| ==> pairs[k].0 in roots
    requires root !in roots
    ensures QuestionsFor(pairs, root) == []
  {
    if pairs != [] {
      assert pairs[0].0 in roots;
      QuestionsForOthers(pairs[1..], roots, root);
    }
  }

  // ---------------------------------------------------------------------
  // One profile refreshed

  /** `refresh_vocab_quiz` for one profile, on the store as a value: no due
      vocabulary (among the first 30) or none selected leaves the store as
      it is; otherwise the language model's matches for the selected
      vocabularies are paired back to their roots, and each question joins
      its root's pool; a match whose answer is not a substring of "abcd" raises. */
  function Refreshed(m: map<string, VocabView>, order: seq<string>, today: int, draw: nat -> real,
                     matches: seq<VocabQuestionMatch>): Result<map<string, VocabView>>
    requires SoundStore(m) && Listed(order, m.Keys)
  {
    var due := DueViews(m, order, REFRESH_DUE, today);
    if due == [] then Ok(m)
    else
      var roots := SelectedRoots(due, draw);
      if roots == [] then Ok(m)
      else
        SelectedRootsStored(m, order, today, draw);
        PoolsRefreshed(m, roots, matches)
  }

  /** The second half of `refresh_vocab_quiz`, once `roots` are selected:
      the matches are paired back to the roots, and each question joins its
      root's pool. */
  function PoolsRefreshed(m: map<string, VocabView>, roots: seq<string>, matches: seq<VocabQuestionMatch>)
    : Result<map<string, VocabView>>
    requires forall k :: 0 <= k < |roots| ==> roots[k] in m
  {
    match VocabExtracted(matches, roots)
    case Err(e) => Err(e)
    case Ok(pairs) =>
      VocabExtractedSound(matches, roots);
      Ok(PoolsExtended(m, pairs))
  }

  /** A refresh with nothing selected leaves the store as it is, whether
      nothing was due or the draws took nothing; otherwise it is the pools
      refreshed for the selected roots, all of which are stored. */
  lemma RefreshedSelected(m: map<string, VocabView>, order: seq<string>, today: int, draw: nat -> real,
                          matches: seq<VocabQuestionMatch>)
    requires SoundStore(m) && Listed(order, m.Keys)
    ensures var roots := SelectedRoots(DueViews(m, order, REFRESH_DUE, today), draw);
      && (forall k :: 0 <= k < |roots| ==> roots[k] in m)
      && Refreshed(m, order, today, draw, matches) == if roots == [] then Ok(m) else PoolsRefreshed(m, roots, matches)
  {
    SelectedRootsStored(m, order, today, draw);
    var due := DueViews(m, order, REFRESH_DUE, today);
    if due == [] {
      assert SelectedRoots(due, draw) == [];
    }
  }

  /** Every selected root is a stored root that is due. */
  lemma SelectedRootsStored(m: map<string, VocabView>, order: seq<string>, today: int, draw: nat -> real)
    requires SoundStore(m) && Listed(order, m.Keys)
    ensures var roots := SelectedRoots(DueViews(m, order, REFRESH_DUE, today), draw);
      forall k :: 0 <= k < |roots| ==> roots[k] in m && roots[k] in DueRoots(m, order, REFRESH_DUE, today)
  {
    var due := DueViews(m, order, REFRESH_DUE, today);
    var dueRoots := DueRoots(m, order, REFRESH_DUE, today);
    var sel := Selected(Sizes(due), draw);
    forall k | 0 <= k < |sel|
      ensures SelectedRoots(due, draw)[k] in dueRoots
    {
      assert SelectedRoots(due, draw)[k] == dueRoots[sel[k]];
    }
  }

  /** The refresh selects at most 10 due roots, every one of them due and
      stored; every due vocabulary with an empty pool is selected unless ten
      were selected before reaching it; and a profile with such a
      vocabulary is never skipped. */
  lemma RefreshSelection(m: map<string, VocabView>, order: seq<string>, today: int, draw: nat -> real)
    requires SoundStore(m) && Listed(order, m.Keys)
    ensures var due := DueViews(m, order, REFRESH_DUE, today);
      var roots := SelectedRoots(due, draw);
      var sel := Selected(Sizes(due), draw);
      && |roots| <= REFRESH_CAP
      && (forall k :: 0 <= k < |roots| ==> roots[k] in m && roots[k] in DueRoots(m, order, REFRESH_DUE, today))
      && (forall j :: 0 <= j < |due| && due[j].quiz == [] && (|sel| < REFRESH_CAP || j < sel[|sel| - 1]) ==>
            due[j].root in roots)
      && ((exists j :: 0 <= j < |due| && due[j].quiz == []) ==> roots != [])
  {
    var due := DueViews(m, order, REFRESH_DUE, today);
    SelectedSpec(Sizes(due), draw);
    SelectedRootsStored(m, order, today, draw);
    EmptyPoolsSelected(due, draw);
  }

  /** The selection over vocabulary values takes those with empty pools. */
  lemma EmptyPoolsSelected(due: seq<VocabView>, draw: nat -> real)
    ensures var roots := SelectedRoots(due, draw);
      var sel := Selected(Sizes(due), draw);
      && (forall j :: 0 <= j < |due| && due[j].quiz == [] && (|sel| < REFRESH_CAP || j < sel[|sel| - 1]) ==>
            due[j].root in roots)
      && ((exists j :: 0 <= j < |due| && due[j].quiz == []) ==> roots != [])
  {
    var sizes := Sizes(due);
    var sel := Selected(sizes, draw);
    var roots := SelectedRoots(due, draw);
    SelectFromTakesEmpty(sizes, draw, 0, 0, []);
    forall j | 0 <= j < |due| && due[j].quiz == [] && (|sel| < REFRESH_CAP || j < sel[|sel| - 1])
      ensures due[j].root in roots
    {
      EmptyPoolSelected(due, draw, j);
    }
    if exists j :: 0 <= j < |due| && due[j].quiz == [] {
      var j :| 0 <= j < |due| && due[j].quiz == [];
      if |sel| < REFRESH_CAP {
        EmptyPoolSelected(due, draw, j);
      }
    }
  }

  /** One vocabulary with an empty pool, before the reach of the
      selection, is selected. */
  lemma EmptyPoolSelected(due: seq<VocabView>, draw: nat -> real, j: nat)
    requires j < |due| && due[j].quiz == []
    requires var sizes := Sizes(due);
      EmptyTaken(sizes, Reach(sizes, Selected(sizes, draw)), Selected(sizes, draw))
    requires var sel := Selected(Sizes(due), draw); |sel| < REFRESH_CAP || j < sel[|sel| - 1]
    ensures due[j].root in SelectedRoots(due, draw)
  {
    var sizes := Sizes(due);
    var sel := Selected(sizes, draw);
    assert sizes[j] == 0 && j < Reach(sizes, sel);
    assert j in sel;
    var k :| 0 <= k < |sel| && sel[k] == j;
    assert SelectedRoots(due, draw)[k] == due[j].root;
  }

  /** A refresh that succeeds keeps the store sound and its roots; a root
      not selected is unchanged, and a selected one changes only by the
      questions returned for it, appended to its pool in order, each of
      which fits a poll. */
  lemma RefreshedStore(m: map<string, VocabView>, order: seq<string>, today: int, draw: nat -> real,
                       matches: seq<VocabQuestionMatch>)
    requires SoundStore(m) && Listed(order, m.Keys)
    requires Refreshed(m, order, today, draw, matches).Ok?
    ensures var r := Refreshed(m, order, today, draw, matches).value;
      var roots := SelectedRoots(DueViews(m, order, REFRESH_DUE, today), draw);
      && SoundStore(r) && r.Keys == m.Keys
      && (forall k :: k in m && k !in roots ==> r[k] == m[k])
      && (forall k :: k in m ==> r[k] == m[k].(quiz := r[k].quiz) && m[k].quiz <= r[k].quiz)
      && (forall k, i :: k in m && |m[k].quiz| <= i < |r[k].quiz| ==> FitsPoll(r[k].quiz[i]))
  {
    RefreshedSelected(m, order, today, draw, matches);
    var roots := SelectedRoots(DueViews(m, order, REFRESH_DUE, today), draw);
    if roots != [] {
      PoolsRefreshedStore(m, roots, matches);
    } else {
      assert Refreshed(m, order, today, draw, matches).value == m;
    }
  }

  /** Refreshing the pools of stored roots keeps the store sound and its
      roots, and changes only the pools of those roots, each by questions
      that fit a poll appended at its end. */
  lemma PoolsRefreshedStore(m: map<string, VocabView>, roots: seq<string>, matches: seq<VocabQuestionMatch>)
    requires SoundStore(m) && forall k :: 0 <= k < |roots| ==> roots[k] in m
    requires PoolsRefreshed(m, roots, matches).Ok?
    ensures var r := PoolsRefreshed(m, roots, matches).value;
      && SoundStore(r) && r.Keys == m.Keys
      && (forall k :: k in m && k !in roots ==> r[k] == m[k])
      && (forall k :: k in m ==> r[k] == m[k].(quiz := r[k].quiz) && m[k].quiz <= r[k].quiz)
      && (forall k, i :: k in m && |m[k].quiz| <= i < |r[k].quiz| ==> FitsPoll(r[k].quiz[i]))
  {
    var pairs := VocabExtracted(matches, roots).value;
    VocabExtractedSound(matches, roots);
    assert forall k :: 0 <= k < |pairs| ==> pairs[k].0 in m;
    PoolsExtendedKeys(m, pairs);
    var r := PoolsExtended(m, pairs);
    forall k | k in m
      ensures r[k] == m[k].(quiz := r[k].quiz) && m[k].quiz <= r[k].quiz
      ensures forall i :: |m[k].quiz| <= i < |r[k].quiz| ==> FitsPoll(r[k].quiz[i])
      ensures k !in roots ==> r[k] == m[k]
    {
      PoolExtendedAt(m, pairs, roots, k);
    }
  }

  /** One stored root after its pool is extended by the returned pairs. */
  lemma PoolExtendedAt(m: map<string, VocabView>, pairs: seq<(string, Question)>, roots: seq<string>, k: string)
    requires forall j :: 0 <= j < |pairs| ==> pairs[j].0 in m && pairs[j].0 in roots && FitsPoll(pairs[j].1)
    requires k in m
    ensures var r := PoolsExtended(m, pairs);
      && k in r && r[k] == m[k].(quiz := r[k].quiz) && m[k].quiz <= r[k].quiz
      && (forall i :: |m[k].quiz| <= i < |r[k].quiz| ==> FitsPoll(r[k].quiz[i]))
      && (k !in roots ==> r[k] == m[k])
  {
    PoolsExtendedAt(m, pairs, k);
    QuestionsForFit(pairs, k);
    var r := PoolsExtended(m, pairs);
    var qs := QuestionsFor(pairs, k);
    assert r[k].quiz == m[k].quiz + qs;
    forall i | |m[k].quiz| <= i < |r[k].quiz| ensures FitsPoll(r[k].quiz[i]) {
      assert r[k].quiz[i] == qs[i - |m[k].quiz|];
    }
    if k !in roots {
      QuestionsForOthers(pairs, roots, k);
      assert m[k].quiz + [] == m[k].quiz;
    }
  }

  /** The questions for one root are among those of the pairs. */
  lemma {:induction false} QuestionsForFit(pairs: seq<(string, Question)>, root: string)
    requires forall k :: 0 <= k < |pairs| ==> FitsPoll(pairs[k].1)
    ensures forall q :: q in QuestionsFor(pairs, root) ==> FitsPoll(q)
  {
    if pairs != [] {
      assert FitsPoll(pairs[0].1);
      QuestionsForFit(pairs[1..], root);
    }
  }
}
