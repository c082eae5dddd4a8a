/** The vocabulary store: one `Vocab` per root, each carrying its review
    schedule, the encounters that introduced it and a pool of quiz
    questions; and `Vocabs`, the per-user dictionary of them. */
module Vocabulary {
  import opened Py
  import opened Scheduler
  import opened Keywords
  import opened Questions
  import Ordering

  /** One sighting of a root (`VocabEncounter`); the wall-clock time is
      not modelled. */
  datatype VocabEncounter = VocabEncounter(sessionId: int, word: string, snippet: string, definition: string)

  /** The encounter `Vocab.from_keyword` records for a keyword. */
  function EncounterOf(keyword: Keyword, sessionId: int): VocabEncounter {
    VocabEncounter(sessionId, keyword.word, keyword.snippet, keyword.definition)
  }

  /** The whole state of a `Vocab`, as a value. */
  datatype VocabView = VocabView(
    root: string,
    encounters: seq<VocabEncounter>,
    schedule: Schedule,
    quiz: seq<Question>)

  class Vocab {
    const root: string
    var encounters: seq<VocabEncounter>
    var easeFactor: int             // hundredths
    var lastReview: Option<int>
    var nextReview: Option<int>
    var interval: int
    var repetitions: int
    /** The question pool the vocabulary quiz draws from. */
    var quiz: seq<Question>

    function Schedule(): Schedule
      reads this
    {
      Scheduler.Schedule(easeFactor, lastReview, nextReview, interval, repetitions)
    }

    function View(): VocabView
      reads this
    {
      VocabView(root, encounters, Schedule(), quiz)
    }

    constructor (root: string)
      ensures View() == VocabView(root, [], INITIAL, [])
    {
      this.root := root;
      encounters := [];
      easeFactor := 250;
      lastReview := None;
      nextReview := None;
      interval := 0;
      repetitions := 0;
      quiz := [];
    }

    /** `Vocab.from_keyword`: a new root with exactly one encounter, built
        from the keyword. */
    static method FromKeyword(keyword: Keyword, sessionId: int) returns (v: Vocab)
      ensures fresh(v)
      ensures v.View() == VocabView(keyword.root, [EncounterOf(keyword, sessionId)], INITIAL, [])
    {
      v := new Vocab(keyword.root);
      v.encounters := v.encounters + [EncounterOf(keyword, sessionId)];
    }

    /** `Vocab.update`: one review, field by field. A quality outside 0..5
        raises `ValueError` and changes nothing. */
    method Update(quality: int, today: int) returns (r: Result<()>)
      modifies this
      ensures r.Err? <==> !ValidQuality(quality)
      ensures r.Err? ==> r.error == ValueError && View() == old(View())
      ensures r.Ok? ==> View() == old(View()).(schedule := Reviewed(old(Schedule()), quality, today))
    {
      if quality < 0 || quality > 5 {
        return Err(ValueError);
      }
      easeFactor := easeFactor + EaseDelta(quality);
      if easeFactor < MIN_EASE {
        easeFactor := MIN_EASE;
      }
      repetitions := repetitions + 1;
      if quality < 3 {
        repetitions := 0;
      }
      if repetitions == 1 {
        interval := 1;
      } else if repetitions == 2 {
        interval := 6;
      } else {
        interval := Truncate(interval * easeFactor, 100);
      }
      lastReview := Some(today);
      nextReview := Some(today + interval);
      return Ok(());
    }
  }

  // ---------------------------------------------------------------------
  // The store as a value

  /** The fixed qualities of the three ways a root is met. */
  const DEFINE_QUALITY := 1
  const CLICK_QUALITY := 3
  const IGNORE_QUALITY := 5

  /** What `define_vocab`, `click_keyword` and `ignore_keyword` do to the
      store: create the root from the keyword when it is absent, then
      review it with the given quality. */
  function Encountered(m: map<string, VocabView>, keyword: Keyword, sessionId: int, quality: int, today: int)
    : map<string, VocabView>
    requires ValidQuality(quality)
  {
    var before :=
      if keyword.root in m then m[keyword.root]
      else VocabView(keyword.root, [EncounterOf(keyword, sessionId)], INITIAL, []);
    m[keyword.root := before.(schedule := Reviewed(before.schedule, quality, today))]
  }

  /** Only the keyword's root changes, and it is present afterwards. */
  lemma EncounteredOnlyRoot(m: map<string, VocabView>, keyword: Keyword, sessionId: int, quality: int, today: int)
    requires ValidQuality(quality)
    ensures var r := Encountered(m, keyword, sessionId, quality, today);
      && r.Keys == m.Keys + {keyword.root}
      && forall k :: k in m && k != keyword.root ==> r[k] == m[k]
  {
  }

  /** A new root gets exactly one encounter, built from the keyword, an
      empty pool and one review from the initial schedule. */
  lemma EncounteredNewRoot(m: map<string, VocabView>, keyword: Keyword, sessionId: int, quality: int, today: int)
    requires ValidQuality(quality) && keyword.root !in m
    ensures var v := Encountered(m, keyword, sessionId, quality, today)[keyword.root];
      && v.root == keyword.root
      && v.encounters == [EncounterOf(keyword, sessionId)]
      && v.quiz == []
      && v.schedule == Reviewed(INITIAL, quality, today)
  {
  }

  /** An existing root keeps its encounters and its pool; only its
      schedule advances. */
  lemma EncounteredExistingRoot(m: map<string, VocabView>, keyword: Keyword, sessionId: int, quality: int, today: int)
    requires ValidQuality(quality) && keyword.root in m
    ensures var v := Encountered(m, keyword, sessionId, quality, today)[keyword.root];
      && v.encounters == m[keyword.root].encounters
      && v.quiz == m[keyword.root].quiz
      && v.schedule == Reviewed(m[keyword.root].schedule, quality, today)
  {
  }

  /** A definition lookup of a word never seen before leaves it due the
      same day, with no repetition counted: the quality-1 review keeps the
      interval at 0. */
  lemma DefineNewRootDueToday(m: map<string, VocabView>, keyword: Keyword, sessionId: int, today: int)
    requires keyword.root !in m
    ensures var s := Encountered(m, keyword, sessionId, DEFINE_QUALITY, today)[keyword.root].schedule;
      s.nextReview == Some(today) && s.repetitions == 0 && s.interval == 0
  {
    NewRootScenario(today);
  }

  /** Every root of the store names its own entry, and every schedule is
      sound and has been reviewed (the store never holds an unreviewed
      root: each one is reviewed as soon as it is created). */
  predicate SoundStore(m: map<string, VocabView>) {
    forall k :: k in m ==>
      && m[k].root == k
      && Sound(m[k].schedule)
      && m[k].schedule.nextReview.Some?
  }

  /** Every root of the store names its own entry. */
  predicate SelfNamed(m: map<string, VocabView>) {
    forall k :: k in m ==> m[k].root == k
  }

  /** `order` lists every key of the store exactly once. */
  predicate Listed(order: seq<string>, keys: set<string>) {
    && (forall i, j :: 0 <= i < j < |order| ==> order[i] != order[j])
    && (forall k :: k in keys ==> k in order)
    && (forall i :: 0 <= i < |order| ==> order[i] in keys)
  }

  /** The three encounter methods keep the store sound. */
  lemma EncounteredSound(m: map<string, VocabView>, keyword: Keyword, sessionId: int, quality: int, today: int)
    requires ValidQuality(quality) && SoundStore(m)
    ensures SoundStore(Encountered(m, keyword, sessionId, quality, today))
  {
    var before :=
      if keyword.root in m then m[keyword.root]
      else VocabView(keyword.root, [EncounterOf(keyword, sessionId)], INITIAL, []);
    InitialSound();
    ReviewedSound(before.schedule, quality, today);
  }

  /** One stored root reviewed, on values. */
  function ReviewedRoot(m: map<string, VocabView>, root: string, quality: int, today: int): map<string, VocabView>
    requires ValidQuality(quality) && root in m
  {
    m[root := m[root].(schedule := Reviewed(m[root].schedule, quality, today))]
  }

  /** A review keeps the store sound, changes only the schedule of its
      root and keeps every other root as it was. */
  lemma ReviewedRootSpec(m: map<string, VocabView>, root: string, quality: int, today: int)
    requires ValidQuality(quality) && root in m && SoundStore(m)
    ensures var r := ReviewedRoot(m, root, quality, today);
      && SoundStore(r) && r.Keys == m.Keys
      && r[root] == m[root].(schedule := Reviewed(m[root].schedule, quality, today))
      && forall k :: k in m && k != root ==> r[k] == m[k]
  {
    ReviewedSound(m[root].schedule, quality, today);
    ReviewedDates(m[root].schedule, quality, today);
  }

  /** One question added to the pool of a stored root, on values. */
  function WithQuestion(m: map<string, VocabView>, root: string, q: Question): map<string, VocabView>
    requires root in m
  {
    m[root := m[root].(quiz := m[root].quiz + [q])]
  }

  /** Adding to a pool keeps the store sound and touches nothing else. */
  lemma WithQuestionSpec(m: map<string, VocabView>, root: string, q: Question)
    requires root in m
    ensures var r := WithQuestion(m, root, q);
      && r.Keys == m.Keys
      && (SoundStore(m) ==> SoundStore(r))
      && r[root] == m[root].(quiz := m[root].quiz + [q])
      && forall k :: k in m && k != root ==> r[k] == m[k]
  {
  }

  /** The shape of the store after `Vocabs.Insert`, on values. */
  lemma InsertKeeps(d: map<string, Vocab>, m: map<string, VocabView>, order: seq<string>, v: Vocab, view: VocabView)
    requires d.Keys == m.Keys && Listed(order, m.Keys) && SelfNamed(m)
    requires v.root !in d && view.root == v.root
    ensures d[v.root := v].Keys == m[v.root := view].Keys
    ensures Listed(order + [v.root], m[v.root := view].Keys)
    ensures SelfNamed(m[v.root := view])
    ensures forall k :: k in d && k != v.root ==> d[v.root := v][k] == d[k] && m[v.root := view][k] == m[k]
  {
    ListedAppend(order, m.Keys, v.root);
    assert m[v.root := view].Keys == m.Keys + {v.root};
  }

  /** Updating one key adds it and leaves every other entry alone. */
  lemma UpdateKeeps<K, V>(m: map<K, V>, k: K, v: V)
    ensures m[k := v].Keys == m.Keys + {k} && m[k := v][k] == v
    ensures forall j :: j in m && j != k ==> m[k := v][j] == m[j]
  {
  }

  lemma UpdateTwice<K, V>(m: map<K, V>, k: K, a: V, b: V)
    ensures m[k := a][k := b] == m[k := b]
  {
  }

  /** A new root goes at the end of the insertion order. */
  lemma ListedAppend(order: seq<string>, keys: set<string>, root: string)
    requires Listed(order, keys) && root !in keys
    ensures Listed(order + [root], keys + {root})
  {
  }

  /** The day a stored root is due. */
  function NextReview(m: map<string, VocabView>, k: string): int
    requires SoundStore(m) && k in m
  {
    m[k].schedule.nextReview.value
  }

  /** The roots of `keys` as `(next_review, root)` entries, in order. */
  function Entries(m: map<string, VocabView>, keys: seq<string>): (r: seq<(int, string)>)
    requires SoundStore(m)
    requires forall i :: 0 <= i < |keys| ==> keys[i] in m
    ensures |r| == |keys|
    ensures forall i :: 0 <= i < |keys| ==> r[i] == (NextReview(m, keys[i]), keys[i])
  {
    if keys == [] then []
    else [(NextReview(m, keys[0]), keys[0])] + Entries(m, keys[1..])
  }

  /** The roots of a list of entries. */
  function RootsOf(entries: seq<(int, string)>): (r: seq<string>)
    ensures |r| == |entries| && forall i :: 0 <= i < |r| ==> r[i] == entries[i].1
  {
    seq(|entries|, i requires 0 <= i < |entries| => entries[i].1)
  }

  /** `due_vocabs(n)` on the store as a value, by root: at most `n`
      distinct roots due by `today`, earliest first; no due root left out
      is due earlier than one chosen; and fewer than `n` only when every
      due root is chosen, so the length is min(n, number due). Ties keep
      insertion order (`Ordering.SortStable`). */
  function DueRoots(m: map<string, VocabView>, order: seq<string>, n: int, today: int): (r: seq<string>)
    requires SoundStore(m) && Listed(order, m.Keys)
    ensures n >= 0 ==> |r| <= n
    ensures forall i :: 0 <= i < |r| ==> r[i] in m && NextReview(m, r[i]) <= today
    ensures forall i, j :: 0 <= i < j < |r| ==> NextReview(m, r[i]) <= NextReview(m, r[j])
    ensures forall k :: k in m && NextReview(m, k) <= today && k !in r ==>
              forall i :: 0 <= i < |r| ==> NextReview(m, r[i]) <= NextReview(m, k)
    ensures n >= |order| || (n >= 0 && |r| < n) ==> forall k :: k in m && NextReview(m, k) <= today ==> k in r
    ensures forall i, j :: 0 <= i < j < |r| ==> r[i] != r[j]
  {
    var entries := Entries(m, order);
    var due := Ordering.Earliest(entries, today, n);
    DueRootsFacts(m, order, entries, due, n, today);
    DueRootsDistinct(m, order, entries, due, n, today);
    RootsOf(due)
  }

  lemma DueRootsFacts(m: map<string, VocabView>, order: seq<string>, entries: seq<(int, string)>,
                      due: seq<(int, string)>, n: int, today: int)
    requires SoundStore(m) && Listed(order, m.Keys)
    requires entries == Entries(m, order) && due == Ordering.Earliest(entries, today, n)
    ensures var r := RootsOf(due);
      && (forall i :: 0 <= i < |r| ==> r[i] in m && NextReview(m, r[i]) == due[i].0 && due[i].0 <= today)
      && (forall k :: k in m && NextReview(m, k) <= today && k !in r ==>
            forall i :: 0 <= i < |r| ==> NextReview(m, r[i]) <= NextReview(m, k))
      && (n >= |order| || (n >= 0 && |r| < n) ==> forall k :: k in m && NextReview(m, k) <= today ==> k in r)
  {
    DueRootsChosen(m, order, entries, due, n, today);
    forall k | k in m && NextReview(m, k) <= today
      ensures k !in RootsOf(due) ==> forall i :: 0 <= i < |due| ==> due[i].0 <= NextReview(m, k)
      ensures n >= |order| || (n >= 0 && |due| < n) ==> k in RootsOf(due)
    {
      DueRootsOne(m, order, entries, due, n, today, k);
    }
  }

  lemma DueRootsChosen(m: map<string, VocabView>, order: seq<string>, entries: seq<(int, string)>,
                       due: seq<(int, string)>, n: int, today: int)
    requires SoundStore(m) && Listed(order, m.Keys)
    requires entries == Entries(m, order) && due == Ordering.Earliest(entries, today, n)
    ensures forall i :: 0 <= i < |due| ==> due[i].1 in m && NextReview(m, due[i].1) == due[i].0 && due[i].0 <= today
  {
    forall i | 0 <= i < |due|
      ensures due[i].1 in m && NextReview(m, due[i].1) == due[i].0
    {
      var j :| 0 <= j < |entries| && entries[j] == due[i];
    }
  }

  lemma DueRootsOne(m: map<string, VocabView>, order: seq<string>, entries: seq<(int, string)>,
                    due: seq<(int, string)>, n: int, today: int, k: string)
    requires SoundStore(m) && Listed(order, m.Keys)
    requires entries == Entries(m, order) && due == Ordering.Earliest(entries, today, n)
    requires k in m && NextReview(m, k) <= today
    ensures k !in RootsOf(due) ==> forall i :: 0 <= i < |due| ==> due[i].0 <= NextReview(m, k)
    ensures n >= |order| || (n >= 0 && |due| < n) ==> k in RootsOf(due)
  {
    var j :| 0 <= j < |order| && order[j] == k;
    assert entries[j] == (NextReview(m, k), k);
    if k !in RootsOf(due) {
      DueRootsLeftOut(entries, due, today, j, k);
    }
    if n >= |order| || (n >= 0 && |due| < n) {
      DueRootsAll(entries, due, j, k);
    }
  }

  /** No root is chosen twice: the entries carry distinct roots, and each
      chosen entry is the one entry of its root. */
  lemma DueRootsDistinct(m: map<string, VocabView>, order: seq<string>, entries: seq<(int, string)>,
                         due: seq<(int, string)>, n: int, today: int)
    requires SoundStore(m) && Listed(order, m.Keys)
    requires entries == Entries(m, order) && due == Ordering.Earliest(entries, today, n)
    ensures var r := RootsOf(due); forall i, j :: 0 <= i < j < |r| ==> r[i] != r[j]
  {
    assert Ordering.Distinct(entries) by {
      forall i, j | 0 <= i < j < |entries| ensures entries[i] != entries[j] {
        assert entries[i].1 == order[i] && entries[j].1 == order[j];
      }
    }
    DueRootsChosen(m, order, entries, due, n, today);
    var r := RootsOf(due);
    forall i, j | 0 <= i < j < |r| ensures r[i] != r[j] {
      assert due[i] != due[j];
    }
  }

  /** A due root not among the chosen ones is due no earlier than them. */
  lemma DueRootsLeftOut(entries: seq<(int, string)>, due: seq<(int, string)>, today: int, j: nat, k: string)
    requires j < |entries| && entries[j].1 == k && entries[j].0 <= today && k !in RootsOf(due)
    requires forall p :: 0 <= p < |entries| && entries[p].0 <= today && entries[p] !in due ==>
               forall i :: 0 <= i < |due| ==> due[i].0 <= entries[p].0
    ensures forall i :: 0 <= i < |due| ==> due[i].0 <= entries[j].0
  {
    var r := RootsOf(due);
    forall i | 0 <= i < |due| ensures due[i] != entries[j] {
      assert r[i] == due[i].1;
    }
  }

  /** When every entry may be chosen, a due root is among the chosen. */
  lemma DueRootsAll(entries: seq<(int, string)>, due: seq<(int, string)>, j: nat, k: string)
    requires j < |entries| && entries[j].1 == k && entries[j] in due
    ensures k in RootsOf(due)
  {
    var i :| 0 <= i < |due| && due[i] == entries[j];
    assert RootsOf(due)[i] == k;
  }

  /** The due vocabularies as values, in `DueRoots` order. */
  function DueViews(m: map<string, VocabView>, order: seq<string>, n: int, today: int): (r: seq<VocabView>)
    requires SoundStore(m) && Listed(order, m.Keys)
    ensures var roots := DueRoots(m, order, n, today);
      |r| == |roots| && forall i :: 0 <= i < |r| ==> r[i] == m[roots[i]] && r[i].root == roots[i]
  {
    var roots := DueRoots(m, order, n, today);
    seq(|roots|, i requires 0 <= i < |roots| => m[roots[i]])
  }

  /** The states of a list of vocabulary objects, in order. */
  function Views(vs: seq<Vocab>): (r: seq<VocabView>)
    reads vs
    ensures |r| == |vs| && forall i :: 0 <= i < |vs| ==> r[i] == vs[i].View()
  {
    seq(|vs|, i requires 0 <= i < |vs| reads vs => vs[i].View())
  }

  // ---------------------------------------------------------------------
  // The store

  class Vocabs {
    var dictionary: map<string, Vocab>
    /** The roots in insertion order, the order a Python dict iterates in. */
    var order: seq<string>
    /** The store as a value: each root's `Vocab.View()`. */
    ghost var model: map<string, VocabView>

    /** The objects agree with `model`, and `order` lists its roots. */
    ghost predicate Coupled()
      reads this, dictionary.Values
    {
      && dictionary.Keys == model.Keys
      && (forall k :: k in dictionary ==> dictionary[k].View() == model[k])
      && SelfNamed(model)
      && Listed(order, model.Keys)
    }

    ghost predicate Valid()
      reads this, dictionary.Values
    {
      Coupled() && SoundStore(model)
    }

    function View(): map<string, VocabView>
      reads this, dictionary.Values
    {
      map k | k in dictionary :: dictionary[k].View()
    }

    lemma ViewIsModel()
      requires Valid()
      ensures View() == model
    {
    }

    constructor ()
      ensures Valid() && model == map[] && order == []
    {
      dictionary := map[];
      order := [];
      model := map[];
    }

    /** Adds a new root built from the keyword, at the end of the order. */
    method AddRoot(keyword: Keyword, sessionId: int)
      requires Coupled() && keyword.root !in dictionary
      modifies this
      ensures Coupled()
      ensures model == old(model)[keyword.root := VocabView(keyword.root, [EncounterOf(keyword, sessionId)], INITIAL, [])]
      ensures order == old(order) + [keyword.root]
      ensures keyword.root in dictionary && fresh(dictionary[keyword.root])
      ensures dictionary == old(dictionary)[keyword.root := dictionary[keyword.root]]
    {
      var v := Vocab.FromKeyword(keyword, sessionId);
      assert Coupled();
      Insert(v);
    }

    /** Stores a vocabulary object that is not stored yet under its root. */
    method Insert(v: Vocab)
      requires Coupled() && v.root !in dictionary && v.View().root == v.root
      modifies this
      ensures Coupled()
      ensures model == old(model)[v.root := v.View()]
      ensures order == old(order) + [v.root]
      ensures dictionary == old(dictionary)[v.root := v]
    {
      ghost var d0, m0, o0 := dictionary, model, order;
      InsertKeeps(d0, m0, o0, v, v.View());
      dictionary := dictionary[v.root := v];
      order := order + [v.root];
      model := model[v.root := v.View()];
      forall k | k in dictionary ensures dictionary[k].View() == model[k] {
        if k != v.root {
          assert dictionary[k] == d0[k];
        }
      }
    }

    /** Reviews one stored root; no other root changes. */
    method Review(root: string, quality: int, today: int)
      requires Coupled() && root in dictionary && ValidQuality(quality)
      modifies this, dictionary[root]
      ensures Coupled()
      ensures model == old(model)[root := old(model[root]).(schedule := Reviewed(old(model[root].schedule), quality, today))]
      ensures dictionary == old(dictionary) && order == old(order)
    {
      var vocab := dictionary[root];
      assert forall k :: k in dictionary && k != root ==> dictionary[k] != vocab;
      var _ := vocab.Update(quality, today);
      ghost var m0 := model;
      model := model[root := vocab.View()];
      forall k | k in dictionary ensures dictionary[k].View() == model[k] {
        if k != root {
          assert dictionary[k].View() == old(dictionary[k].View()) == m0[k];
        }
      }
    }

    /** `vocab.quiz.append(q)` on a stored root; no other root changes. */
    method AddQuestion(root: string, q: Question)
      requires Valid() && root in dictionary
      modifies this, dictionary[root]
      ensures Valid()
      ensures model == WithQuestion(old(model), root, q)
      ensures dictionary == old(dictionary) && order == old(order)
    {
      var vocab := dictionary[root];
      assert forall k :: k in dictionary && k != root ==> dictionary[k] != vocab;
      vocab.quiz := vocab.quiz + [q];
      ghost var m0 := model;
      model := model[root := vocab.View()];
      forall k | k in dictionary ensures dictionary[k].View() == model[k] {
        if k != root {
          assert dictionary[k].View() == old(dictionary[k].View()) == m0[k];
        }
      }
      WithQuestionSpec(m0, root, q);
    }

    /** A review of a stored root keeps the store valid. */
    method ReviewStored(root: string, quality: int, today: int)
      requires Valid() && root in dictionary && ValidQuality(quality)
      modifies this, dictionary[root]
      ensures Valid()
      ensures model == ReviewedRoot(old(model), root, quality, today)
      ensures dictionary == old(dictionary) && order == old(order)
    {
      ReviewedRootSpec(model, root, quality, today);
      Review(root, quality, today);
    }

    /** The shared body of the three encounter methods. */
    method Encounter(keyword: Keyword, sessionId: int, quality: int, today: int)
      requires Valid() && ValidQuality(quality)
      modifies this, if keyword.root in dictionary then {dictionary[keyword.root]} else {}
      ensures Valid()
      ensures model == Encountered(old(model), keyword, sessionId, quality, today)
      ensures order == if keyword.root in old(dictionary) then old(order) else old(order) + [keyword.root]
      ensures forall k :: k in old(dictionary) ==> k in dictionary && dictionary[k] == old(dictionary[k])
      ensures keyword.root in dictionary
      ensures keyword.root !in old(dictionary) ==> fresh(dictionary[keyword.root])
    {
      var root := keyword.root;
      ghost var m0 := model;
      ghost var fresh0 := VocabView(root, [EncounterOf(keyword, sessionId)], INITIAL, []);
      if root !in dictionary {
        AddRoot(keyword, sessionId);
        assert model == m0[root := fresh0];
      }
      ghost var m1 := model;
      ghost var b := m1[root];
      assert b == if root in m0 then m0[root] else fresh0;
      Review(root, quality, today);
      ghost var after := b.(schedule := Reviewed(b.schedule, quality, today));
      assert model == m1[root := after];
      if root !in m0 {
        UpdateTwice(m0, root, fresh0, after);
      }
      EncounteredSound(m0, keyword, sessionId, quality, today);
    }

    /** `define_vocab`: an encounter through a definition lookup (quality 1). */
    method DefineVocab(keyword: Keyword, sessionId: int, today: int)
      requires Valid()
      modifies this, if keyword.root in dictionary then {dictionary[keyword.root]} else {}
      ensures Valid()
      ensures model == Encountered(old(model), keyword, sessionId, DEFINE_QUALITY, today)
      ensures order == if keyword.root in old(dictionary) then old(order) else old(order) + [keyword.root]
      ensures forall k :: k in old(dictionary) ==> k in dictionary && dictionary[k] == old(dictionary[k])
      ensures keyword.root in dictionary
      ensures keyword.root !in old(dictionary) ==> fresh(dictionary[keyword.root])
    {
      Encounter(keyword, sessionId, DEFINE_QUALITY, today);
    }

    /** `click_keyword`: an encounter through a keyword tap (quality 3). */
    method ClickKeyword(keyword: Keyword, sessionId: int, today: int)
      requires Valid()
      modifies this, if keyword.root in dictionary then {dictionary[keyword.root]} else {}
      ensures Valid()
      ensures model == Encountered(old(model), keyword, sessionId, CLICK_QUALITY, today)
      ensures order == if keyword.root in old(dictionary) then old(order) else old(order) + [keyword.root]
      ensures forall k :: k in old(dictionary) ==> k in dictionary && dictionary[k] == old(dictionary[k])
      ensures keyword.root in dictionary
      ensures keyword.root !in old(dictionary) ==> fresh(dictionary[keyword.root])
    {
      Encounter(keyword, sessionId, CLICK_QUALITY, today);
    }

    /** `ignore_keyword`: an encounter of a keyword the learner already
        knows (quality 5). */
    method IgnoreKeyword(keyword: Keyword, sessionId: int, today: int)
      requires Valid()
      modifies this, if keyword.root in dictionary then {dictionary[keyword.root]} else {}
      ensures Valid()
      ensures model == Encountered(old(model), keyword, sessionId, IGNORE_QUALITY, today)
      ensures order == if keyword.root in old(dictionary) then old(order) else old(order) + [keyword.root]
      ensures forall k :: k in old(dictionary) ==> k in dictionary && dictionary[k] == old(dictionary[k])
      ensures keyword.root in dictionary
      ensures keyword.root !in old(dictionary) ==> fresh(dictionary[keyword.root])
    {
      Encounter(keyword, sessionId, IGNORE_QUALITY, today);
    }

    /** The objects `DueVocabs` returns are in the states `DueViews` names. */
    lemma DueVocabsViews(n: int, today: int)
      requires Valid()
      ensures Views(DueVocabs(n, today)) == DueViews(model, order, n, today)
    {
      var vs, roots := DueVocabs(n, today), DueRoots(model, order, n, today);
      forall i | 0 <= i < |vs| ensures vs[i].View() == model[roots[i]] {
        assert vs[i] == dictionary[roots[i]];
      }
    }

    /** `due_vocabs(n)`: the stored `Vocab` objects of `DueRoots`, in its
        order; the caller gets the objects themselves, not copies. */
    function DueVocabs(n: int, today: int): (r: seq<Vocab>)
      reads this, dictionary.Values
      requires Valid()
      ensures var roots := DueRoots(model, order, n, today);
        |r| == |roots| && forall i :: 0 <= i < |r| ==> roots[i] in dictionary && r[i] == dictionary[roots[i]]
    {
      ViewIsModel();
      var d := dictionary;
      var roots := DueRoots(View(), order, n, today);
      seq(|roots|, i requires 0 <= i < |roots| && roots[i] in d => d[roots[i]])
    }
  }
}
