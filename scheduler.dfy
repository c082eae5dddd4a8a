/** The SM-2-style schedule of one vocabulary root (`Vocab.update`), as a
    pure function on the five scheduler fields. The ease factor is kept in
    exact hundredths (250 stands for 2.5); dates are day numbers. */
module Scheduler {
  import opened Py

  /** The scheduler fields of a `Vocab`. */
  datatype Schedule = Schedule(
    ease: int,               // ease_factor, in hundredths
    lastReview: Option<int>, // last_review, a day number
    nextReview: Option<int>, // next_review, a day number
    interval: int,           // days
    repetitions: int)

  /** The fields of a freshly created `Vocab`. */
  const INITIAL: Schedule := Schedule(250, None, None, 0, 0)

  /** The lowest ease factor (1.3). */
  const MIN_EASE := 130

  predicate ValidQuality(quality: int) {
    0 <= quality <= 5
  }

  /** 100 * (0.1 - (5 - q) * (0.08 + (5 - q) * 0.02)), the change of the ease
      factor for quality q, in hundredths. */
  function EaseDelta(quality: int): int {
    10 - (5 - quality) * (8 + (5 - quality) * 2)
  }

  /** The schedule after one review of quality `quality` on day `today`,
      following the code line by line: new ease, floored; repetitions
      incremented and reset on failure; interval from the new repetitions
      and the new ease; review dates. */
  function Reviewed(s: Schedule, quality: int, today: int): Schedule
    requires ValidQuality(quality)
  {
    var raised := s.ease + EaseDelta(quality);
    var ease := if raised < MIN_EASE then MIN_EASE else raised;
    var repetitions := if quality < 3 then 0 else s.repetitions + 1;
    var interval :=
      if repetitions == 1 then 1
      else if repetitions == 2 then 6
      else Truncate(s.interval * ease, 100);
    Schedule(ease, Some(today), Some(today + interval), interval, repetitions)
  }

  /** What every schedule the store holds satisfies: the ease is at least
      1.3, the counters are not negative, and a reviewed root is due
      `interval` days after its last review. */
  predicate Sound(s: Schedule) {
    && s.ease >= MIN_EASE
    && s.interval >= 0
    && s.repetitions >= 0
    && s.lastReview.Some? == s.nextReview.Some?
    && (s.lastReview.Some? ==> s.nextReview.value == s.lastReview.value + s.interval)
  }

  // ---------------------------------------------------------------------
  // Properties of one review

  /** The per-quality changes of the ease factor, in hundredths:
      +10, 0, -14, -32, -54, -80 for q = 5 .. 0. */
  lemma EaseDeltaTable()
    ensures EaseDelta(5) == 10 && EaseDelta(4) == 0 && EaseDelta(3) == -14
    ensures EaseDelta(2) == -32 && EaseDelta(1) == -54 && EaseDelta(0) == -80
  {
  }

  /** The new ease is the old one plus the quality's delta, floored at 1.3;
      it never drops below 1.3 and it grows only on quality 5. */
  lemma ReviewedEase(s: Schedule, quality: int, today: int)
    requires ValidQuality(quality)
    ensures var r := Reviewed(s, quality, today);
      && r.ease >= MIN_EASE
      && r.ease == (if s.ease + EaseDelta(quality) < MIN_EASE then MIN_EASE else s.ease + EaseDelta(quality))
      && (s.ease >= MIN_EASE && quality < 5 ==> r.ease <= s.ease)
  {
  }

  /** A failing quality resets the repetitions to 0; a passing one adds
      exactly one. */
  lemma ReviewedRepetitions(s: Schedule, quality: int, today: int)
    requires ValidQuality(quality)
    ensures quality < 3 ==> Reviewed(s, quality, today).repetitions == 0
    ensures quality >= 3 ==> Reviewed(s, quality, today).repetitions == s.repetitions + 1
  {
  }

  /** The interval policy: 1 day after the first pass in a row, 6 days after
      the second, otherwise the old interval times the new ease, rounded down.
      The last case includes every failing review. */
  lemma ReviewedInterval(s: Schedule, quality: int, today: int)
    requires ValidQuality(quality) && s.interval >= 0
    ensures var r := Reviewed(s, quality, today);
      && (r.repetitions == 1 ==> r.interval == 1)
      && (r.repetitions == 2 ==> r.interval == 6)
      && (r.repetitions != 1 && r.repetitions != 2 ==>
            r.interval * 100 <= s.interval * r.ease < r.interval * 100 + 100)
      && (quality < 3 ==> r.interval * 100 <= s.interval * r.ease < r.interval * 100 + 100)
  {
  }

  /** The review is dated today and the next one falls `interval` days on. */
  lemma ReviewedDates(s: Schedule, quality: int, today: int)
    requires ValidQuality(quality)
    ensures var r := Reviewed(s, quality, today);
      r.lastReview == Some(today) && r.nextReview == Some(today + r.interval)
  {
  }

  /** Reviews keep a schedule sound, and the initial schedule is sound. */
  lemma ReviewedSound(s: Schedule, quality: int, today: int)
    requires ValidQuality(quality) && Sound(s)
    ensures Sound(Reviewed(s, quality, today))
  {
    var r := Reviewed(s, quality, today);
    assert s.interval * r.ease >= 0 by { MulNonNegative(s.interval, r.ease); }
  }

  lemma InitialSound()
    ensures Sound(INITIAL)
  {
  }

  lemma MulNonNegative(a: int, b: int)
    requires a >= 0 && b >= 0
    ensures a * b >= 0
  {
  }

  /** A failed review never shortens the interval: with the ease at least
      1.3 the interval is multiplied by at least 1.3 and rounded down, which
      also means a failure can push the next review further away. */
  lemma FailureNeverShortens(s: Schedule, quality: int, today: int)
    requires ValidQuality(quality) && quality < 3 && Sound(s)
    ensures Reviewed(s, quality, today).interval >= s.interval
    ensures s.interval >= 4 ==> Reviewed(s, quality, today).interval > s.interval
  {
    var r := Reviewed(s, quality, today);
    var i := s.interval;
    assert i * r.ease >= i * MIN_EASE by { MulMonotone(i, MIN_EASE, r.ease); }
    assert i * MIN_EASE == i * 100 + i * 30;
    assert r.interval * 100 + 100 > i * 100 + i * 30;
    if i >= 4 {
      assert i * 30 >= 120;
    }
  }

  lemma MulMonotone(a: int, b: int, c: int)
    requires a >= 0 && b <= c
    ensures a * b <= a * c
  {
    assert a * c - a * b == a * (c - b);
    MulNonNegative(a, c - b);
  }

  // ---------------------------------------------------------------------
  // Sequences of reviews

  /** The schedule after reviews of the given qualities, in order. */
  function ReviewedAll(s: Schedule, qualities: seq<int>, today: int): Schedule
    requires forall k :: 0 <= k < |qualities| ==> ValidQuality(qualities[k])
    decreases |qualities|
  {
    if qualities == [] then s
    else ReviewedAll(Reviewed(s, qualities[0], today), qualities[1..], today)
  }

  /** The first two passing reviews after a reset (or on a new root) give
      intervals of 1 and 6 days; a third gives 6 times the ease, rounded
      down. */
  lemma PassingStreak(s: Schedule, q1: int, q2: int, q3: int, today: int)
    requires s.repetitions == 0 && s.interval >= 0
    requires 3 <= q1 <= 5 && 3 <= q2 <= 5 && 3 <= q3 <= 5
    ensures var r1 := Reviewed(s, q1, today);
      var r2 := Reviewed(r1, q2, today);
      var r3 := Reviewed(r2, q3, today);
      && r1.repetitions == 1 && r1.interval == 1
      && r2.repetitions == 2 && r2.interval == 6
      && r3.repetitions == 3 && r3.interval == (6 * r3.ease) / 100
  {
  }

  /** A definition lookup (quality 1) on a new root, as the code is written:
      repetitions 0, interval 0, and the root is due again the same day. Then a
      keyword tap (3) gives interval 1, a correct quiz answer (5) gives 6 and a
      second one 6 * 2.02, rounded down, which is 12. */
  lemma NewRootScenario(today: int)
    ensures Reviewed(INITIAL, 1, today) == Schedule(196, Some(today), Some(today), 0, 0)
    ensures ReviewedAll(INITIAL, [1, 3], today) == Schedule(182, Some(today), Some(today + 1), 1, 1)
    ensures ReviewedAll(INITIAL, [1, 3, 5], today) == Schedule(192, Some(today), Some(today + 6), 6, 2)
    ensures ReviewedAll(INITIAL, [1, 3, 5, 5], today) == Schedule(202, Some(today), Some(today + 12), 12, 3)
  {
    var s1 := Reviewed(INITIAL, 1, today);
    var s2 := Reviewed(s1, 3, today);
    var s3 := Reviewed(s2, 5, today);
    assert [1, 3][1..] == [3] && [1, 3, 5][1..] == [3, 5] && [3, 5][1..] == [5];
    assert [1, 3, 5, 5][1..] == [3, 5, 5] && [3, 5, 5][1..] == [5, 5] && [5, 5][1..] == [5];
    assert ReviewedAll(INITIAL, [1, 3], today) == ReviewedAll(s1, [3], today) == s2;
    assert ReviewedAll(INITIAL, [1, 3, 5], today) == ReviewedAll(s2, [5], today) == s3;
    assert ReviewedAll(INITIAL, [1, 3, 5, 5], today) == ReviewedAll(s2, [5, 5], today);
    assert ReviewedAll(s2, [5, 5], today) == ReviewedAll(s3, [5], today);
  }

  /** A failure on an established root, as the code is written: with
      repetitions 4, interval 10 and ease 2.0, quality 1 resets the
      repetitions but sets the interval to 10 * 1.46, rounded down, which is
      14 days (not 1). */
  lemma FailureOnEstablishedRoot(today: int)
    ensures Reviewed(Schedule(200, Some(today - 10), Some(today), 10, 4), 1, today)
         == Schedule(146, Some(today), Some(today + 14), 14, 0)
  {
  }
}
