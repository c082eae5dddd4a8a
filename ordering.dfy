/** The selection behind `Vocabs.due_vocabs`, stated over entries
    `(key, item)` kept in the dictionary's insertion order: keep the
    entries whose key is at most a bound, sort them by key with Python's
    stable `list.sort`, and take the first `n`. */
module Ordering {
  import opened Py

  predicate SortedByKey<T>(s: seq<(int, T)>) {
    forall i, j :: 0 <= i < j < |s| ==> s[i].0 <= s[j].0
  }

  /** The entries whose key is at most `bound`, in their original order. */
  function AtMost<T>(s: seq<(int, T)>, bound: int): (r: seq<(int, T)>)
    ensures |r| <= |s|
    ensures forall i :: 0 <= i < |r| ==> r[i] in s && r[i].0 <= bound
    ensures forall i :: 0 <= i < |s| && s[i].0 <= bound ==> s[i] in r
  {
    if s == [] then []
    else (if s[0].0 <= bound then [s[0]] else []) + AtMost(s[1..], bound)
  }

  /** The entries with key `k`, in their original order; two sequences
      order equal keys alike when these agree for every `k`. */
  function WithKey<T>(s: seq<(int, T)>, k: int): seq<(int, T)> {
    if s == [] then []
    else (if s[0].0 == k then [s[0]] else []) + WithKey(s[1..], k)
  }

  /** Inserts `e` in front of the first entry whose key is not smaller. */
  function Insert<T>(e: (int, T), s: seq<(int, T)>): seq<(int, T)> {
    if s == [] || e.0 <= s[0].0 then [e] + s
    else [s[0]] + Insert(e, s[1..])
  }

  /** Stable sort by key (insertion sort). */
  function Sort<T>(s: seq<(int, T)>): seq<(int, T)> {
    if s == [] then [] else Insert(s[0], Sort(s[1..]))
  }

  // ---------------------------------------------------------------------
  // Insertion

  lemma {:induction false} InsertSorted<T>(e: (int, T), s: seq<(int, T)>)
    requires SortedByKey(s)
    ensures SortedByKey(Insert(e, s))
    ensures |Insert(e, s)| == |s| + 1
    ensures s != [] ==> Insert(e, s)[0].0 == if e.0 <= s[0].0 then e.0 else s[0].0
  {
    if s != [] && e.0 > s[0].0 {
      InsertSorted(e, s[1..]);
      var t := Insert(e, s[1..]);
      assert Insert(e, s) == [s[0]] + t;
      forall i, j | 0 <= i < j < |[s[0]] + t|
        ensures ([s[0]] + t)[i].0 <= ([s[0]] + t)[j].0
      {
        if i == 0 && j >= 1 {
          assert ([s[0]] + t)[j] == t[j - 1];
          if s[1..] != [] {
            assert t[0].0 >= s[0].0 by {
              assert s[1..][0] == s[1];
            }
          }
          assert t[j - 1].0 >= t[0].0;
        }
      }
    }
  }

  lemma {:induction false} InsertMultiset<T>(e: (int, T), s: seq<(int, T)>)
    ensures multiset(Insert(e, s)) == multiset{e} + multiset(s)
  {
    if s != [] && e.0 > s[0].0 {
      InsertMultiset(e, s[1..]);
      assert s == [s[0]] + s[1..];
    }
  }

  /** `WithKey` of a sequence with a known first entry. */
  lemma WithKeyCons<T>(e: (int, T), s: seq<(int, T)>, k: int)
    ensures WithKey([e] + s, k) == (if e.0 == k then [e] else []) + WithKey(s, k)
  {
    assert ([e] + s)[0] == e;
    assert ([e] + s)[1..] == s;
  }

  lemma {:induction false} WithKeyAppend<T>(a: seq<(int, T)>, b: seq<(int, T)>, k: int)
    ensures WithKey(a + b, k) == WithKey(a, k) + WithKey(b, k)
  {
    if a == [] {
      assert a + b == b;
    } else {
      var h := if a[0].0 == k then [a[0]] else [];
      assert a == [a[0]] + a[1..];
      assert a + b == [a[0]] + (a[1..] + b);
      WithKeyCons(a[0], a[1..] + b, k);
      WithKeyCons(a[0], a[1..], k);
      WithKeyAppend(a[1..], b, k);
      assert h + (WithKey(a[1..], k) + WithKey(b, k)) == (h + WithKey(a[1..], k)) + WithKey(b, k);
    }
  }

  /** Inserting `e` puts it in front of every entry that has its key. */
  lemma {:induction false} InsertWithKey<T>(e: (int, T), s: seq<(int, T)>, k: int)
    ensures WithKey(Insert(e, s), k) == (if e.0 == k then [e] else []) + WithKey(s, k)
  {
    if s == [] || e.0 <= s[0].0 {
      WithKeyCons(e, s, k);
    } else {
      var mine := if e.0 == k then [e] else [];
      var t := Insert(e, s[1..]);
      InsertWithKey(e, s[1..], k);
      SwapFront(s[0], t, WithKey(s[1..], k), mine, k);
      assert Insert(e, s) == [s[0]] + t;
    }
  }

  /** An entry whose key is not `k` can move past the entries with key `k`. */
  lemma SwapFront<T>(x: (int, T), t: seq<(int, T)>, r: seq<(int, T)>, mine: seq<(int, T)>, k: int)
    requires WithKey(t, k) == mine + r
    requires x.0 == k ==> mine == []
    ensures WithKey([x] + t, k) == mine + ((if x.0 == k then [x] else []) + r)
  {
    WithKeyCons(x, t, k);
    if x.0 == k {
      assert mine + r == r;
      assert mine + ([x] + r) == [x] + r;
    } else {
      assert [] + (mine + r) == mine + ([] + r);
    }
  }

  // ---------------------------------------------------------------------
  // The sort

  /** The sort orders by key, ... */
  lemma {:induction false} SortSorted<T>(s: seq<(int, T)>)
    ensures SortedByKey(Sort(s))
    ensures |Sort(s)| == |s|
  {
    if s != [] {
      SortSorted(s[1..]);
      InsertSorted(s[0], Sort(s[1..]));
    }
  }

  /** ... is a permutation of its input, ... */
  lemma {:induction false} SortPermutation<T>(s: seq<(int, T)>)
    ensures multiset(Sort(s)) == multiset(s)
  {
    if s != [] {
      SortPermutation(s[1..]);
      InsertMultiset(s[0], Sort(s[1..]));
      assert s == [s[0]] + s[1..];
    }
  }

  /** ... and is stable: entries with equal keys keep their order. */
  lemma {:induction false} SortStable<T>(s: seq<(int, T)>, k: int)
    ensures WithKey(Sort(s), k) == WithKey(s, k)
  {
    if s != [] {
      SortStable(s[1..], k);
      InsertWithKey(s[0], Sort(s[1..]), k);
    }
  }

  /** The filter keeps the order of what it keeps: filtering a
      concatenation filters each part. */
  lemma {:induction false} AtMostAppend<T>(a: seq<(int, T)>, b: seq<(int, T)>, bound: int)
    ensures AtMost(a + b, bound) == AtMost(a, bound) + AtMost(b, bound)
  {
    if a == [] {
      assert a + b == b;
    } else {
      assert (a + b)[1..] == a[1..] + b;
      AtMostAppend(a[1..], b, bound);
      var h := if a[0].0 <= bound then [a[0]] else [];
      assert h + (AtMost(a[1..], bound) + AtMost(b, bound)) == (h + AtMost(a[1..], bound)) + AtMost(b, bound);
    }
  }

  /** The filter keeps, in their order, all entries of a key within the
      bound and none of a key beyond it. */
  lemma {:induction false} AtMostWithKey<T>(s: seq<(int, T)>, bound: int, k: int)
    ensures WithKey(AtMost(s, bound), k) == if k <= bound then WithKey(s, k) else []
  {
    if s != [] {
      AtMostWithKey(s[1..], bound, k);
      var h := if s[0].0 <= bound then [s[0]] else [];
      WithKeyAppend(h, AtMost(s[1..], bound), k);
      WithKeyCons(s[0], [], k);
      assert [s[0]] + [] == [s[0]];
    }
  }

  /** Due entries with equal keys leave the sort in the order of the input,
      so ties in `due_vocabs` fall to the dictionary's insertion order. */
  lemma SortAtMostStable<T>(s: seq<(int, T)>, bound: int, k: int)
    requires k <= bound
    ensures WithKey(Sort(AtMost(s, bound)), k) == WithKey(s, k)
  {
    SortStable(AtMost(s, bound), k);
    AtMostWithKey(s, bound, k);
  }

  // ---------------------------------------------------------------------
  // No entry twice

  ghost predicate Distinct<T>(s: seq<T>) {
    forall i, j :: 0 <= i < j < |s| ==> s[i] != s[j]
  }

  lemma DistinctCons<T>(x: T, s: seq<T>)
    requires Distinct(s) && x !in s
    ensures Distinct([x] + s)
  {
    forall i, j | 0 <= i < j < |[x] + s| ensures ([x] + s)[i] != ([x] + s)[j] {
      assert ([x] + s)[j] == s[j - 1];
      if i > 0 {
        assert ([x] + s)[i] == s[i - 1];
      }
    }
  }

  lemma DistinctTail<T>(s: seq<T>)
    requires s != [] && Distinct(s)
    ensures Distinct(s[1..]) && s[0] !in s[1..]
  {
    forall i, j | 0 <= i < j < |s[1..]| ensures s[1..][i] != s[1..][j] {
      assert s[1..][i] == s[i + 1] && s[1..][j] == s[j + 1];
    }
    forall i | 0 <= i < |s[1..]| ensures s[1..][i] != s[0] {
      assert s[1..][i] == s[i + 1];
    }
  }

  /** The filter keeps distinct entries distinct ... */
  lemma {:induction false} AtMostDistinct<T>(s: seq<(int, T)>, bound: int)
    requires Distinct(s)
    ensures Distinct(AtMost(s, bound))
  {
    if s != [] {
      DistinctTail(s);
      AtMostDistinct(s[1..], bound);
      if s[0].0 <= bound {
        DistinctCons(s[0], AtMost(s[1..], bound));
      }
    }
  }

  /** ... and so does the sort, being a permutation. */
  lemma {:induction false} InsertDistinct<T>(e: (int, T), s: seq<(int, T)>)
    requires Distinct(s) && e !in s
    ensures Distinct(Insert(e, s))
  {
    if s == [] || e.0 <= s[0].0 {
      DistinctCons(e, s);
    } else {
      DistinctTail(s);
      assert s == [s[0]] + s[1..];
      InsertDistinct(e, s[1..]);
      InsertMultiset(e, s[1..]);
      assert s[0] !in multiset(Insert(e, s[1..]));
      DistinctCons(s[0], Insert(e, s[1..]));
    }
  }

  lemma {:induction false} SortDistinct<T>(s: seq<(int, T)>)
    requires Distinct(s)
    ensures Distinct(Sort(s))
  {
    if s != [] {
      DistinctTail(s);
      SortDistinct(s[1..]);
      SortPermutation(s[1..]);
      assert s[0] !in multiset(Sort(s[1..]));
      InsertDistinct(s[0], Sort(s[1..]));
    }
  }

  // ---------------------------------------------------------------------
  // Filter, sort, take

  /** `sorted(e for e in s if e.key <= bound)[:n]`: the first `n` entries
      due by `bound`, earliest first. */
  function Earliest<T>(s: seq<(int, T)>, bound: int, n: int): (r: seq<(int, T)>)
    ensures r <= Sort(AtMost(s, bound))
    ensures n >= 0 ==> |r| == if n < |AtMost(s, bound)| then n else |AtMost(s, bound)|
    ensures SortedByKey(r)
    ensures forall i :: 0 <= i < |r| ==> r[i] in s && r[i].0 <= bound
    ensures forall j :: 0 <= j < |s| && s[j].0 <= bound && s[j] !in r ==>
              forall i :: 0 <= i < |r| ==> r[i].0 <= s[j].0
    ensures n >= |s| || (n >= 0 && |r| < n) ==> forall j :: 0 <= j < |s| && s[j].0 <= bound ==> s[j] in r
    ensures Distinct(s) ==> Distinct(r)
  {
    var due := AtMost(s, bound);
    var sorted := Sort(due);
    var r := Take(sorted, n);
    SortSorted(due);
    SortPermutation(due);
    EarliestPrefix(due, sorted, r, bound);
    EarliestOfDue(s, bound, due, r, |r| == |sorted|);
    EarliestDistinct(s, bound, r);
    r
  }

  lemma EarliestDistinct<T>(s: seq<(int, T)>, bound: int, r: seq<(int, T)>)
    requires r <= Sort(AtMost(s, bound))
    ensures Distinct(s) ==> Distinct(r)
  {
    if Distinct(s) {
      AtMostDistinct(s, bound);
      SortDistinct(AtMost(s, bound));
      var sorted := Sort(AtMost(s, bound));
      assert forall i :: 0 <= i < |r| ==> r[i] == sorted[i];
    }
  }

  /** The facts about the due entries, restated by position in `s`. */
  lemma EarliestOfDue<T>(s: seq<(int, T)>, bound: int, due: seq<(int, T)>, r: seq<(int, T)>, all: bool)
    requires due == AtMost(s, bound)
    requires forall e :: e in r ==> e in due
    requires forall e :: e in due && e !in r ==> forall i :: 0 <= i < |r| ==> r[i].0 <= e.0
    requires all ==> forall e :: e in due ==> e in r
    ensures forall i :: 0 <= i < |r| ==> r[i] in s && r[i].0 <= bound
    ensures forall j :: 0 <= j < |s| && s[j].0 <= bound && s[j] !in r ==>
              forall i :: 0 <= i < |r| ==> r[i].0 <= s[j].0
    ensures all ==> forall j :: 0 <= j < |s| && s[j].0 <= bound ==> s[j] in r
  {
    forall i | 0 <= i < |r| ensures r[i] in s && r[i].0 <= bound {
      assert r[i] in r;
      var p :| 0 <= p < |due| && due[p] == r[i];
    }
    forall j | 0 <= j < |s| && s[j].0 <= bound
      ensures s[j] in due
    {
    }
  }

  lemma EarliestPrefix<T>(due: seq<(int, T)>, sorted: seq<(int, T)>, r: seq<(int, T)>, bound: int)
    requires SortedByKey(sorted) && multiset(sorted) == multiset(due) && r <= sorted
    ensures SortedByKey(r)
    ensures forall e :: e in r ==> e in due
    ensures forall e :: e in due && e !in r ==> forall i :: 0 <= i < |r| ==> r[i].0 <= e.0
    ensures |r| == |sorted| ==> forall e :: e in due ==> e in r
  {
    forall e | e in r ensures e in due {
      assert e in multiset(sorted);
    }
    forall e | e in due && e !in r
      ensures forall i :: 0 <= i < |r| ==> r[i].0 <= e.0
    {
      assert e in multiset(sorted);
      var p :| 0 <= p < |sorted| && sorted[p] == e;
      assert forall q :: 0 <= q < |r| ==> sorted[q] == r[q] && r[q] in r;
      assert p >= |r|;
      forall i | 0 <= i < |r| ensures r[i].0 <= e.0 {
        assert r[i] == sorted[i];
      }
    }
    if |r| == |sorted| {
      assert r == sorted;
      forall e | e in due ensures e in r {
        assert e in multiset(sorted);
      }
    }
  }
}
