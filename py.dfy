/** The few Python built-ins the bot relies on, stated over Dafny sequences:
    slicing and negative indexing, `int()` of a quotient, and the `str`
    methods `strip`, `split`, `lower`, `index`/`find`, `join`,
    `startswith` and `endswith`. Strings are `seq<char>`. */
module Py {

  datatype Option<+T> = None | Some(value: T)

  /** The exceptions the modelled code can raise. */
  datatype Exception = ValueError | IndexError | StopIteration

  /** A value, or the exception raised instead of it. */
  datatype Result<+T> = Ok(value: T) | Err(error: Exception)

  /** Items already collected in front of a list that may have failed: the
      accumulator of a loop that appends and may raise. */
  function Prepend<T>(done: seq<T>, r: Result<seq<T>>): Result<seq<T>> {
    match r
    case Err(e) => Err(e)
    case Ok(rest) => Ok(done + rest)
  }

  lemma PrependEmpty<T>(r: Result<seq<T>>)
    ensures Prepend([], r) == r
  {
    if r.Ok? {
      assert [] + r.value == r.value;
    }
  }

  lemma PrependTwice<T>(a: seq<T>, b: seq<T>, r: Result<seq<T>>)
    ensures Prepend(a, Prepend(b, r)) == Prepend(a + b, r)
  {
    if r.Ok? {
      assert a + (b + r.value) == (a + b) + r.value;
    }
  }

  // ---------------------------------------------------------------------
  // Integers

  /** `int(a / d)` for a positive divisor: Python's `int()` truncates toward
      zero, whereas Dafny's `/` is Euclidean. */
  function Truncate(a: int, d: int): (r: int)
    requires d > 0
    ensures a >= 0 ==> r >= 0 && r * d <= a < r * d + d
    ensures a < 0 ==> r <= 0 && -(r * d) <= -a < -(r * d) + d
  {
    if a >= 0 then a / d else -((-a) / d)
  }

  // ---------------------------------------------------------------------
  // Sequences

  /** Python's normalisation of a slice bound `i` for a sequence of length
      `len`: negative bounds count from the end, then the bound is clamped. */
  function SliceBound(i: int, len: nat): (r: nat)
    ensures r <= len
    ensures 0 <= i <= len ==> r == i
    ensures i > len ==> r == len
    ensures i < 0 ==> r == if len + i < 0 then 0 else len + i
  {
    if i < 0 then (if len + i < 0 then 0 else len + i)
    else if i < len then i
    else len
  }

  /** `s[a:b]` with Python's semantics (step 1): the elements from the
      normalised start up to, not including, the normalised end; nothing
      when the end does not lie past the start. */
  function Slice<T>(s: seq<T>, a: int, b: int): (r: seq<T>)
    ensures var i, j := SliceBound(a, |s|), SliceBound(b, |s|);
      && |r| == (if i < j then j - i else 0)
      && forall k :: 0 <= k < |r| ==> r[k] == s[i + k]
  {
    var i, j := SliceBound(a, |s|), SliceBound(b, |s|);
    if i < j then s[i..j] else []
  }

  /** The first `n` elements (`s[:n]`), counting a negative `n` from the end. */
  function Take<T>(s: seq<T>, n: int): (r: seq<T>)
    ensures r <= s
    ensures n >= 0 ==> |r| == if n < |s| then n else |s|
    ensures n < 0 ==> |r| == if |s| + n < 0 then 0 else |s| + n
  {
    Slice(s, 0, n)
  }

  /** The position `s[i]` designates in a sequence of length `len`, where a
      negative `i` counts from the end; `None` where Python raises
      `IndexError`. */
  function Index(len: nat, i: int): (r: Option<nat>)
    ensures r.Some? <==> -(len as int) <= i < len
    ensures r.Some? ==> r.value < len
    ensures r.Some? && i >= 0 ==> r.value == i
    ensures r.Some? && i < 0 ==> r.value == len + i
  {
    if 0 <= i < len then Some(i)
    else if -(len as int) <= i < 0 then Some(len + i)
    else None
  }

  /** The position of the first element satisfying `p`, as found by a
      generator with `next(..., None)` or a loop that breaks at the first
      hit; `None` when no element does. */
  function FirstWhere<T>(s: seq<T>, p: T -> bool): (r: Option<nat>)
    ensures r.Some? ==> r.value < |s|
  {
    if s == [] then None
    else if p(s[0]) then Some(0)
    else
      match FirstWhere(s[1..], p)
      case None => None
      case Some(i) => Some(i + 1)
  }

  /** The element found satisfies `p` and no earlier one does; when none is
      found, no element does. */
  lemma {:induction false} FirstWhereSpec<T>(s: seq<T>, p: T -> bool)
    ensures var r := FirstWhere(s, p);
      && (r.Some? ==> r.value < |s| && p(s[r.value]))
      && (r.Some? ==> forall j :: 0 <= j < r.value ==> !p(s[j]))
      && (r.None? ==> forall j :: 0 <= j < |s| ==> !p(s[j]))
  {
    if s != [] && !p(s[0]) {
      FirstWhereSpec(s[1..], p);
      forall j | 1 <= j < |s| ensures s[j] == s[1..][j - 1] {}
    }
  }

  // ---------------------------------------------------------------------
  // Whitespace, `strip` and `split()`

  /** Python's `str.isspace` for one character. */
  predicate IsSpace(c: char) {
    || c == ' '
    || ('\t' <= c <= '\r')
    || ('\U{1c}' <= c <= '\U{1f}')
    || c == '\U{85}' || c == '\U{a0}' || c == '\U{1680}'
    || ('\U{2000}' <= c <= '\U{200a}')
    || c == '\U{2028}' || c == '\U{2029}' || c == '\U{202f}'
    || c == '\U{205f}' || c == '\U{3000}'
  }

  predicate AllSpace(s: string) {
    forall k :: 0 <= k < |s| ==> IsSpace(s[k])
  }

  predicate HasNonSpace(s: string) {
    exists k :: 0 <= k < |s| && !IsSpace(s[k])
  }

  /** The string without its leading whitespace (`s.lstrip()`). */
  function LStrip(s: string): (r: string)
    ensures |r| <= |s| && r == s[|s| - |r|..]
    ensures forall k :: 0 <= k < |s| - |r| ==> IsSpace(s[k])
    ensures r != [] ==> !IsSpace(r[0])
  {
    if s != [] && IsSpace(s[0]) then
      var t := LStrip(s[1..]);
      assert forall k :: 1 <= k < |s| - |t| ==> s[k] == s[1..][k - 1];
      t
    else s
  }

  /** The string without its trailing whitespace (`s.rstrip()`). */
  function RStrip(s: string): (r: string)
    ensures |r| <= |s| && r == s[..|r|]
    ensures forall k :: |r| <= k < |s| ==> IsSpace(s[k])
    ensures r != [] ==> !IsSpace(r[|r| - 1])
  {
    if s != [] && IsSpace(s[|s| - 1]) then
      var t := RStrip(s[..|s| - 1]);
      assert forall k :: |t| <= k < |s| - 1 ==> s[k] == s[..|s| - 1][k];
      t
    else s
  }

  /** `s.strip()`: the part of `s` between its leading and its trailing
      whitespace. */
  function Strip(s: string): (r: string)
    ensures |r| <= |s| - Leading(s)
    ensures r == s[Leading(s)..Leading(s) + |r|]
    ensures forall k :: Leading(s) + |r| <= k < |s| ==> IsSpace(s[k])
    ensures r != [] ==> !IsSpace(r[0]) && !IsSpace(r[|r| - 1])
  {
    RStrip(LStrip(s))
  }

  /** The number of whitespace characters `lstrip` removes. */
  function Leading(s: string): (n: nat)
    ensures n <= |s|
  {
    |s| - |LStrip(s)|
  }

  /** Whitespace outside a non-empty core disappears under `strip`. */
  lemma {:induction false} StripSpaceAround(u: string, t: string)
    requires AllSpace(u) && HasNonSpace(t)
    ensures Strip(u + t) == Strip(t)
  {
    LStripSpacePrefix(u, t);
  }

  lemma {:induction false} LStripSpacePrefix(u: string, t: string)
    requires AllSpace(u)
    ensures LStrip(u + t) == LStrip(t)
  {
    if u != [] {
      assert (u + t)[1..] == u[1..] + t;
      LStripSpacePrefix(u[1..], t);
    } else {
      assert u + t == t;
    }
  }

  /** A string with a visible character keeps it under `strip`. */
  lemma StripNonEmpty(s: string)
    requires HasNonSpace(s)
    ensures Strip(s) != []
  {
    var k :| 0 <= k < |s| && !IsSpace(s[k]);
    var l := LStrip(s);
    LStripKeepsVisible(s, k);
    var j := k - (|s| - |l|);
    assert j < |l| && l[j] == s[k];
    RStripKeepsVisible(l, j);
  }

  /** `lstrip` keeps every visible character, shifted by what it removes. */
  lemma LStripKeepsVisible(s: string, k: nat)
    requires k < |s| && !IsSpace(s[k])
    ensures var l := LStrip(s); |s| - |l| <= k && l[k - (|s| - |l|)] == s[k]
  {
    var l := LStrip(s);
    var p := |s| - |l|;
    assert k >= p;
    assert l[k - p] == s[p..][k - p];
  }

  /** `rstrip` keeps every visible character in place. */
  lemma RStripKeepsVisible(l: string, j: nat)
    requires j < |l| && !IsSpace(l[j])
    ensures j < |RStrip(l)|
  {
  }

  /** The length of the leading run of non-whitespace characters of `s`. */
  function WordEnd(s: string): (k: nat)
    ensures k <= |s|
    ensures forall j :: 0 <= j < k ==> !IsSpace(s[j])
    ensures k < |s| ==> IsSpace(s[k])
  {
    if s == [] || IsSpace(s[0]) then 0 else 1 + WordEnd(s[1..])
  }

  /** `s.split()`: the maximal runs of non-whitespace characters. */
  function Fields(s: string): (r: seq<string>)
    ensures r == [] <==> !HasNonSpace(s)
    decreases |s|
  {
    var t := LStrip(s);
    if t == [] then
      []
    else
      var k := WordEnd(t);
      assert !IsSpace(s[|s| - |t|]);
      [t[..k]] + Fields(t[k..])
  }

  /** A string that starts with a word has no whitespace where that word is. */
  lemma StartsWithWord(s: string, w: string)
    requires StartsWith(s, w) && forall j :: 0 <= j < |w| ==> !IsSpace(w[j])
    ensures |w| <= |s| && forall j :: 0 <= j < |w| ==> !IsSpace(s[j])
  {
    assert forall j :: 0 <= j < |w| ==> s[j] == w[j];
  }

  /** A string that starts with a word and has more than one field has a
      visible character after that word. */
  lemma SecondField(s: string, n: nat)
    requires 0 < n <= |s| && forall j :: 0 <= j < n ==> !IsSpace(s[j])
    requires |Fields(s)| > 1
    ensures HasNonSpace(s[n..])
  {
    assert !IsSpace(s[0]);
    assert LStrip(s) == s;
    var k := WordEnd(s);
    WordEndAtLeast(s, n);
    assert Fields(s) == [s[..k]] + Fields(s[k..]);
    NonSpaceLater(s, n, k);
  }

  /** A visible character after position `k` is also one after `n <= k`. */
  lemma NonSpaceLater(s: string, n: nat, k: nat)
    requires n <= k <= |s| && HasNonSpace(s[k..])
    ensures HasNonSpace(s[n..])
  {
    var j :| 0 <= j < |s[k..]| && !IsSpace(s[k..][j]);
    assert s[n..][k - n + j] == s[k..][j];
  }

  lemma {:induction false} WordEndAtLeast(s: string, n: nat)
    requires n <= |s| && forall j :: 0 <= j < n ==> !IsSpace(s[j])
    ensures WordEnd(s) >= n
  {
    if n > 0 {
      assert !IsSpace(s[0]);
      WordEndAtLeast(s[1..], n - 1);
    }
  }

  /** The fields of a string that starts with a word are that word and the
      fields of what follows it. */
  lemma FieldsAfterWord(w: string, rest: string)
    requires w != [] && forall j :: 0 <= j < |w| ==> !IsSpace(w[j])
    requires rest != [] && IsSpace(rest[0])
    ensures Fields(w + rest) == [w] + Fields(rest)
  {
    var s := w + rest;
    assert LStrip(s) == s;
    WordEndOf(w, rest);
    assert s[..|w|] == w && s[|w|..] == rest;
  }

  /** A word followed by nothing but whitespace is a single field. */
  lemma FieldsOfWord(w: string, trailing: string)
    requires w != [] && forall j :: 0 <= j < |w| ==> !IsSpace(w[j])
    requires AllSpace(trailing)
    ensures Fields(w + trailing) == [w]
  {
    assert !HasNonSpace(trailing);
    if trailing == [] {
      assert w + trailing == w;
      FieldsOfLoneWord(w);
    } else {
      FieldsAfterWord(w, trailing);
    }
  }

  /** A word alone is a single field. */
  lemma FieldsOfLoneWord(w: string)
    requires w != [] && forall j :: 0 <= j < |w| ==> !IsSpace(w[j])
    ensures Fields(w) == [w]
  {
    assert !IsSpace(w[0]);
    assert LStrip(w) == w;
    WordEndAtLeast(w, |w|);
    assert w[..|w|] == w && w[|w|..] == [];
  }

  /** Leading whitespace does not change the fields. */
  lemma FieldsLeadingSpace(u: string, t: string)
    requires AllSpace(u)
    ensures Fields(u + t) == Fields(t)
  {
    LStripSpacePrefix(u, t);
  }

  lemma PrefixOfConcat<T>(a: seq<T>, b: seq<T>)
    ensures a <= a + b && (a + b)[|a|..] == b
  {
    assert (a + b)[..|a|] == a;
  }

  lemma {:induction false} WordEndOf(w: string, rest: string)
    requires forall j :: 0 <= j < |w| ==> !IsSpace(w[j])
    requires rest != [] && IsSpace(rest[0])
    ensures WordEnd(w + rest) == |w|
  {
    if w != [] {
      assert (w + rest)[1..] == w[1..] + rest;
      WordEndOf(w[1..], rest);
    } else {
      assert w + rest == rest;
    }
  }

  // ---------------------------------------------------------------------
  // Searching, splitting on a separator and joining

  predicate OccursAt(s: string, sub: string, j: int) {
    0 <= j && j + |sub| <= |s| && s[j..j + |sub|] == sub
  }

  /** `s.find(sub)` (and `s.index(sub)`, which raises where this is `None`):
      the lowest position where `sub` occurs in `s`. */
  function Find(s: string, sub: string): (r: Option<nat>)
    ensures r.Some? ==> OccursAt(s, sub, r.value)
    ensures r.Some? ==> forall j :: 0 <= j < r.value ==> !OccursAt(s, sub, j)
    ensures r.None? ==> forall j :: !OccursAt(s, sub, j)
  {
    FindFrom(s, sub, 0)
  }

  function FindFrom(s: string, sub: string, i: nat): (r: Option<nat>)
    requires forall j :: 0 <= j < i ==> !OccursAt(s, sub, j)
    ensures r.Some? ==> OccursAt(s, sub, r.value)
    ensures r.Some? ==> forall j :: 0 <= j < r.value ==> !OccursAt(s, sub, j)
    ensures r.None? ==> forall j :: !OccursAt(s, sub, j)
    decreases |s| - i
  {
    if i + |sub| > |s| then None
    else if s[i..i + |sub|] == sub then Some(i)
    else FindFrom(s, sub, i + 1)
  }

  /** `s.split(sep)` for a non-empty separator. */
  function SplitOn(s: string, sep: string): (r: seq<string>)
    requires sep != []
    ensures |r| >= 1
    decreases |s|
  {
    match Find(s, sep)
    case None => [s]
    case Some(i) => [s[..i]] + SplitOn(s[i + |sep|..], sep)
  }

  /** The parts with `sep` between each two of them (`sep.join(parts)`). */
  function Join(sep: string, parts: seq<string>): (r: string)
  {
    if |parts| == 0 then ""
    else if |parts| == 1 then parts[0]
    else parts[0] + sep + Join(sep, parts[1..])
  }

  /** Splitting on a separator and joining with it gives back the string. */
  lemma {:induction false} JoinSplitOn(s: string, sep: string)
    requires sep != []
    ensures Join(sep, SplitOn(s, sep)) == s
    decreases |s|
  {
    var f := Find(s, sep);
    if f.Some? {
      var i := f.value;
      var rest := s[i + |sep|..];
      var parts := SplitOn(rest, sep);
      JoinSplitOn(rest, sep);
      assert SplitOn(s, sep) == [s[..i]] + parts;
      JoinCons(sep, s[..i], parts);
      assert s[i..i + |sep|] == sep;
      assert s == s[..i] + s[i..i + |sep|] + rest;
    }
  }

  lemma JoinCons(sep: string, p: string, parts: seq<string>)
    requires |parts| >= 1
    ensures Join(sep, [p] + parts) == p + sep + Join(sep, parts)
  {
    assert ([p] + parts)[1..] == parts;
  }

  /** No piece of a split contains the separator. */
  lemma {:induction false} SplitOnPieces(s: string, sep: string)
    requires sep != []
    ensures forall p :: p in SplitOn(s, sep) ==> Find(p, sep).None?
    decreases |s|
  {
    match Find(s, sep)
    case None =>
    case Some(i) =>
      SplitOnPieces(s[i + |sep|..], sep);
      var p := s[..i];
      forall j | 0 <= j && j + |sep| <= |p|
        ensures !OccursAt(p, sep, j)
      {
        assert p[j..j + |sep|] == s[j..j + |sep|];
        assert !OccursAt(s, sep, j);
      }
      assert forall j :: !OccursAt(p, sep, j);
      assert SplitOn(s, sep) == [p] + SplitOn(s[i + |sep|..], sep);
  }

  // ---------------------------------------------------------------------
  // Case folding and affixes

  /** `str.lower` on one character, for ASCII and the Latin-1 capitals
      (which covers German: Ä, Ö, Ü, and the capital sharp s). */
  function LowerChar(c: char): (r: char)
    ensures 'A' <= c <= 'Z' ==> r as int == c as int + 32
    ensures !('A' <= c <= 'Z') && !('\U{c0}' <= c <= '\U{de}') && c != '\U{1e9e}' ==> r == c
  {
    if 'A' <= c <= 'Z' then (c as int + 32) as char
    else if '\U{c0}' <= c <= '\U{de}' && c != '\U{d7}' then (c as int + 32) as char
    else if c == '\U{1e9e}' then '\U{df}'
    else c
  }

  /** The string lowered character by character (`s.lower()`). */
  function Lower(s: string): (r: string)
    ensures |r| == |s|
    ensures forall k :: 0 <= k < |s| ==> r[k] == LowerChar(s[k])
  {
    seq(|s|, k requires 0 <= k < |s| => LowerChar(s[k]))
  }

  predicate StartsWith(s: string, prefix: string) {
    prefix <= s
  }

  predicate EndsWith(s: string, suffix: string) {
    |suffix| <= |s| && s[|s| - |suffix|..] == suffix
  }
}
