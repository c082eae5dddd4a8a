/** The post-parse half of `KeywordExtractor.extract_keywords`: every match
    of the language model's definitions becomes a `Keyword` without a
    snippet, and then each keyword gets as its snippet the first sentence
    of the text that mentions its word (`_find_sentences`). The language
    model, the regular expressions and `nltk.sent_tokenize` are not
    modelled: each match arrives as its five captured groups, the text as
    its list of sentences, and the compiled pattern
    `\b<escaped lower-case word>\b` searched case-insensitively as the
    predicate `mentions(word, sentence)`. */
module KeywordExtractor {
  import opened Py
  import opened Keywords

  /** The groups `input, root, pos, art, def` of one match. */
  datatype KeywordMatch = KeywordMatch(
    input: string, root: string, pos: string, art: string, definition: string)

  /** The keyword one match describes, before its snippet is found: nouns
      with an article get it in front of the root. */
  function KeywordOfMatch(m: KeywordMatch): Keyword {
    Keyword(NounRoot(m.root, m.pos, m.art), m.input, m.pos, "", m.definition)
  }

  /** The sentence `_find_sentences` picks for one keyword: the first that
      the lower-cased keyword's pattern is found in, or "" when none is. */
  function FoundSentence(keyword: string, sentences: seq<string>, mentions: (string, string) -> bool): string {
    match FirstWhere(sentences, (s: string) => mentions(Lower(keyword), s))
    case None => ""
    case Some(j) => sentences[j]
  }

  /** `_find_sentences`: one sentence (or "") per keyword, in keyword order. */
  method FindSentences(keywords: seq<string>, sentences: seq<string>, mentions: (string, string) -> bool)
    returns (found: seq<string>)
    ensures |found| == |keywords|
    ensures forall k :: 0 <= k < |keywords| ==> found[k] == FoundSentence(keywords[k], sentences, mentions)
  {
    found := [];
    for i := 0 to |keywords|
      invariant |found| == i
      invariant forall k :: 0 <= k < i ==> found[k] == FoundSentence(keywords[k], sentences, mentions)
    {
      var lowerKeyword := Lower(keywords[i]);
      var hit := false;
      var j := 0;
      while j < |sentences|
        invariant 0 <= j <= |sentences|
        invariant forall t :: 0 <= t < j ==> !mentions(lowerKeyword, sentences[t])
      {
        if mentions(lowerKeyword, sentences[j]) {
          found := found + [sentences[j]];
          hit := true;
          break;
        }
        j := j + 1;
      }
      if hit {
        FoundSentenceFirst(keywords[i], sentences, mentions, j);
      } else {
        FoundSentenceNone(keywords[i], sentences, mentions);
        found := found + [""];
      }
    }
  }

  /** `extract_keywords`, after the language model has answered: one keyword
      per match, in match order, each with the sentence found for its word. */
  method ExtractKeywords(matches: seq<KeywordMatch>, sentences: seq<string>, mentions: (string, string) -> bool)
    returns (keywords: seq<Keyword>)
    ensures |keywords| == |matches|
    ensures forall k :: 0 <= k < |matches| ==>
      keywords[k] == KeywordOfMatch(matches[k]).(snippet := FoundSentence(matches[k].input, sentences, mentions))
  {
    // Parse keywords.
    keywords := [];
    for i := 0 to |matches|
      invariant |keywords| == i
      invariant forall k :: 0 <= k < i ==> keywords[k] == KeywordOfMatch(matches[k])
    {
      var m := matches[i];
      var snippet := "";
      var root := m.root;
      if Lower(m.pos) == "noun" && m.art != "" {
        root := m.art + " " + root;
      }
      var keyword := Keyword(root, m.input, m.pos, snippet, m.definition);
      keywords := keywords + [keyword];
    }
    // Find snippets.
    var words := seq(|keywords|, k requires 0 <= k < |keywords| => keywords[k].word);
    var found := FindSentences(words, sentences, mentions);
    for i := 0 to |found|
      invariant |keywords| == |matches|
      invariant forall k :: 0 <= k < i ==> keywords[k] == KeywordOfMatch(matches[k]).(snippet := found[k])
      invariant forall k :: i <= k < |matches| ==> keywords[k] == KeywordOfMatch(matches[k])
    {
      keywords := keywords[i := keywords[i].(snippet := found[i])];
    }
  }

  // ---------------------------------------------------------------------
  // Properties of the sentence search

  /** A sentence that mentions the keyword, after none that does, is the
      one found. */
  lemma FoundSentenceFirst(keyword: string, sentences: seq<string>, mentions: (string, string) -> bool, j: nat)
    requires j < |sentences| && mentions(Lower(keyword), sentences[j])
    requires forall t :: 0 <= t < j ==> !mentions(Lower(keyword), sentences[t])
    ensures FoundSentence(keyword, sentences, mentions) == sentences[j]
  {
    var p := (s: string) => mentions(Lower(keyword), s);
    FirstWhereSpec(sentences, p);
    assert p(sentences[j]);
    assert forall t :: 0 <= t < j ==> !p(sentences[t]);
  }

  /** When no sentence mentions the keyword, the snippet is empty; and an
      empty snippet means exactly that, unless the text has an empty sentence
      that mentions it. */
  lemma FoundSentenceNone(keyword: string, sentences: seq<string>, mentions: (string, string) -> bool)
    ensures (forall t :: 0 <= t < |sentences| ==> !mentions(Lower(keyword), sentences[t])) ==>
      FoundSentence(keyword, sentences, mentions) == ""
    ensures FoundSentence(keyword, sentences, mentions) != "" ==>
      FoundSentence(keyword, sentences, mentions) in sentences &&
      mentions(Lower(keyword), FoundSentence(keyword, sentences, mentions))
    ensures "" !in sentences && FoundSentence(keyword, sentences, mentions) == "" ==>
      forall t :: 0 <= t < |sentences| ==> !mentions(Lower(keyword), sentences[t])
  {
    var p := (s: string) => mentions(Lower(keyword), s);
    FirstWhereSpec(sentences, p);
    var r := FirstWhere(sentences, p);
    if r.Some? {
      assert p(sentences[r.value]);
    }
  }

  /** Each keyword keeps its word, part of speech and definition; its root
      ends with the parsed root and starts with the article exactly for a
      noun that has one; and its snippet, when not empty, is a sentence of
      the text that mentions the word. */
  lemma ExtractedKeywordFields(m: KeywordMatch, sentences: seq<string>, mentions: (string, string) -> bool)
    ensures var k := KeywordOfMatch(m).(snippet := FoundSentence(m.input, sentences, mentions));
      && k.word == m.input && k.pos == m.pos && k.definition == m.definition
      && EndsWith(k.root, m.root)
      && (Lower(m.pos) == "noun" && m.art != "" ==> StartsWith(k.root, m.art + " "))
      && (Lower(m.pos) != "noun" || m.art == "" ==> k.root == m.root)
      && (k.snippet != "" ==> k.snippet in sentences && mentions(Lower(m.input), k.snippet))
  {
    NounRootShape(m.root, m.pos, m.art);
    FoundSentenceNone(m.input, sentences, mentions);
  }

  /** Keywords that are the same word up to case get the same snippet. */
  lemma SnippetIgnoresCase(a: string, b: string, sentences: seq<string>, mentions: (string, string) -> bool)
    requires Lower(a) == Lower(b)
    ensures FoundSentence(a, sentences, mentions) == FoundSentence(b, sentences, mentions)
  {
    var pa := (s: string) => mentions(Lower(a), s);
    var pb := (s: string) => mentions(Lower(b), s);
    assert pa == pb;
  }
}
