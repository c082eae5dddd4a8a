/** The post-parse half of `DefinitionExtractor.extract_definitions`: every
    line the language model returns about one word becomes a `Keyword`,
    one per meaning, with the example sentence as its snippet. The model's
    output and the regular expression are not modelled; each match arrives
    as its six captured groups (of which `root` and `art` may be empty). */
module DefinitionExtractor {
  import opened Py
  import opened Keywords

  /** The groups `input, root, pos, art, def, ex` of one match. */
  datatype DefinitionMatch = DefinitionMatch(
    input: string, root: string, pos: string, art: string,
    definition: string, example: string)

  /** The keyword one match describes: an empty root falls back to the word
      itself, and nouns with an article get it in front. */
  function KeywordOfDefinition(m: DefinitionMatch): Keyword {
    var root := if m.root == "" then m.input else m.root;
    Keyword(NounRoot(root, m.pos, m.art), m.input, m.pos, m.example, m.definition)
  }

  /** `extract_definitions`, after the language model has answered: one
      keyword per match, in match order. */
  method ExtractDefinitions(matches: seq<DefinitionMatch>) returns (keywords: seq<Keyword>)
    ensures |keywords| == |matches|
    ensures forall k :: 0 <= k < |matches| ==> keywords[k] == KeywordOfDefinition(matches[k])
  {
    keywords := [];
    for i := 0 to |matches|
      invariant |keywords| == i
      invariant forall k :: 0 <= k < i ==> keywords[k] == KeywordOfDefinition(matches[k])
    {
      var m := matches[i];
      var root := m.root;
      if root == "" {
        root := m.input;
      }
      if Lower(m.pos) == "noun" && m.art != "" {
        root := m.art + " " + root;
      }
      var keyword := Keyword(root, m.input, m.pos, m.example, m.definition);
      keywords := keywords + [keyword];
    }
  }

  // ---------------------------------------------------------------------
  // Properties of one keyword

  /** The keyword keeps the word, the part of speech, the definition, and the
      example as its snippet; its root ends with the parsed root, or with
      the word when no root was parsed, and starts with the article exactly
      for nouns that have one. */
  lemma DefinitionFields(m: DefinitionMatch)
    ensures var k := KeywordOfDefinition(m);
      && k.word == m.input && k.pos == m.pos && k.definition == m.definition && k.snippet == m.example
      && (m.root != "" ==> EndsWith(k.root, m.root))
      && (m.root == "" ==> EndsWith(k.root, m.input))
      && (Lower(m.pos) == "noun" && m.art != "" ==> StartsWith(k.root, m.art + " "))
      && (Lower(m.pos) != "noun" || m.art == "" ==> k.root == if m.root == "" then m.input else m.root)
  {
    NounRootShape(if m.root == "" then m.input else m.root, m.pos, m.art);
  }

  /** The two meanings of "fahren" the prompt shows as its example: the verb
      keeps its root, the noun gets its article. */
  lemma FahrenMeanings()
    ensures KeywordOfDefinition(DefinitionMatch("fahren", "fahren", "Verb", "", "to drive", "Ich fahre.")).root == "fahren"
    ensures KeywordOfDefinition(DefinitionMatch("fahren", "Fahren", "Noun", "das", "driving", "Das Fahren.")).root == "das Fahren"
    ensures KeywordOfDefinition(DefinitionMatch("sonniger", "", "Adj", "", "sunny", "")).root == "sonniger"
  {
    assert Lower("Noun") == "noun";
    assert Lower("Verb")[0] == 'v';
    assert Lower("Adj")[0] == 'a';
  }
}
