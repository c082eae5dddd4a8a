/** `Keyword`, the value the extractors produce and the store consumes. */
module Keywords {
  import opened Py

  datatype Keyword = Keyword(
    root: string,       // definite form, with the article for nouns
    word: string,       // the form found in the text
    pos: string,        // part of speech
    snippet: string,    // a sentence of the text containing the word, or ""
    definition: string)

  /** `Keyword.summary`: "root (pos): definition", followed by the quoted
      snippet on its own line when there is one. */
  function Summary(k: Keyword): string {
    var snippetLine := if k.snippet != "" then "\n\"" + k.snippet + "\"" else "";
    k.root + " (" + k.pos + "): " + k.definition + snippetLine
  }

  /** The summary leads with the root and the part of speech, and it ends
      with the quoted snippet exactly when the snippet is not empty. */
  lemma SummaryShape(k: Keyword)
    ensures StartsWith(Summary(k), k.root + " (" + k.pos + "): " + k.definition)
    ensures k.snippet != "" ==> EndsWith(Summary(k), "\n\"" + k.snippet + "\"")
    ensures k.snippet == "" ==> |Summary(k)| == |k.root| + |k.pos| + |k.definition| + 5
  {
    var head := k.root + " (" + k.pos + "): " + k.definition;
    if k.snippet != "" {
      var tail := "\n\"" + k.snippet + "\"";
      assert Summary(k) == head + tail;
      assert (head + tail)[|head + tail| - |tail|..] == tail;
    } else {
      assert Summary(k) == head;
    }
  }

  /** The root both extractors store: a noun (its part of speech equal to
      "noun" up to case) with an article gets the article in front,
      separated by one space; any other root is kept as parsed. */
  function NounRoot(root: string, pos: string, art: string): string {
    if Lower(pos) == "noun" && art != "" then art + " " + root else root
  }

  /** The article goes in front exactly for nouns with an article, and the
      parsed root always ends the stored one. */
  lemma NounRootShape(root: string, pos: string, art: string)
    ensures var r := NounRoot(root, pos, art);
      && EndsWith(r, root)
      && (Lower(pos) == "noun" && art != "" ==> StartsWith(r, art + " ") && |r| == |art| + 1 + |root|)
      && (Lower(pos) != "noun" || art == "" ==> r == root)
  {
    var r := NounRoot(root, pos, art);
    assert r[|r| - |root|..] == root;
    if Lower(pos) == "noun" && art != "" {
      assert r[..|art| + 1] == art + " ";
    }
  }

  /** The part of speech is compared without regard to case. */
  lemma NounRootExamples()
    ensures NounRoot("Haus", "Noun", "das") == "das Haus"
    ensures NounRoot("Haus", "NOUN", "das") == "das Haus"
    ensures NounRoot("Haus", "Noun", "") == "Haus"
    ensures NounRoot("sonnig", "Adj", "der") == "sonnig"
  {
    assert Lower("Noun") == "noun";
    assert Lower("NOUN") == "noun";
    assert Lower("Adj")[0] == 'a';
  }
}
