/** The result formatting of the arXiv search tool: the papers the provider
    returned become one text block, one entry per paper, or a fixed sentence
    when there are none. The provider call itself is replaced by the
    sequence of papers it would have yielded. */
module ArxivAgent {
  import opened PyText
  import opened Lists

  /** One paper as the tool reads it. `published` is the publication date
      already rendered as text and `authors` the author names already
      rendered as text, in the provider's order. */
  datatype Paper = Paper(published: string, title: string, authors: seq<string>, summary: string)

  /** What the tool returns when the provider yields no papers. */
  const NoResults: string := "No results found."

  /** What stands between two consecutive entries. */
  const EntrySeparator: string := "\n\n"

  /** The author field: the names joined with a comma and a space. */
  function AuthorField(authors: seq<string>): string
  {
    Join(", ", authors)
  }

  /** The four-line entry of one paper: date, title, authors and the stripped
      abstract, each line ended by a newline. */
  function Entry(p: Paper): string
  {
    "📅 " + p.published + "\n"
    + "📌 " + p.title + "\n"
    + "👥 Authors: " + AuthorField(p.authors) + "\n"
    + "📝 Abstract: " + Strip(p.summary) + "\n"
  }

  /** Every entry opens with the date marker and ends with a newline. */
  lemma EntryEnds(p: Paper)
    ensures var e := Entry(p); |e| >= 2 && e[..2] == "📅 " && e[|e| - 1] == '\n'
  {
  }

  /** The text the tool hands back to the agent for `papers`. */
  function Rendered(papers: seq<Paper>): string
  {
    if papers == [] then NoResults else Join(EntrySeparator, Map(Entry, papers))
  }

  /** The tool function once the provider has answered: builds the list of
      entries one paper at a time, then joins it, or returns the fixed
      sentence when the list stayed empty. */
  method ArxivSearch(results: seq<Paper>) returns (text: string)
    ensures text == Rendered(results)
  {
    var entries: seq<string> := [];
    for i := 0 to |results|
      invariant entries == Map(Entry, results[..i])
    {
      MapAppend(Entry, results[..i], results[i]);
      assert results[..i + 1] == results[..i] + [results[i]];
      entries := entries + [Entry(results[i])];
    }
    assert results[..|results|] == results;
    if entries != [] {
      text := Join(EntrySeparator, entries);
    } else {
      text := NoResults;
    }
  }

  /** The fixed sentence comes back exactly when there are no papers, and the
      answer is never empty. */
  lemma NoResultsIffEmpty(papers: seq<Paper>)
    ensures Rendered(papers) == NoResults <==> papers == []
    ensures Rendered(papers) != ""
  {
    if papers != [] {
      var es := Map(Entry, papers);
      JoinEnds(EntrySeparator, es);
      MapAt(Entry, papers, 0);
      EntryEnds(papers[0]);
      var r := Rendered(papers);
      assert r[..2] == es[0][..2] == "📅 ";
      assert NoResults[0] == 'N';
    }
  }

  /** The answer for a list of papers is the answer for its first `k` papers,
      one blank line, and the answer for the rest. */
  lemma RenderedSplit(papers: seq<Paper>, k: nat)
    requires 0 < k < |papers|
    ensures Rendered(papers)
      == Rendered(papers[..k]) + EntrySeparator + Rendered(papers[k..])
  {
    JoinSplit(EntrySeparator, Map(Entry, papers), k);
    MapSlice(Entry, papers, k);
  }

  /** When there are papers, the answer ends in the newline that closes the
      last entry. */
  lemma RenderedEndsWithNewline(papers: seq<Paper>)
    requires papers != []
    ensures var r := Rendered(papers); |r| >= 1 && r[|r| - 1] == '\n'
  {
    var es := Map(Entry, papers);
    JoinEnds(EntrySeparator, es);
    var last := es[|es| - 1];
    MapAt(Entry, papers, |papers| - 1);
    EntryEnds(papers[|papers| - 1]);
    var r := Rendered(papers);
    assert r[|r| - |last|..] == last;
    assert r[|r| - 1] == last[|last| - 1];
  }

  /** Between the entries of papers `k - 1` and `k` stand three newlines: the
      one that closes the earlier entry and the blank line of the separator. */
  lemma ThreeNewlines(papers: seq<Paper>, k: nat)
    requires 0 < k < |papers|
    ensures var front := Rendered(papers[..k]);
      |front| >= 1 && front[|front| - 1] == '\n'
      && Rendered(papers) == front + "\n\n" + Rendered(papers[k..])
  {
    RenderedSplit(papers, k);
    RenderedEndsWithNewline(papers[..k]);
  }

  /** The author field lists the names in order with no separator before the
      first or after the last; a single author's field is the name alone. */
  lemma AuthorFieldShape(authors: seq<string>)
    ensures |authors| == 0 ==> AuthorField(authors) == ""
    ensures |authors| == 1 ==> AuthorField(authors) == authors[0]
    ensures |authors| > 0 ==>
      var f := AuthorField(authors);
      |f| == TotalLength(authors) + 2 * (|authors| - 1)
      && |authors[0]| <= |f| && f[..|authors[0]|] == authors[0]
      && |authors[|authors| - 1]| <= |f| && f[|f| - |authors[|authors| - 1]|..] == authors[|authors| - 1]
  {
    if |authors| > 0 {
      JoinLength(", ", authors);
      JoinEnds(", ", authors);
    }
  }

  /** The abstract line of an entry carries the summary with its surrounding
      whitespace removed and nothing else removed. */
  lemma EntryAbstract(p: Paper) returns (front: string, back: string)
    ensures var e := Entry(p); var a := Strip(p.summary);
      |a| + 1 <= |e| && e[|e| - |a| - 1..|e| - 1] == a
    ensures NoEdgeSpace(Strip(p.summary))
    ensures p.summary == front + Strip(p.summary) + back
    ensures AllSpace(front) && AllSpace(back)
  {
    front, back := StripParts(p.summary);
    var a := Strip(p.summary);
    var e := Entry(p);
    var head := "📅 " + p.published + "\n"
      + "📌 " + p.title + "\n"
      + "👥 Authors: " + AuthorField(p.authors) + "\n"
      + "📝 Abstract: ";
    assert e == head + a + "\n";
    assert e[|e| - |a| - 1..|e| - 1] == a;
  }
}
