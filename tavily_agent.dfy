/** The result formatting of the web search tool: the hits in the provider's
    response become one text block, one entry per hit, or a fixed sentence
    when there are none. The provider call itself is replaced by the
    `results` field of the response it would have returned. */
module TavilyAgent {
  import opened PyText
  import opened Lists

  datatype Option<T> = None | Some(value: T)

  /** One web hit as the tool reads it: each field is present in the
      provider's record (`Some`) or absent from it (`None`). */
  datatype Hit = Hit(title: Option<string>, url: Option<string>, content: Option<string>)

  /** What the tool returns when the response holds no hits. */
  const NoSources: string := "No sources found."

  /** What stands between two consecutive entries. */
  const EntrySeparator: string := "\n\n"

  /** How many characters of a hit's content are kept before stripping. */
  const SnippetLimit: nat := 400

  /** What an f-string shows for `.get(key)`: the text, or `None` when the
      key is absent. */
  function Shown(field: Option<string>): string
  {
    match field
    case Some(s) => s
    case None => "None"
  }

  /** `.get('content', '')`: the content, or the empty text when absent. */
  function ContentOf(h: Hit): string
  {
    match h.content
    case Some(c) => c
    case None => ""
  }

  /** The snippet of a content: its first 400 characters, then stripped. */
  function Snippet(content: string): (r: string)
    ensures |r| <= SnippetLimit && |r| <= |content|
    ensures NoEdgeSpace(r)
  {
    Strip(Take(content, SnippetLimit))
  }

  /** The first line of an entry: title and URL. */
  function Headline(h: Hit): string
  {
    "🔗 " + Shown(h.title) + " (" + Shown(h.url) + ")\n"
  }

  /** The two-line entry of one hit: the headline, then the snippet followed
      by an ellipsis whether or not anything was cut. */
  function Entry(h: Hit): string
  {
    Headline(h) + "📝 " + Snippet(ContentOf(h)) + "...\n"
  }

  /** The text the tool hands back to the agent for the response's `results`
      field; `None` stands for a response without that field or with a null
      one, both of which the tool treats as no hits. */
  function Rendered(results: Option<seq<Hit>>): string
  {
    match results
    case None => NoSources
    case Some(hits) => if hits == [] then NoSources else Join(EntrySeparator, Map(Entry, hits))
  }

  /** The tool function once the provider has answered: returns the fixed
      sentence early when there are no hits, otherwise builds the list of
      entries one hit at a time and joins it. */
  method TavilySearch(results: Option<seq<Hit>>) returns (text: string)
    ensures text == Rendered(results)
  {
    if results.None? || results.value == [] {
      return NoSources;
    }
    var hits := results.value;
    var entries: seq<string> := [];
    for i := 0 to |hits|
      invariant entries == Map(Entry, hits[..i])
    {
      MapAppend(Entry, hits[..i], hits[i]);
      assert hits[..i + 1] == hits[..i] + [hits[i]];
      entries := entries + [Entry(hits[i])];
    }
    assert hits[..|hits|] == hits;
    text := Join(EntrySeparator, entries);
  }

  /** Every entry opens with the link marker and ends with the ellipsis and a
      newline. */
  lemma EntryEnds(h: Hit)
    ensures var e := Entry(h);
      |e| >= 4 && e[..2] == "🔗 " && e[|e| - 4..] == "...\n"
  {
  }

  /** The fixed sentence comes back exactly when the field is absent or holds
      no hits, and the answer is never empty. */
  lemma NoSourcesIffNoHits(results: Option<seq<Hit>>)
    ensures Rendered(results) == NoSources <==> (results.None? || results.value == [])
    ensures Rendered(results) != ""
  {
    if results.Some? && results.value != [] {
      var es := Map(Entry, results.value);
      JoinEnds(EntrySeparator, es);
      MapAt(Entry, results.value, 0);
      EntryEnds(results.value[0]);
      var r := Rendered(results);
      assert r[..2] == es[0][..2] == "🔗 ";
      assert NoSources[0] == 'N';
    }
  }

  /** The answer for a list of hits is the answer for its first `k` hits,
      one blank line, and the answer for the rest: entries keep the order of
      the hits. */
  lemma RenderedSplit(hits: seq<Hit>, k: nat)
    requires 0 < k < |hits|
    ensures Rendered(Some(hits))
      == Rendered(Some(hits[..k])) + EntrySeparator + Rendered(Some(hits[k..]))
  {
    JoinSplit(EntrySeparator, Map(Entry, hits), k);
    MapSlice(Entry, hits, k);
  }

  /** The snippet is a piece of the first 400 characters of the content, and
      only whitespace of that window lies before and after it. */
  lemma SnippetWindow(content: string) returns (start: nat)
    ensures var s := Snippet(content); var w := Take(content, SnippetLimit);
      start + |s| <= |w| && w[start..start + |s|] == s
      && AllSpace(w[..start]) && AllSpace(w[start + |s|..])
  {
    var w := Take(content, SnippetLimit);
    var front, back := StripParts(w);
    var s := Snippet(content);
    start := |front|;
    assert w[..start] == front;
    assert w[start..start + |s|] == s;
    assert w[start + |s|..] == back;
  }

  /** Content of at most 400 characters loses nothing to the cut: its snippet
      is the whole content, stripped. */
  lemma ShortContentSnippet(content: string)
    requires |content| <= SnippetLimit
    ensures Snippet(content) == Strip(content)
  {
  }

  /** Stripping text that opens with one whitespace character and has no
      other whitespace drops exactly that character. */
  lemma StripOneLeadingSpace(c: string)
    requires |c| >= 2 && IsSpace(c[0])
    requires forall i :: 0 < i < |c| ==> !IsSpace(c[i])
    ensures Strip(c) == c[1..]
  {
    var rest := c[1..];
    assert rest[0] == c[1] && rest[|rest| - 1] == c[|c| - 1];
    assert Strip(rest) == rest;
  }

  /** The cut comes before the strip: when the content opens with one
      whitespace character followed by more than 399 others, the snippet
      holds 399 characters, while stripping first and cutting afterwards
      would keep 400. */
  lemma CutBeforeStrip(content: string)
    requires |content| > SnippetLimit && IsSpace(content[0])
    requires forall i :: 0 < i < |content| ==> !IsSpace(content[i])
    ensures Snippet(content) == content[1..SnippetLimit]
    ensures Take(Strip(content), SnippetLimit) == content[1..SnippetLimit + 1]
    ensures Snippet(content) != Take(Strip(content), SnippetLimit)
  {
    var window := content[..SnippetLimit];
    assert Take(content, SnippetLimit) == window;
    StripOneLeadingSpace(window);
    assert window[1..] == content[1..SnippetLimit];
    StripOneLeadingSpace(content);
    assert content[1..][..SnippetLimit] == content[1..SnippetLimit + 1];
  }

  /** A hit without content still gets its snippet line: an empty snippet
      and the ellipsis. */
  lemma MissingContentEntry(h: Hit)
    requires h.content.None?
    ensures Entry(h) == Headline(h) + "📝 ...\n"
  {
    var c := ContentOf(h);
    assert |c| == 0;
    var s := Snippet(c);
    assert s == [];
    assert Entry(h) == Headline(h) + "📝 " + s + "...\n";
  }

  /** The text between the snippet marker and the ellipsis is the snippet,
      at most 400 characters long, with no whitespace at either end. */
  lemma SnippetField(h: Hit)
    ensures var e := Entry(h); var from := |Headline(h)| + 2;
      from <= |e| - 4 && e[from..|e| - 4] == Snippet(ContentOf(h))
      && |e| - 4 - from <= SnippetLimit && NoEdgeSpace(e[from..|e| - 4])
  {
    var s := Snippet(ContentOf(h));
    var e := Entry(h);
    assert e == (Headline(h) + "📝 ") + s + "...\n";
  }
}
