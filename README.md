# Search-tool result formatting, modelled in Dafny

The repository wires two search providers into a language-model agent: an
arXiv paper search and a Tavily web search. Each provider sits behind a
tool function that the agent calls. Apart from configuration and the call
to the provider, each tool function does one thing: it renders the list of
records the provider returned as one text block for the agent. This project
models that rendering for both tools and proves what it produces.

- `lists.dfy`, module `Lists`: `Map`, the list built by appending one
  rendered entry per record inside the tool's `for` loop, with lemmas on
  indexing, concatenation and slicing.
- `py_text.dfy`, module `PyText`: the Python string operations the
  formatters use. `IsSpace` is the exact set of code points `str.isspace()`
  accepts. Also `Strip` (`str.strip()`), `Take` (the slice `s[:n]`) and
  `Join` (`sep.join(parts)`). `Strip` is pinned down by lemmas: it removes
  only whitespace (`StripParts`) and it is the unique such result
  (`StripUnique`).
- `arxiv_agent.dfy`, module `ArxivAgent`: a `Paper` record (date text,
  title, author names, abstract) and `Entry`, the four-line block for one
  paper. `Rendered` is the expected answer: the entries joined by a blank
  line, or `"No results found."` when there are no papers. The method
  `ArxivSearch` is the source's loop that appends entries and then joins
  them; it is proved equal to `Rendered`.
- `tavily_agent.dfy`, module `TavilyAgent`: a `Hit` record whose title, URL
  and content may each be absent, and `Entry`, the two-line block for one
  hit. The snippet is `Strip(Take(content, 400))` followed by `"..."`.
  `Rendered` is the expected answer, with `"No sources found."` when the
  `results` field is absent, null or empty. The method `TavilySearch` is the
  source's early return plus the append loop; it is proved equal to
  `Rendered`.

The web tool cuts a hit's content at 400 characters and strips the cut
text afterwards (tavily_agent.py:28). Stripping first can give a
different snippet, and `CutBeforeStrip` exhibits an input on which the two
orders differ.

## Model

| member | source | states |
|---|---|---|
| `Lists.Map` | arxiv_agent.py:20-27 | the list built in the loop has exactly one entry per input record |
| `Lists.MapAt` | arxiv_agent.py:21-27 | entry k is the rendering of record k, so the input order is kept |
| `Lists.MapConcat` | tavily_agent.py:24-29 | rendering two record lists placed one after the other gives the first list's entries followed by the second's |
| `Lists.MapAppend` | tavily_agent.py:26-29 | one loop step appends exactly the new record's entry |
| `Lists.MapSlice` | arxiv_agent.py:20-27 | cutting the records at position k cuts the entry list at the same position |
| `PyText.IsSpace` | arxiv_agent.py:26 | the whitespace `str.isspace()` accepts, code point by code point: U+0009 to U+000D, U+001C to U+0020, U+0085, U+00A0, U+1680, U+2000 to U+200A, U+2028, U+2029, U+202F, U+205F and U+3000; these are what `strip()` removes |
| `PyText.Strip` | arxiv_agent.py:26 | `strip()` leaves no whitespace at either end and never lengthens the text |
| `PyText.StripParts` | arxiv_agent.py:26 | `strip()` removes only whitespace: the input is a whitespace run, the result, and a whitespace run |
| `PyText.StripUnique` | arxiv_agent.py:26 | a piece with no edge whitespace, surrounded by whitespace runs, strips to exactly that piece; together with `Strip` and `StripParts` this defines `strip()` |
| `PyText.StripAllSpace` | tavily_agent.py:28 | text made only of whitespace strips to the empty text |
| `PyText.StripSkipsFront` | arxiv_agent.py:26 | leading whitespace in front of a non-whitespace character makes no difference to the stripped result |
| `PyText.StripSkipsBack` | arxiv_agent.py:26 | for a non-empty piece with no edge whitespace, only the trailing whitespace is removed |
| `PyText.Take` | tavily_agent.py:28 | `s[:n]` is a prefix of `s`, of length `n`, or all of `s` when it is shorter |
| `PyText.Join` | arxiv_agent.py:29 | `sep.join(parts)`: the parts in order with `sep` between each pair of neighbours and none before the first or after the last; no parts give the empty text |
| `PyText.JoinLength` | arxiv_agent.py:29 | a join of n parts has the parts' total length plus n - 1 separators |
| `PyText.JoinEnds` | arxiv_agent.py:25 | the join begins with the first part and ends with the last part, with no separator before or after them |
| `PyText.JoinSplit` | arxiv_agent.py:29 | a join splits at any boundary between parts into the left join, one separator and the right join |
| `ArxivAgent.AuthorField` | arxiv_agent.py:25 | the authors line's field: the author names in the provider's order joined by `", "` |
| `ArxivAgent.Entry` | arxiv_agent.py:22-27 | one paper's entry: `"📅 "` and the date, `"📌 "` and the title, `"👥 Authors: "` and the author field, `"📝 Abstract: "` and the stripped summary, each line closed by a newline |
| `ArxivAgent.Rendered` | arxiv_agent.py:29 | the tool's answer: the entries of the papers in order joined by `"\n\n"`, or `"No results found."` when there are no papers |
| `ArxivAgent.EntryEnds` | arxiv_agent.py:22-27 | every paper's entry starts with the date marker and ends with a newline |
| `ArxivAgent.ArxivSearch` | arxiv_agent.py:20-29 | the loop that appends entries, followed by the join or the fixed sentence, returns exactly `Rendered(results)` |
| `ArxivAgent.NoResultsIffEmpty` | arxiv_agent.py:29 | the answer is `"No results found."` if and only if there are no papers, and it is never empty |
| `ArxivAgent.RenderedSplit` | arxiv_agent.py:29 | the answer for papers is the answer for the first k papers, a blank line, and the answer for the rest |
| `ArxivAgent.RenderedEndsWithNewline` | arxiv_agent.py:27-29 | when there are papers, the answer ends with the newline of the last entry |
| `ArxivAgent.ThreeNewlines` | arxiv_agent.py:27-29 | consecutive entries are separated by three newlines: the one closing the earlier entry and the two of the separator |
| `ArxivAgent.AuthorFieldShape` | arxiv_agent.py:25 | no authors give an empty field; one author gives the name alone, with no comma; otherwise the field starts with the first name and ends with the last, and its length is the names' total length plus the two characters of `", "` for each gap between names |
| `ArxivAgent.EntryAbstract` | arxiv_agent.py:26 | the abstract line holds the summary with its surrounding whitespace, and nothing else, removed |
| `TavilyAgent.Shown` | tavily_agent.py:27 | what the f-string shows for `result.get(key)`: the field's text, or `None` when the key is absent |
| `TavilyAgent.ContentOf` | tavily_agent.py:28 | `result.get('content', '')`: the content, or the empty text when the key is absent |
| `TavilyAgent.Headline` | tavily_agent.py:27 | the first line of a hit's entry: `"🔗 "`, the shown title, the shown URL in parentheses and a newline |
| `TavilyAgent.Entry` | tavily_agent.py:26-29 | one hit's entry: the headline, then `"📝 "`, the snippet of the content, `"..."` and a newline |
| `TavilyAgent.Rendered` | tavily_agent.py:20-31 | the tool's answer: `"No sources found."` when the `results` field is absent, null or empty, otherwise the entries of the hits in order joined by `"\n\n"` |
| `TavilyAgent.Snippet` | tavily_agent.py:28 | the snippet is at most 400 characters long, no longer than the content, and has no whitespace at either end |
| `TavilyAgent.TavilySearch` | tavily_agent.py:20-31 | the early return for missing or empty results, then the append loop and the join, return exactly `Rendered(results)` |
| `TavilyAgent.EntryEnds` | tavily_agent.py:26-29 | every hit's entry starts with the link marker and ends with `"...\n"`, whether or not the content was cut |
| `TavilyAgent.NoSourcesIffNoHits` | tavily_agent.py:20-22 | the answer is `"No sources found."` if and only if the results field is absent, null or empty, and it is never empty |
| `TavilyAgent.RenderedSplit` | tavily_agent.py:24-31 | the answer for hits is the answer for the first k hits, a blank line, and the answer for the rest |
| `TavilyAgent.SnippetWindow` | tavily_agent.py:28 | the snippet is a contiguous piece of the content's first 400 characters, with only whitespace before and after it in that window |
| `TavilyAgent.ShortContentSnippet` | tavily_agent.py:28 | content of at most 400 characters is not cut: its snippet is the whole content, stripped |
| `TavilyAgent.CutBeforeStrip` | tavily_agent.py:28 | the cut comes before the strip: one leading space followed by over 399 non-space characters gives a 399-character snippet, while stripping first would keep 400 |
| `TavilyAgent.MissingContentEntry` | tavily_agent.py:28 | a hit without content gets the snippet line `"📝 ...\n"` |
| `TavilyAgent.SnippetField` | tavily_agent.py:27-28 | the text between `"📝 "` and `"..."` is exactly the snippet: at most 400 characters, with no edge whitespace |

## Left out

- The calls to the providers (`arxiv.Search` with its result count and sort order, `TavilyClient.search` with its flags). They are network I/O. The model takes the records they return as its input. Their order and their count limit are the provider's promise, not this code's.
- The `query` and `max_results` parameters of both tool functions. They are only passed on to the provider call.
- How the date and author names become text (`result.published.date()`, `str(a)`). They are library calls, so `Paper` holds them as ready-made strings.
- A Tavily `content` key that is present but holds `None`. Python raises a `TypeError` at the slice `[:400]` there, before `.strip()` runs. The `Hit` type only allows absent or textual content. An absent title or URL is modelled, and shows as `None`.
- Code points are Unicode scalar values, so Python strings that hold lone surrogates are not represented.
- Tool registration, the Azure chat model client, agent construction, `agent.run`, loading environment variables and the final prints. These are a third-party framework, configuration and I/O.
