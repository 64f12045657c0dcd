# Bio literature research agent — a verified model

This project models the pipeline of a two-stage literature agent. A search
stage asks PubMed for the articles matching a query and builds one paper
record per article. A summarize stage then writes a short summary into every
record, calling a chat model once per record that has an abstract. The agent
threads a state record `{query, max_results, papers}` through a fixed graph:
search, then summarize, then END.

The model has five modules:

- `Papers` (`papers.dfy`): the paper record, with the keys `id`, `title`,
  `abstract`, `url` and `summary`, and the "No abstract found" placeholder
  shared by the search and the summarizer.
- `Text` (`text.dfy`): the Python string operations the search relies on.
  These are `str.strip()` with Python's full whitespace set, `"".join` and
  `sep.join`.
- `PubmedSearch` (`pubmed_search.dfy`): `search_pubmed`. The two E-utilities
  exchanges are an oracle (`EUtils`). Each exchange answers with a decoded
  body or with `Error`. The loop that builds records is the method
  `SearchPubmed`, proved equal to the function `SearchResult`.
- `PaperSummarizer` (`paper_summarizer.dfy`): `summarize_papers`. It is an
  in-place method over an `array<Paper>`, proved equal to the pointwise
  function `Summarized`. It also reports the abstracts it sent to the model
  (`Prompts`), so that calls can be counted. The chat model is `Unavailable`
  when it could not be set up at import. Otherwise it is an oracle that
  answers each call with content or with an exception.
- `ResearchAgent` (`research_agent.dfy`): the state record, the two nodes and
  the compiled graph. The graph is the list of nodes that its edges visit.
  `Invoke` runs that list in order.

Notes on the source's behaviour, which the model keeps:

- A summary is the model's content verbatim, so it may be the empty string.
  It is not guaranteed to be non-empty.
- `max_results` is passed to the search as it is, with no positivity check.
- A title or abstract made only of whitespace is not empty before stripping.
  So it strips to `""`, not to its placeholder. The summarizer still skips
  such a record, because it treats an empty abstract like a missing one.

## Model

| member | source | states |
|---|---|---|
| Text.Strip | pubmed_search.py:71-72 | `strip()` returns the slice of its input between the leading and the trailing whitespace. Only whitespace is removed. The result neither starts nor ends with whitespace. It is empty exactly when the input is whitespace only. |
| Text.StripUnpadded | pubmed_search.py:66-67 | A text with nothing to strip, such as either placeholder, comes back from `strip()` unchanged. |
| Text.StripIdempotent | pubmed_search.py:71-72 | Stripping an already stripped text changes nothing. |
| Text.Concat | pubmed_search.py:66 | `"".join` of the title text nodes is empty exactly when every node is empty. |
| Text.Join | pubmed_search.py:67 | `"\n".join` of the abstract text nodes is empty exactly when there are no nodes or a single empty one. |
| Text.ConcatIsJoinOnEmpty | pubmed_search.py:66-67 | Concatenation agrees with a join on the empty separator. |
| PubmedSearch.IdList | pubmed_search.py:36 | A present id list is returned as it is. A non-empty result is exactly the list the answer holds, so an absent `esearchresult`, an absent `idlist` or a null `idlist` reads as empty. |
| PubmedSearch.SearchResult | pubmed_search.py:32-88 | A failed esearch returns `[]`. An empty or missing id list returns `[]`. A failed efetch returns `[]`. When both exchanges succeed, the result is exactly the records built from the fetched articles. Conversely, a non-empty result means both exchanges succeeded. |
| PubmedSearch.SearchPubmed | pubmed_search.py:32-88 | The method with the article loop, including the `continue` for articles without a PMID, returns exactly `SearchResult`. |
| PubmedSearch.KeptArticles | pubmed_search.py:60-63 | The articles the loop keeps each have a PMID, and there are never more of them than articles. |
| PubmedSearch.PapersFrom | pubmed_search.py:59-77 | The loop never returns more records than there are articles. |
| PubmedSearch.PapersFromStep | pubmed_search.py:60-74 | One more article adds exactly its record when it has a PMID, and nothing otherwise. |
| PubmedSearch.KeptArticlesAt | pubmed_search.py:60-63 | The kept articles are the articles at the kept positions, in the same order. |
| PubmedSearch.KeptPositions | pubmed_search.py:60-63 | The kept positions are strictly increasing, and each is an article that has a PMID. |
| PubmedSearch.KeptPositionsComplete | pubmed_search.py:60-63 | Every article that has a PMID is kept. |
| PubmedSearch.PapersFromKept | pubmed_search.py:59-75 | Record j is built from the j-th article that has a PMID, in document order. Articles without a PMID contribute nothing. |
| PubmedSearch.KeptArticlesAppend | pubmed_search.py:60-63 | The articles kept from consecutive runs concatenate. |
| PubmedSearch.PapersFromAppend | pubmed_search.py:60-74 | Records from consecutive runs of articles concatenate, so document order is kept. |
| PubmedSearch.AllPositionsKept | pubmed_search.py:60-63 | When every article has a PMID, no position is skipped. |
| PubmedSearch.AllKeptWhenAllHavePmids | pubmed_search.py:60-74 | When every article has a PMID, there is one record per article, and record i is built from article i. |
| PubmedSearch.ArticleRecordFields | pubmed_search.py:65-73 | The id is the first PMID. The url is the PubMed prefix, the id and "/". The title is "No title found" when its joined text is empty, otherwise that text stripped. The abstract follows the same rule with "No abstract found". Whitespace-only text becomes `""`. No summary is set yet. |
| PubmedSearch.PlaceholderAbstract | pubmed_search.py:67-72 | The abstract is "No abstract found" exactly when there are no abstract nodes, when the single node is empty, or when the stripped text is that phrase. |
| PubmedSearch.ArticleUrlGivesId | pubmed_search.py:73 | The url is the prefix, then the id, then "/", so the id can be read back from the url. |
| PubmedSearch.ArticleUrlInjective | pubmed_search.py:73 | Different ids give different urls. |
| PubmedSearch.NoIdsNoFetch | pubmed_search.py:36-40 | An empty id list returns `[]` whatever the efetch service would answer, so no fetch is needed. |
| PaperSummarizer.SummaryOf | paper_summarizer.py:32-60 | An unavailable model gives "Summary not available.". An available model gives "No abstract available to summarize." for a record without a usable abstract. When the record is sent, the summary is the content the model returned for this record's call, verbatim, or "Failed to generate summary." when that call raises. |
| PaperSummarizer.Summarized | paper_summarizer.py:22-63 | The same number of records in the same order. Each keeps its id, title, abstract and url, and carries a summary. |
| PaperSummarizer.Prompts | paper_summarizer.py:41-56 | Calls never exceed the records. There are no calls when the model is unavailable. An empty abstract or "No abstract found" is never sent. |
| PaperSummarizer.SummarizePapers | paper_summarizer.py:22-63 | The method updates the caller's records in place and returns that same list. The list then holds exactly `Summarized` of its old contents. The abstracts sent to the model are exactly `Prompts`. |
| PaperSummarizer.OneCallPerAbstract | paper_summarizer.py:41-56 | With the model available, the number of calls equals the number of records whose abstract is present, non-empty and not the placeholder. |
| PaperSummarizer.PromptsSplit | paper_summarizer.py:41-56 | Calls follow list order: the calls for a list are those for its first part, then those for the rest. |
| PaperSummarizer.SkippedRecord | paper_summarizer.py:44-46 | A record without a usable abstract gets "No abstract available to summarize." and no call is made for it. |
| PaperSummarizer.UnavailableEverywhere | paper_summarizer.py:32-37 | An unavailable model gives every record "Summary not available." and makes no calls. |
| PaperSummarizer.SentRecord | paper_summarizer.py:48-60 | A record that is sent gets the response content verbatim, or "Failed to generate summary." when the call raises. |
| PaperSummarizer.FailureIsolated | paper_summarizer.py:48-60 | Two models that answer alike everywhere except at position k give identical records everywhere except at k. So a failure at k affects no other record. |
| PaperSummarizer.RealAndPlaceholderAbstract | paper_summarizer.py:41-56 | Take a real abstract followed by the placeholder. Exactly one call is made, for the first record, and the second is marked as having nothing to summarize. |
| ResearchAgent.SearchNode | research_agent.py:15-21 | The search node keeps the query and max_results, and its papers are the search result for them. |
| ResearchAgent.SummarizeNode | research_agent.py:24-34 | The summarize node keeps the query, max_results and the number of papers. With no papers it returns the state unchanged. Otherwise the papers are the summarized list. |
| ResearchAgent.RunNode | research_agent.py:43-44 | Running either node keeps the query and max_results. |
| ResearchAgent.Invoke | research_agent.py:47-49 | Running any path of nodes keeps the query and max_results. |
| ResearchAgent.CreateResearchGraph | research_agent.py:36-52 | On every state and with any services, invoking the compiled graph is exactly `summarize_node` applied to the result of `search_node`: entry at search, then summarize, then END. |
| ResearchAgent.InvokeSequential | research_agent.py:47-49 | Running a path in two pieces is the same as running the first piece and then the second on its result. |
| ResearchAgent.SentAbstractOfArticle | paper_summarizer.py:44 | A record built by the search is sent to the chat model exactly when its joined abstract text, once stripped, is neither empty nor "No abstract found". |
| ResearchAgent.SearchNodeReplacesPapers | research_agent.py:15-21 | The search node keeps the query and max_results. Its papers are exactly the search result, whatever papers the state held before. |
| ResearchAgent.EmptyStateNotSummarized | research_agent.py:29-31 | With no papers, the summarize node returns the state unchanged, whatever the chat model would say. |
| ResearchAgent.SummarizeNodeKeepsRecords | research_agent.py:24-34 | The summarize node keeps the query, max_results, the number and order of records and every field but the summary. Every record has a summary when there were papers. |
| ResearchAgent.RunSummarizesSearchResult | research_agent.py:15-34 | After a full run, the papers are the search result's records in its order. Each carries the summary that the summarizer's policy gives it at its position. The query and max_results are unchanged. |
| ResearchAgent.EmptySearchEmptyResult | research_agent.py:29-31 | When the search finds nothing, the final state has no papers. |

## Left out

- HTTP requests, `raise_for_status`, JSON decoding, `lxml` parsing and XPath are not modelled. `EUtils` stands in for them. Each exchange yields a decoded body or `Error`, and `Error` covers every exception the `try` block catches before the loop. An article is reduced to the text nodes of its PMID, ArticleTitle and AbstractText elements.
- The esearch JSON is reduced to whether `esearchresult` is present and whether its `idlist` holds a list of ids. An absent `idlist` and a null one both give the empty list, which ends the search. An `esearchresult` that is not an object makes `.get` raise, which the source catches; here that case is an `Error` answer.
- An `idlist` that holds something other than a list is not modelled. A `0` ends the search at the emptiness test, and any other number raises at `len(paper_ids)` in the progress message; both end in `[]`. A string would be joined character by character and sent to efetch.
- An `idlist` holding values that are not strings is not modelled, since ids are strings here. It raises at `",".join` and ends in `[]`.
- The 0.3-second pause between the two requests is not modelled. It has no effect on the result.
- API key setup, `load_dotenv`, `getpass` and `init_chat_model` are not modelled. Their outcome is the `Unavailable`/`Available` choice.
- The prompt wording and the system instruction are not modelled. The oracle receives the abstract text only.
- Response content other than text, such as a list of content blocks, is not modelled.
- LangGraph's `StateGraph`, `compile` and `invoke` are modelled as the list of nodes the edges visit, run in order. The engine does not catch stage errors, but no stage here raises.
- The mermaid diagram export, `main`, the argparse command lines and all console output are not modelled.
- Records are values. The source updates the same dictionaries that the search returned, and returns the same list object. The method models this by updating the caller's array in place. Sharing of dictionaries between lists is not modelled, and nothing in the pipeline reads the old list afterwards.
- The progress message reads `paper['title']`, which would raise if a record had no title. Records here always have a title, so that crash is not modelled.
