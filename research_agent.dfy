/** The research agent: a state record threaded through a search node and a
    summarize node, wired as the linear graph search -> summarize -> END. */
module ResearchAgent {
  import opened Papers
  import PubmedSearch
  import PaperSummarizer
  import Text

  /** The state that flows through the graph. */
  datatype ResearchState = ResearchState(query: string, maxResults: int, papers: seq<Paper>)

  /** The collaborators a run talks to: the PubMed service and the chat model. */
  datatype Services = Services(eutils: PubmedSearch.EUtils, model: PaperSummarizer.ChatModel)

  /** `search_node`: the search result replaces the papers; the query and the
      bound are kept. */
  function SearchNode(state: ResearchState, eutils: PubmedSearch.EUtils): (r: ResearchState)
    ensures r.query == state.query && r.maxResults == state.maxResults
    ensures r.papers == PubmedSearch.SearchResult(state.query, state.maxResults, eutils)
  {
    state.(papers := PubmedSearch.SearchResult(state.query, state.maxResults, eutils))
  }

  /** `summarize_node`: an empty list is left alone, otherwise the summarized
      list replaces the papers; the query and the bound are kept. */
  function SummarizeNode(state: ResearchState, model: PaperSummarizer.ChatModel): (r: ResearchState)
    ensures r.query == state.query && r.maxResults == state.maxResults
    ensures |r.papers| == |state.papers|
    ensures state.papers == [] ==> r == state
    ensures state.papers != [] ==> r.papers == PaperSummarizer.Summarized(state.papers, model)
  {
    if state.papers == [] then state
    else state.(papers := PaperSummarizer.Summarized(state.papers, model))
  }

  /** The named nodes of the graph. */
  datatype Node = Search | Summarize

  /** The compiled graph of `create_research_graph`: entry at search, an edge
      from search to summarize and one from summarize to END, kept as the nodes
      in the order the edges visit them. */
  function CreateResearchGraph(): (graph: seq<Node>)
    ensures forall state, services :: Invoke(graph, state, services)
                                      == SummarizeNode(SearchNode(state, services.eutils), services.model)
  {
    [Search, Summarize]
  }

  /** One node run on the state; no node touches the query or the bound. */
  function RunNode(node: Node, state: ResearchState, services: Services): (r: ResearchState)
    ensures r.query == state.query && r.maxResults == state.maxResults
  {
    match node
    case Search => SearchNode(state, services.eutils)
    case Summarize => SummarizeNode(state, services.model)
  }

  /** `graph.invoke(state)`: each node of the path runs once, in order, on the
      state the previous one returned. */
  function Invoke(graph: seq<Node>, state: ResearchState, services: Services): (r: ResearchState)
    ensures r.query == state.query && r.maxResults == state.maxResults
    decreases |graph|
  {
    if graph == [] then state else Invoke(graph[1..], RunNode(graph[0], state, services), services)
  }

  /** Running a path in two pieces is running the first piece, then the second
      on its result. */
  lemma {:induction false} InvokeSequential(g1: seq<Node>, g2: seq<Node>, state: ResearchState, services: Services)
    ensures Invoke(g1 + g2, state, services) == Invoke(g2, Invoke(g1, state, services), services)
    decreases |g1|
  {
    if g1 != [] {
      assert (g1 + g2)[1..] == g1[1..] + g2;
      InvokeSequential(g1[1..], g2, RunNode(g1[0], state, services), services);
    } else {
      assert g1 + g2 == g2;
    }
  }

  /** A record built by the search is sent to the chat model exactly when its
      joined abstract text, once stripped, is neither empty nor the "No abstract
      found" placeholder. */
  lemma SentAbstractOfArticle(article: PubmedSearch.Article)
    requires article.pmids != []
    ensures var text := Text.Strip(Text.Join("\n", article.abstractNodes));
            PaperSummarizer.HasAbstract(PubmedSearch.ArticleRecord(article)) <==> text != "" && text != NoAbstractFound
  {
    PubmedSearch.ArticleRecordFields(article);
  }

  /** The search node ignores whatever papers the state already held. The last
      two clauses repeat `SearchNode`'s own contract so that this lemma states
      the whole behaviour of the node in one place. */
  lemma SearchNodeReplacesPapers(s1: ResearchState, s2: ResearchState, eutils: PubmedSearch.EUtils)
    requires s1.query == s2.query && s1.maxResults == s2.maxResults
    ensures SearchNode(s1, eutils) == SearchNode(s2, eutils)
    ensures SearchNode(s1, eutils).query == s1.query && SearchNode(s1, eutils).maxResults == s1.maxResults
    ensures SearchNode(s1, eutils).papers == PubmedSearch.SearchResult(s1.query, s1.maxResults, eutils)
  {
  }

  /** With no papers the summarize node returns the state as it is, whatever the
      chat model would have said: the summarizer is not consulted. */
  lemma EmptyStateNotSummarized(state: ResearchState, model: PaperSummarizer.ChatModel)
    requires state.papers == []
    ensures SummarizeNode(state, model) == state
  {
  }

  /** With papers, the summarize node keeps the query and the bound and the
      records, in order, each now carrying a summary. */
  lemma SummarizeNodeKeepsRecords(state: ResearchState, model: PaperSummarizer.ChatModel)
    ensures var r := SummarizeNode(state, model);
            && r.query == state.query && r.maxResults == state.maxResults
            && |r.papers| == |state.papers|
            && (forall i :: 0 <= i < |r.papers| ==> SameExceptSummary(r.papers[i], state.papers[i]))
            && (state.papers != [] ==> forall i :: 0 <= i < |r.papers| ==> r.papers[i].summary.Some?)
  {
  }

  /** A full run: the final papers are the search result's records, in its
      order, each with a summary written by the summarizer's policy. */
  lemma RunSummarizesSearchResult(state: ResearchState, services: Services)
    ensures var found := PubmedSearch.SearchResult(state.query, state.maxResults, services.eutils);
            var final := Invoke(CreateResearchGraph(), state, services);
            && final.query == state.query && final.maxResults == state.maxResults
            && |final.papers| == |found|
            && (forall i :: 0 <= i < |found| ==>
                  SameExceptSummary(final.papers[i], found[i])
                  && final.papers[i].summary == Some(PaperSummarizer.SummaryOf(services.model, i, found[i])))
  {
  }

  /** When the search finds nothing, the run ends with no papers. */
  lemma EmptySearchEmptyResult(state: ResearchState, services: Services)
    requires PubmedSearch.SearchResult(state.query, state.maxResults, services.eutils) == []
    ensures Invoke(CreateResearchGraph(), state, services).papers == []
  {
  }
}
