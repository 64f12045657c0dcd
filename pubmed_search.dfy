/** The PubMed search: an esearch request for the ids matching a query, an
    efetch request for their XML records, and the loop that turns each
    `PubmedArticle` into a paper record. The two HTTP exchanges (with JSON
    decoding and XML parsing) are an oracle; every way they can fail is one
    `Error` answer. */
module PubmedSearch {
  import opened Papers
  import opened Text

  const NoTitleFound := "No title found"
  const ArticleUrlPrefix := "https://pubmed.ncbi.nlm.nih.gov/"

  /** One `PubmedArticle` element reduced to the text nodes the loop reads, in
      document order: every PMID text, the text nodes under `ArticleTitle` and
      the text nodes under `Abstract/AbstractText`. */
  datatype Article = Article(pmids: seq<string>, titleNodes: seq<string>, abstractNodes: seq<string>)

  /** One HTTP exchange: the decoded body, or an error (the request failed, the
      status was an error, the JSON or the XML could not be decoded). */
  datatype Fetched<T> = Received(body: T) | Error

  /** The decoded esearch JSON as far as the search looks into it: whether the
      key "esearchresult" is there and, inside it, whether "idlist" holds a
      list (None: the key is absent or holds null). */
  datatype SearchJson = SearchJson(esearchresult: Option<Option<seq<string>>>)

  /** The E-utilities service: `esearch` answers a (term, retmax) request,
      `efetch` answers a request for a comma-separated list of ids. */
  datatype EUtils = EUtils(esearch: (string, int) -> Fetched<SearchJson>, efetch: string -> Fetched<seq<Article>>)

  /** The id list of an esearch answer, an absent key or a null list reading
      as empty: a non-empty list is the one the answer holds. */
  function IdList(json: SearchJson): (ids: seq<string>)
    ensures json.esearchresult.Some? && json.esearchresult.value.Some? ==> ids == json.esearchresult.value.value
    ensures ids != [] ==> json.esearchresult == Some(Some(ids))
  {
    match json.esearchresult
    case None => []
    case Some(None) => []
    case Some(Some(ids)) => ids
  }

  /** The PubMed page of the article with the given id. */
  function ArticleUrl(id: string): string {
    ArticleUrlPrefix + id + "/"
  }

  /** The record built for an article that has a PMID (`ArticleRecordFields`
      states its fields). */
  function ArticleRecord(article: Article): Paper
    requires article.pmids != []
  {
    var id := article.pmids[0];
    var title := Concat(article.titleNodes);
    var text := Join("\n", article.abstractNodes);
    Paper(id, Strip(if title == "" then NoTitleFound else title),
          Some(Strip(if text == "" then NoAbstractFound else text)), ArticleUrl(id), None)
  }

  /** The articles that have a PMID, in document order. */
  function KeptArticles(articles: seq<Article>): (kept: seq<Article>)
    ensures |kept| <= |articles|
    ensures forall j :: 0 <= j < |kept| ==> kept[j].pmids != []
  {
    if articles == [] then []
    else
      var n := |articles| - 1;
      KeptArticles(articles[..n]) + (if articles[n].pmids == [] then [] else [articles[n]])
  }

  /** `[f(x) for x in xs]`. */
  function Map<A, B>(f: A --> B, xs: seq<A>): (ys: seq<B>)
    requires forall j :: 0 <= j < |xs| ==> f.requires(xs[j])
    ensures |ys| == |xs|
  {
    seq(|xs|, j requires 0 <= j < |xs| => f(xs[j]))
  }

  /** Mapping two runs is mapping each. */
  lemma MapAppend<A, B>(f: A --> B, xs: seq<A>, ys: seq<A>)
    requires forall j :: 0 <= j < |xs| ==> f.requires(xs[j])
    requires forall j :: 0 <= j < |ys| ==> f.requires(ys[j])
    ensures Map(f, xs + ys) == Map(f, xs) + Map(f, ys)
  {
  }

  /** The records built from the articles: one per article that has a PMID, in
      document order. */
  function PapersFrom(articles: seq<Article>): (papers: seq<Paper>)
    ensures |papers| <= |articles|
  {
    Map(ArticleRecord, KeptArticles(articles))
  }

  /** The positions of the articles that have a PMID, in increasing order. */
  function KeptPositions(articles: seq<Article>): (ks: seq<nat>)
    ensures forall j :: 0 <= j < |ks| ==> ks[j] < |articles| && articles[ks[j]].pmids != []
    ensures forall j1, j2 :: 0 <= j1 < j2 < |ks| ==> ks[j1] < ks[j2]
  {
    if articles == [] then []
    else
      var n := |articles| - 1;
      KeptPositions(articles[..n]) + (if articles[n].pmids == [] then [] else [n])
  }

  /** Every article that has a PMID is kept. */
  lemma {:induction false} KeptPositionsComplete(articles: seq<Article>, i: nat)
    requires i < |articles| && articles[i].pmids != []
    ensures i in KeptPositions(articles)
  {
    var n := |articles| - 1;
    if i < n {
      KeptPositionsComplete(articles[..n], i);
    }
  }

  /** What `search_pubmed(query, max_results)` returns: the records of the
      fetched articles, or nothing when either request fails or the search
      finds no ids. */
  function SearchResult(query: string, maxResults: int, eutils: EUtils): (papers: seq<Paper>)
    ensures eutils.esearch(query, maxResults).Error? ==> papers == []
    ensures eutils.esearch(query, maxResults).Received? && IdList(eutils.esearch(query, maxResults).body) == [] ==> papers == []
    ensures papers != [] ==>
      var ids := IdList(eutils.esearch(query, maxResults).body);
      eutils.esearch(query, maxResults).Received? && ids != [] &&
      eutils.efetch(Join(",", ids)).Received? && papers == PapersFrom(eutils.efetch(Join(",", ids)).body)
    ensures eutils.esearch(query, maxResults).Received? ==>
      var ids := IdList(eutils.esearch(query, maxResults).body);
      ids != [] && eutils.efetch(Join(",", ids)).Received? ==>
        papers == PapersFrom(eutils.efetch(Join(",", ids)).body)
    ensures eutils.esearch(query, maxResults).Received? ==>
      var ids := IdList(eutils.esearch(query, maxResults).body);
      ids != [] && eutils.efetch(Join(",", ids)).Error? ==> papers == []
  {
    match eutils.esearch(query, maxResults)
    case Error => []
    case Received(json) =>
      var ids := IdList(json);
      if ids == [] then []
      else
        match eutils.efetch(Join(",", ids))
        case Error => []
        case Received(articles) => PapersFrom(articles)
  }

  /** `search_pubmed`: the two requests, then the loop over the articles. */
  method SearchPubmed(query: string, maxResults: int, eutils: EUtils) returns (papers: seq<Paper>)
    ensures papers == SearchResult(query, maxResults, eutils)
  {
    var searchResponse := eutils.esearch(query, maxResults);
    if searchResponse.Error? {
      return [];
    }
    var paperIds := IdList(searchResponse.body);
    if paperIds == [] {
      return [];
    }
    var detailsResponse := eutils.efetch(Join(",", paperIds));
    if detailsResponse.Error? {
      return [];
    }
    var articles := detailsResponse.body;
    papers := [];
    for n := 0 to |articles|
      invariant papers == PapersFrom(articles[..n])
    {
      assert articles[..n + 1] == articles[..n] + [articles[n]];
      PapersFromStep(articles[..n], articles[n]);
      var article := articles[n];
      if article.pmids == [] {
        continue;
      }
      var paperId := article.pmids[0];
      var title := Concat(article.titleNodes);
      if title == "" {
        title := NoTitleFound;
      }
      var text := Join("\n", article.abstractNodes);
      if text == "" {
        text := NoAbstractFound;
      }
      papers := papers + [Paper(paperId, Strip(title), Some(Strip(text)), ArticleUrl(paperId), None)];
    }
    assert articles[..|articles|] == articles;
  }

  /** The url is determined by the id, and gives the id back. */
  lemma ArticleUrlGivesId(id: string)
    ensures |ArticleUrl(id)| == |ArticleUrlPrefix| + |id| + 1
    ensures ArticleUrl(id)[..|ArticleUrlPrefix|] == ArticleUrlPrefix
    ensures ArticleUrl(id)[|ArticleUrlPrefix|..|ArticleUrl(id)| - 1] == id
  {
    var url := ArticleUrl(id);
    assert url == ArticleUrlPrefix + (id + "/");
    assert url[|ArticleUrlPrefix|..] == id + "/";
  }

  /** Two records with the same url have the same id. */
  lemma ArticleUrlInjective(id1: string, id2: string)
    requires ArticleUrl(id1) == ArticleUrl(id2)
    ensures id1 == id2
  {
    ArticleUrlGivesId(id1);
    ArticleUrlGivesId(id2);
  }

  /** The fields of the record built for an article: the first PMID as id, the
      url derived from it, the stripped title and abstract text with their
      placeholders when the text is empty, and no summary yet. Text made of
      whitespace only is not empty, so it strips to "" and not to the
      placeholder. */
  lemma ArticleRecordFields(article: Article)
    requires article.pmids != []
    ensures var p := ArticleRecord(article);
            var title := Concat(article.titleNodes);
            var text := Join("\n", article.abstractNodes);
            && p.id == article.pmids[0]
            && p.url == ArticleUrlPrefix + p.id + "/"
            && p.title == (if title == "" then NoTitleFound else Strip(title))
            && p.abstractText == Some(if text == "" then NoAbstractFound else Strip(text))
            && (title != "" && AllSpace(title) ==> p.title == "")
            && (text != "" && AllSpace(text) ==> p.abstractText == Some(""))
            && p.summary == None
  {
    StripUnpadded(NoTitleFound);
    StripUnpadded(NoAbstractFound);
  }

  /** The abstract placeholder appears exactly when the article has no
      abstract text, or when its text is, once stripped, that very phrase. */
  lemma PlaceholderAbstract(article: Article)
    requires article.pmids != []
    ensures ArticleRecord(article).abstractText == Some(NoAbstractFound) <==>
            article.abstractNodes == [] || article.abstractNodes == [""]
            || Strip(Join("\n", article.abstractNodes)) == NoAbstractFound
  {
    ArticleRecordFields(article);
  }

  /** Splitting the articles splits the kept articles. */
  lemma {:induction false} KeptArticlesAppend(a: seq<Article>, b: seq<Article>)
    ensures KeptArticles(a + b) == KeptArticles(a) + KeptArticles(b)
    decreases |b|
  {
    if b == [] {
      assert a + b == a;
    } else {
      var n := |b| - 1;
      assert (a + b)[..|a + b| - 1] == a + b[..n];
      KeptArticlesAppend(a, b[..n]);
    }
  }

  /** Splitting the articles splits the records. */
  lemma PapersFromAppend(a: seq<Article>, b: seq<Article>)
    ensures PapersFrom(a + b) == PapersFrom(a) + PapersFrom(b)
  {
    KeptArticlesAppend(a, b);
    MapAppend(ArticleRecord, KeptArticles(a), KeptArticles(b));
  }

  /** One more article adds its record when it has a PMID, and nothing
      otherwise: the step of the loop in `SearchPubmed`. */
  lemma PapersFromStep(articles: seq<Article>, article: Article)
    ensures PapersFrom(articles + [article])
            == PapersFrom(articles) + (if article.pmids == [] then [] else [ArticleRecord(article)])
  {
    assert (articles + [article])[..|articles|] == articles;
    MapAppend(ArticleRecord, KeptArticles(articles), if article.pmids == [] then [] else [article]);
  }

  /** The kept articles are those at the kept positions. */
  lemma {:induction false} KeptArticlesAt(articles: seq<Article>)
    ensures |KeptArticles(articles)| == |KeptPositions(articles)|
    ensures forall j :: 0 <= j < |KeptPositions(articles)| ==>
              KeptArticles(articles)[j] == articles[KeptPositions(articles)[j]]
  {
    if articles != [] {
      var n := |articles| - 1;
      var init := articles[..n];
      KeptArticlesAt(init);
      var kept, ks := KeptArticles(init), KeptPositions(init);
      var keptMore, ksMore := if articles[n].pmids == [] then [] else [articles[n]], if articles[n].pmids == [] then [] else [n];
      assert KeptArticles(articles) == kept + keptMore;
      assert KeptPositions(articles) == ks + ksMore;
      forall j | 0 <= j < |ks| ensures (kept + keptMore)[j] == articles[(ks + ksMore)[j]] {
        assert init[ks[j]] == articles[ks[j]];
      }
    }
  }

  /** The records are exactly those of the articles that have a PMID, one each,
      in document order. */
  lemma PapersFromKept(articles: seq<Article>)
    ensures var papers := PapersFrom(articles);
            var ks := KeptPositions(articles);
            |papers| == |ks| &&
            forall j :: 0 <= j < |ks| ==> papers[j] == ArticleRecord(articles[ks[j]])
  {
    KeptArticlesAt(articles);
  }

  /** When every article has a PMID, every position is kept. */
  lemma {:induction false} AllPositionsKept(articles: seq<Article>)
    requires forall i :: 0 <= i < |articles| ==> articles[i].pmids != []
    ensures |KeptPositions(articles)| == |articles|
    ensures forall j :: 0 <= j < |articles| ==> KeptPositions(articles)[j] == j
  {
    if articles != [] {
      var n := |articles| - 1;
      AllPositionsKept(articles[..n]);
    }
  }

  /** When every article has a PMID, the i-th record is built from the i-th
      article. */
  lemma AllKeptWhenAllHavePmids(articles: seq<Article>)
    requires forall i :: 0 <= i < |articles| ==> articles[i].pmids != []
    ensures |PapersFrom(articles)| == |articles|
    ensures forall i :: 0 <= i < |articles| ==> PapersFrom(articles)[i] == ArticleRecord(articles[i])
  {
    PapersFromKept(articles);
    AllPositionsKept(articles);
  }

  /** An empty id list ends the search before any fetch: the result does not
      depend on the efetch service. */
  lemma NoIdsNoFetch(query: string, maxResults: int, eutils: EUtils, efetch: string -> Fetched<seq<Article>>)
    requires eutils.esearch(query, maxResults).Received?
    requires IdList(eutils.esearch(query, maxResults).body) == []
    ensures SearchResult(query, maxResults, eutils) == []
    ensures SearchResult(query, maxResults, eutils.(efetch := efetch)) == []
  {
  }
}
