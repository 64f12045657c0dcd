/** The paper record that the search produces, the summarizer enriches and the
    agent threads through its two stages: a dictionary with the keys `id`,
    `title`, `abstract`, `url` and, once summarized, `summary`. */
module Papers {

  datatype Option<+T> = None | Some(value: T)

  /** `abstractText` is None when the key is missing or holds None (what
      `paper.get('abstract')` cannot tell apart); `summary` is None until the
      summarizer writes the key. */
  datatype Paper = Paper(id: string, title: string, abstractText: Option<string>, url: string, summary: Option<string>)

  /** The placeholder the search stores for an article without abstract text,
      and that the summarizer recognises as "nothing to summarize". */
  const NoAbstractFound := "No abstract found"

  /** Two records agree on everything except possibly their summaries. */
  predicate SameExceptSummary(p: Paper, q: Paper) {
    p.id == q.id && p.title == q.title && p.abstractText == q.abstractText && p.url == q.url
  }
}
