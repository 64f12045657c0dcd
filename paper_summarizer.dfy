/** The summarizer: one pass over the paper list that writes a `summary` into
    every record, asking the chat model only for records with a real abstract
    and turning a failed call into a placeholder for that record alone. The
    chat model is an oracle. */
module PaperSummarizer {
  import opened Papers

  const SummaryNotAvailable := "Summary not available."
  const NoAbstractToSummarize := "No abstract available to summarize."
  const FailedSummary := "Failed to generate summary."

  /** What one `model.invoke` call does: returns a message with this content,
      or raises. */
  datatype Reply = Content(text: string) | Raised

  /** The module-level `model`: `Unavailable` when the chat model could not be
      initialised at import. `invoke(i, abstract)` is the reply to the call
      made for the paper at position `i` of the list; as every paper is sent at
      most once, and in list order, this position stands for the call and the
      reply may differ from call to call as a real model's does. */
  datatype ChatModel = Unavailable | Available(invoke: (nat, string) -> Reply)

  /** The record has an abstract worth sending: present, non-empty and not the
      search's placeholder. */
  predicate HasAbstract(p: Paper) {
    p.abstractText.Some? && p.abstractText.value != "" && p.abstractText.value != NoAbstractFound
  }

  /** The summary written into the paper at position `i`: a placeholder when
      the model is unavailable or the record has no usable abstract, otherwise
      the content the model returned for this very record, or the failure
      placeholder when the call raised. */
  function SummaryOf(model: ChatModel, i: nat, p: Paper): (s: string)
    ensures model.Unavailable? ==> s == SummaryNotAvailable
    ensures model.Available? && !HasAbstract(p) ==> s == NoAbstractToSummarize
    ensures model.Available? && HasAbstract(p) && model.invoke(i, p.abstractText.value).Raised? ==> s == FailedSummary
    ensures model.Available? && HasAbstract(p) && model.invoke(i, p.abstractText.value).Content? ==>
              s == model.invoke(i, p.abstractText.value).text
  {
    match model
    case Unavailable => SummaryNotAvailable
    case Available(invoke) =>
      if !HasAbstract(p) then NoAbstractToSummarize
      else
        match invoke(i, p.abstractText.value)
        case Content(text) => text
        case Raised => FailedSummary
  }

  /** The list after `summarize_papers`: the same records in the same order,
      each with its summary written and nothing else changed. */
  function Summarized(papers: seq<Paper>, model: ChatModel): (r: seq<Paper>)
    ensures |r| == |papers|
    ensures forall i :: 0 <= i < |r| ==> SameExceptSummary(r[i], papers[i]) && r[i].summary.Some?
  {
    seq(|papers|, i requires 0 <= i < |papers| => papers[i].(summary := Some(SummaryOf(model, i, papers[i]))))
  }

  /** The abstracts handed to the chat model, in call order. */
  function Prompts(papers: seq<Paper>, model: ChatModel): (r: seq<string>)
    ensures |r| <= |papers|
    ensures model.Unavailable? ==> r == []
    ensures forall k :: 0 <= k < |r| ==> r[k] != "" && r[k] != NoAbstractFound
  {
    if model.Unavailable? || papers == [] then []
    else
      var last := papers[|papers| - 1];
      Prompts(papers[..|papers| - 1], model) + (if HasAbstract(last) then [last.abstractText.value] else [])
  }

  /** `summarize_papers`: updates the caller's records in place, returns that
      same list, and reports the abstracts it sent to the chat model. */
  method SummarizePapers(papers: array<Paper>, model: ChatModel) returns (result: array<Paper>, prompts: seq<string>)
    modifies papers
    ensures result == papers
    ensures papers[..] == Summarized(old(papers[..]), model)
    ensures prompts == Prompts(old(papers[..]), model)
  {
    ghost var before := papers[..];
    result := papers;
    prompts := [];
    if model.Unavailable? {
      for i := 0 to papers.Length
        invariant forall k :: 0 <= k < i ==> papers[k] == before[k].(summary := Some(SummaryNotAvailable))
        invariant forall k :: i <= k < papers.Length ==> papers[k] == before[k]
      {
        papers[i] := papers[i].(summary := Some(SummaryNotAvailable));
      }
      return;
    }
    for i := 0 to papers.Length
      invariant forall k :: 0 <= k < i ==> papers[k] == before[k].(summary := Some(SummaryOf(model, k, before[k])))
      invariant forall k :: i <= k < papers.Length ==> papers[k] == before[k]
      invariant prompts == Prompts(before[..i], model)
    {
      assert before[..i + 1][..i] == before[..i];
      assert Prompts(before[..i + 1], model) == prompts
             + (if HasAbstract(before[i]) then [before[i].abstractText.value] else []);
      var paper := papers[i];
      var summary;
      if !HasAbstract(paper) {
        summary := NoAbstractToSummarize;
      } else {
        var reply := model.invoke(i, paper.abstractText.value);
        prompts := prompts + [paper.abstractText.value];
        match reply
        case Content(text) => summary := text;
        case Raised => summary := FailedSummary;
      }
      assert summary == SummaryOf(model, i, before[i]);
      papers[i] := paper.(summary := Some(summary));
    }
    assert before[..papers.Length] == before;
  }

  /** The positions of the records that are sent to the chat model. */
  function AbstractPositions(papers: seq<Paper>): set<nat> {
    set i: nat | i < |papers| && HasAbstract(papers[i])
  }

  /** With the model available, there is one call per record with an abstract
      worth sending. */
  lemma {:induction false} OneCallPerAbstract(papers: seq<Paper>, model: ChatModel)
    requires model.Available?
    ensures |Prompts(papers, model)| == |AbstractPositions(papers)|
  {
    if papers != [] {
      var n := |papers| - 1;
      var init := papers[..n];
      OneCallPerAbstract(init, model);
      assert Prompts(papers, model)
             == Prompts(init, model) + (if HasAbstract(papers[n]) then [papers[n].abstractText.value] else []);
      var extra: set<nat> := if HasAbstract(papers[n]) then {n} else {};
      assert AbstractPositions(papers) == AbstractPositions(init) + extra by {
        forall i: nat | i < |papers| ensures (i in AbstractPositions(papers)) == (i in AbstractPositions(init) + extra) {
          if i < n {
            assert init[i] == papers[i];
          }
        }
      }
      assert n !in AbstractPositions(init);
    } else {
      assert AbstractPositions(papers) == {};
    }
  }

  /** The calls follow list order: the calls made for a list are those made
      for its first part followed by those made for the rest. */
  lemma {:induction false} PromptsSplit(a: seq<Paper>, b: seq<Paper>, model: ChatModel)
    ensures Prompts(a + b, model) == Prompts(a, model) + Prompts(b, model)
    decreases |b|
  {
    if b == [] {
      assert a + b == a;
    } else {
      var n := |b| - 1;
      assert (a + b)[..|a + b| - 1] == a + b[..n];
      PromptsSplit(a, b[..n], model);
    }
  }

  /** A record whose abstract is missing, empty or the placeholder is answered
      without calling the model. */
  lemma SkippedRecord(model: ChatModel, p: Paper)
    requires model.Available? && !HasAbstract(p)
    ensures Prompts([p], model) == []
    ensures forall i :: SummaryOf(model, i, p) == NoAbstractToSummarize
  {
    assert [p][..0] == [];
  }

  /** With the model unavailable, every record gets the same placeholder and no
      call is made. */
  lemma UnavailableEverywhere(papers: seq<Paper>)
    ensures Prompts(papers, Unavailable) == []
    ensures forall i :: 0 <= i < |papers| ==> Summarized(papers, Unavailable)[i].summary == Some(SummaryNotAvailable)
  {
  }

  /** A record that is sent gets the model's content verbatim, or the failure
      placeholder when the call raises. */
  lemma SentRecord(papers: seq<Paper>, model: ChatModel, i: nat)
    requires model.Available? && i < |papers| && HasAbstract(papers[i])
    ensures var reply := model.invoke(i, papers[i].abstractText.value);
            Summarized(papers, model)[i].summary == Some(if reply.Content? then reply.text else FailedSummary)
  {
  }

  /** A failure is confined to its record: two models that answer alike for
      every position but `k` give the same summaries everywhere but at `k`. */
  lemma FailureIsolated(papers: seq<Paper>, m1: ChatModel, m2: ChatModel, k: nat)
    requires m1.Available? && m2.Available?
    requires forall i: nat, text :: i != k ==> m1.invoke(i, text) == m2.invoke(i, text)
    ensures forall i :: 0 <= i < |papers| && i != k ==> Summarized(papers, m1)[i] == Summarized(papers, m2)[i]
  {
  }

  /** Two records, the first with a real abstract and the second with the
      search's placeholder: one call, for the first, and the second is marked
      as having nothing to summarize. */
  lemma RealAndPlaceholderAbstract(p1: Paper, p2: Paper, model: ChatModel)
    requires model.Available? && HasAbstract(p1) && p2.abstractText == Some(NoAbstractFound)
    ensures Prompts([p1, p2], model) == [p1.abstractText.value]
    ensures Summarized([p1, p2], model)[1].summary == Some(NoAbstractToSummarize)
  {
    assert [p1, p2][..1] == [p1];
    assert [p1][..0] == [];
  }
}
