/** The shaping of a fact-check run's raw result for display
    (`format_results`): the first detailed record is taken, each of its
    claims is paired with the search query and the evidence at the same
    index, and missing top-level fields take defaults.

    The raw result is an arbitrary Python value; every way the code can raise
    on it (a missing key, a wrong type, an index out of range) is modelled as
    `Raised`, and `Done(None)` is the code's own "no result". */
module Report {
  import opened Optional
  import opened Text
  import opened Values

  const DetailedKey := "detailed_information"
  const ClaimsKey := "claim_level_factuality"
  const QueryKey := "query"
  const SnippetsKey := "evidence_snippets"
  const SourcesKey := "evidence_sources"

  /** The formatted result: the seven fields of the returned dict. An
      enriched claim is a dict, or `None` where the raw claim was `None`. */
  datatype Report = Report(
    prompt: Value,
    response: Value,
    responseFactuality: Value,
    claims: seq<Option<Dict>>,
    reasoning: Value,
    avgClaim: Value,
    avgResponse: Value)

  /** The text recorded as a claim's search query: the first element of a
      non-empty list, otherwise `str(q)`. */
  function QueryText(q: Value): (r: Value)
    ensures q.VList? && |q.items| > 0 ==> r == q.items[0]
    ensures q.VStr? ==> r == q
    ensures q == VList([]) ==> r == VStr("[]")
    ensures !(q.VList? && |q.items| > 0) ==> r.VStr? && r.s == PyStr(q)
  {
    if q.VList? && |q.items| > 0 then q.items[0] else VStr(PyStr(q))
  }

  /** A list as is; anything else as a one-element list. */
  function WrapList(v: Value): (r: Value)
    ensures r.VList?
    ensures v.VList? ==> r == v
    ensures !v.VList? ==> r.items == [v]
  {
    if v.VList? then v else VList([v])
  }

  /** Attaches the query for claim `i` when `queries` has one at `i`. */
  function AttachQuery(d: Dict, i: nat, queries: Value): (r: Outcome<Dict>)
    ensures r.Raised? <==> Length(queries).None? || (i < Length(queries).value && IndexAt(queries, i).None?)
  {
    var n :- OrRaise(Length(queries));
    if i < n then
      var q :- OrRaise(IndexAt(queries, i));
      Done(Put(d, QueryKey, QueryText(q)))
    else Done(d)
  }

  /** Attaches the evidence for claim `i` when `evidences` has an entry at
      `i`: snippet and source lists from a dict entry, empty lists from any
      other entry. */
  function AttachEvidence(d: Dict, i: nat, evidences: Value): (r: Outcome<Dict>)
    ensures r.Raised? <==> Length(evidences).None? || (i < Length(evidences).value && IndexAt(evidences, i).None?)
  {
    var n :- OrRaise(Length(evidences));
    if i < n then
      var ev :- OrRaise(IndexAt(evidences, i));
      if ev.VDict? then
        var snippets := Get(ev.entries, "evidence", VList([]));
        var sources := Get(ev.entries, "source", VList([]));
        Done(Put(Put(d, SnippetsKey, WrapList(snippets)), SourcesKey, WrapList(sources)))
      else
        Done(Put(Put(d, SnippetsKey, VList([])), SourcesKey, VList([])))
    else Done(d)
  }

  /** One iteration of the enrichment loop for claim `i`. A `None` claim
      stays `None`; any other claim is copied with `dict(...)`, its query set
      exactly when `queries` has an entry at `i`, its evidence lists set
      exactly when `evidences` has one (from a dict entry, with non-list
      values wrapped; empty for any other entry), and every other field is
      the claim's own. */
  function EnrichClaim(claim: Value, i: nat, queries: Value, evidences: Value): (r: Outcome<Option<Dict>>)
    ensures claim.VNone? ==> r == Done(None)
    ensures r.Done? && r.value.None? ==> claim.VNone?
    ensures !claim.VNone? && ToDict(claim).Raised? ==> r.Raised?
    ensures r.Done? && r.value.Some? ==>
              && ToDict(claim).Done? && Length(queries).Some? && Length(evidences).Some?
              && (i < Length(queries).value ==> IndexAt(queries, i).Some?)
              && (i < Length(evidences).value ==> IndexAt(evidences, i).Some?)
    ensures r.Done? && r.value.Some? ==>
              var c := r.value.value;
              var d := ToDict(claim).value;
              && (i < Length(queries).value ==> Lookup(c, QueryKey) == Some(QueryText(IndexAt(queries, i).value)))
              && (i >= Length(queries).value ==> Lookup(c, QueryKey) == Lookup(d, QueryKey))
              && (i < Length(evidences).value && IndexAt(evidences, i).value.VDict? ==>
                    var ev := IndexAt(evidences, i).value.entries;
                    && Lookup(c, SnippetsKey) == Some(WrapList(Get(ev, "evidence", VList([]))))
                    && Lookup(c, SourcesKey) == Some(WrapList(Get(ev, "source", VList([])))))
              && (i < Length(evidences).value && !IndexAt(evidences, i).value.VDict? ==>
                    Lookup(c, SnippetsKey) == Some(VList([])) && Lookup(c, SourcesKey) == Some(VList([])))
              && (i >= Length(evidences).value ==>
                    Lookup(c, SnippetsKey) == Lookup(d, SnippetsKey) && Lookup(c, SourcesKey) == Lookup(d, SourcesKey))
              && (forall k :: k != QueryKey && k != SnippetsKey && k != SourcesKey ==> Lookup(c, k) == Lookup(d, k))
  {
    if claim.VNone? then Done(None)
    else
      var d :- ToDict(claim);
      var d1 :- AttachQuery(d, i, queries);
      var d2 :- AttachEvidence(d1, i, evidences);
      Done(Some(d2))
  }

  /** The enrichment loop over `claims[i..]`, where `claims` is what
      `enumerate` visits. */
  function EnrichFrom(claims: seq<Value>, i: nat, queries: Value, evidences: Value): (r: Outcome<seq<Option<Dict>>>)
    requires i <= |claims|
    ensures r.Done? ==> |r.value| == |claims| - i
    ensures r.Done? ==> forall j :: i <= j < |claims| ==> EnrichClaim(claims[j], j, queries, evidences) == Done(r.value[j - i])
    ensures r.Raised? <==> exists j :: i <= j < |claims| && EnrichClaim(claims[j], j, queries, evidences).Raised?
    decreases |claims| - i
  {
    if i == |claims| then Done([])
    else
      var c :- EnrichClaim(claims[i], i, queries, evidences);
      var rest :- EnrichFrom(claims, i + 1, queries, evidences);
      Done([c] + rest)
  }

  /** The report read from the first detailed record, once it has been
      fetched, with the two averages taken from the top level. */
  function ReportFrom(record: Value, avgClaim: Value, avgResponse: Value): (r: Outcome<Option<Report>>)
    ensures r.Done? ==> r.value.Some? && record.VDict?
    ensures !record.VDict? ==> r.Raised?
  {
    if !record.VDict? then Raised
    else
      var info := record.entries;
      var claims :- OrRaise(Iterate(Get(info, ClaimsKey, VList([]))));
      var queries := Get(info, "queries", VList([]));
      var evidences := Get(info, "evidences", VList([]));
      var enriched :- EnrichFrom(claims, 0, queries, evidences);
      Done(Some(Report(
        Get(info, "prompt", VStr("")),
        Get(info, "response", VStr("")),
        Get(info, "response_level_factuality", VBool(false)),
        enriched,
        Get(info, "reasoning", VStr("")),
        avgClaim,
        avgResponse)))
  }

  /** `format_results`. */
  function FormatResults(results: Value): (r: Outcome<Option<Report>>)
    ensures r == Done(None) <==> !Truthy(results) || Contains(results, DetailedKey) == Done(false)
    ensures r.Done? && r.value.Some? ==> results.VDict? && HasKey(results.entries, DetailedKey)
    ensures Truthy(results) && !results.VDict? && Contains(results, DetailedKey) != Done(false) ==> r.Raised?
  {
    if !Truthy(results) then Done(None)
    else
      var present :- Contains(results, DetailedKey);
      if !present then Done(None)
      else
        var records :- Item(results, DetailedKey);
        var record :- OrRaise(IndexAt(records, 0));
        ReportFrom(record,
          Get(results.entries, "average_claim_level_factuality", VInt(0)),
          Get(results.entries, "average_response_level_factuality", VInt(0)))
  }

  // ---------------------------------------------------------------------------
  // Properties

  /** The report built from a result whose first detailed record is the dict
      `info`: one enriched claim per raw claim, a `None` claim kept as `None`
      at its index, each other claim enriched with its own index, and the
      top-level fields read from `info` (the averages from `results`) with
      their defaults when missing. It raises exactly when enriching some
      claim raises. */
  lemma FormatResultsReport(results: Value, records: Value, info: Dict, claims: seq<Value>)
    requires results.VDict? && Lookup(results.entries, DetailedKey) == Some(records)
    requires IndexAt(records, 0) == Some(VDict(info))
    requires Iterate(Get(info, ClaimsKey, VList([]))) == Some(claims)
    ensures var queries := Get(info, "queries", VList([]));
            var evidences := Get(info, "evidences", VList([]));
            FormatResults(results).Raised? <==>
              exists j :: 0 <= j < |claims| && EnrichClaim(claims[j], j, queries, evidences).Raised?
    ensures var r := FormatResults(results);
            var queries := Get(info, "queries", VList([]));
            var evidences := Get(info, "evidences", VList([]));
            r.Done? ==>
              && r.value.Some?
              && |r.value.value.claims| == |claims|
              && (forall j :: 0 <= j < |claims| ==>
                    && (r.value.value.claims[j].None? <==> claims[j].VNone?)
                    && EnrichClaim(claims[j], j, queries, evidences) == Done(r.value.value.claims[j]))
    ensures var r := FormatResults(results);
            r.Done? ==>
              var rep := r.value.value;
              && (!HasKey(info, "prompt") ==> rep.prompt == VStr(""))
              && (!HasKey(info, "response") ==> rep.response == VStr(""))
              && (!HasKey(info, "response_level_factuality") ==> rep.responseFactuality == VBool(false))
              && (!HasKey(info, "reasoning") ==> rep.reasoning == VStr(""))
              && (!HasKey(results.entries, "average_claim_level_factuality") ==> rep.avgClaim == VInt(0))
              && (!HasKey(results.entries, "average_response_level_factuality") ==> rep.avgResponse == VInt(0))
              && (HasKey(info, "prompt") ==> Lookup(info, "prompt") == Some(rep.prompt))
              && (HasKey(info, "response") ==> Lookup(info, "response") == Some(rep.response))
              && (HasKey(info, "reasoning") ==> Lookup(info, "reasoning") == Some(rep.reasoning))
              && (HasKey(info, "response_level_factuality") ==>
                    Lookup(info, "response_level_factuality") == Some(rep.responseFactuality))
              && (HasKey(results.entries, "average_claim_level_factuality") ==>
                    Lookup(results.entries, "average_claim_level_factuality") == Some(rep.avgClaim))
              && (HasKey(results.entries, "average_response_level_factuality") ==>
                    Lookup(results.entries, "average_response_level_factuality") == Some(rep.avgResponse))
  {
    assert HasKey(results.entries, DetailedKey);
    assert Truthy(results);
    assert FormatResults(results) == ReportFrom(VDict(info),
      Get(results.entries, "average_claim_level_factuality", VInt(0)),
      Get(results.entries, "average_response_level_factuality", VInt(0)));
  }

  /** Only the first detailed record is read: two results that agree on it
      and on the two averages format alike, whatever else their records
      hold. */
  lemma FirstRecordOnly(results: Value, results': Value, records: Value, records': Value)
    requires results.VDict? && results'.VDict?
    requires Lookup(results.entries, DetailedKey) == Some(records)
    requires Lookup(results'.entries, DetailedKey) == Some(records')
    requires IndexAt(records, 0) == IndexAt(records', 0)
    requires Lookup(results.entries, "average_claim_level_factuality") == Lookup(results'.entries, "average_claim_level_factuality")
    requires Lookup(results.entries, "average_response_level_factuality") == Lookup(results'.entries, "average_response_level_factuality")
    ensures FormatResults(results) == FormatResults(results')
  {
    assert HasKey(results.entries, DetailedKey) && HasKey(results'.entries, DetailedKey);
  }
}
