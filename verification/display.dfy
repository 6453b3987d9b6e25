/** The pure rules inside the result display: the capped, newest-first
    history of formatted results, the factual-claim summary, a claim's
    verdict and heading, and the pairing of evidence snippets with their
    sources into numbered rows. Rendering itself is not modelled; each rule
    yields the data the page shows. */
module Display {
  import opened Optional
  import opened Text
  import opened Values
  import opened Report

  // ---------------------------------------------------------------------------
  // Results history

  /** The most results the history keeps. */
  const HistoryLimit := 10

  /** The first `n` elements of `s`, or all of it when it is shorter. */
  function Take<T>(s: seq<T>, n: nat): (r: seq<T>)
    ensures |r| == Min(|s|, n)
    ensures r == s[..|r|]
  {
    if |s| > n then s[..n] else s
  }

  function Reverse<T>(s: seq<T>): (r: seq<T>)
    ensures |r| == |s|
    ensures forall i :: 0 <= i < |s| ==> r[i] == s[|s| - 1 - i]
    decreases |s|
  {
    if |s| == 0 then [] else Reverse(s[1..]) + [s[0]]
  }

  /** Inserting a new result: it goes in front, and the history is cut back
      to its limit. */
  function PushHistory<T>(history: seq<T>, item: T): (r: seq<T>)
    ensures |r| == Min(|history| + 1, HistoryLimit)
    ensures r[0] == item
    ensures forall i :: 1 <= i < |r| ==> r[i] == history[i - 1]
  {
    var h := [item] + history;
    if |h| > HistoryLimit then h[..HistoryLimit] else h
  }

  /** One press of the run button. `run` is the outcome of running the
      pipeline and formatting its results: a run or a formatting that raises
      is caught and reported, and like a run that formatted to nothing it
      leaves the history alone; a formatted result is recorded. */
  function RecordRun(history: seq<Report>, run: Outcome<Option<Report>>): (r: seq<Report>)
    ensures run.Raised? || run.value.None? ==> r == history
    ensures run.Done? && run.value.Some? ==> |r| == Min(|history| + 1, HistoryLimit) && r[0] == run.value.value
    ensures run.Done? && run.value.Some? ==> forall i :: 1 <= i < |r| ==> r[i] == history[i - 1]
  {
    match run
    case Raised => history
    case Done(None) => history
    case Done(Some(rep)) => PushHistory(history, rep)
  }

  /** A sequence of runs recorded one after the other. */
  function RecordAll<T>(history: seq<T>, runs: seq<T>): seq<T>
    decreases |runs|
  {
    if |runs| == 0 then history else RecordAll(PushHistory(history, runs[0]), runs[1..])
  }

  lemma TakeOfTake<T>(a: seq<T>, b: seq<T>, n: nat)
    ensures Take(a + Take(b, n), n) == Take(a + b, n)
  {
    if |b| > n {
      var l := Min(|a| + |b|, n);
      assert (a + b)[..l] == (a + b[..n])[..l];
    }
  }

  /** From a history within the limit (the session starts with an empty
      one), after any number of runs the history holds the newest results
      first, at most ten of them, older entries following in their old
      order. */
  lemma {:induction false} RecordAllNewestFirst<T>(history: seq<T>, runs: seq<T>)
    requires |history| <= HistoryLimit
    ensures RecordAll(history, runs) == Take(Reverse(runs) + history, HistoryLimit)
    ensures |RecordAll(history, runs)| <= HistoryLimit
    decreases |runs|
  {
    if |runs| > 0 {
      var pushed := PushHistory(history, runs[0]);
      assert pushed == Take([runs[0]] + history, HistoryLimit);
      RecordAllNewestFirst(pushed, runs[1..]);
      TakeOfTake(Reverse(runs[1..]), [runs[0]] + history, HistoryLimit);
      assert Reverse(runs) == Reverse(runs[1..]) + [runs[0]];
      assert Reverse(runs[1..]) + ([runs[0]] + history) == Reverse(runs) + history;
      calc {
        RecordAll(history, runs);
        RecordAll(pushed, runs[1..]);
        Take(Reverse(runs[1..]) + pushed, HistoryLimit);
        Take(Reverse(runs[1..]) + Take([runs[0]] + history, HistoryLimit), HistoryLimit);
        Take(Reverse(runs[1..]) + ([runs[0]] + history), HistoryLimit);
        Take(Reverse(runs) + history, HistoryLimit);
      }
    } else {
      assert Reverse(runs) + history == history;
    }
  }

  // ---------------------------------------------------------------------------
  // Claim summary and verdicts

  /** A claim counts as factual when its `factuality` field is truthy; a
      missing field counts as `False`. */
  predicate IsFactual(claim: Dict) {
    Truthy(Get(claim, "factuality", VBool(false)))
  }

  /** The badge a claim's card shows. */
  function Verdict(claim: Dict): (r: string)
    ensures r == "Factual" <==> IsFactual(claim)
  {
    if IsFactual(claim) then "Factual" else "Not Factual"
  }

  /** The claims that are not `None`, in order. */
  function Present(claims: seq<Option<Dict>>): (r: seq<Dict>)
    ensures |r| <= |claims|
    ensures |r| == |claims| <==> forall j :: 0 <= j < |claims| ==> claims[j].Some?
    ensures forall x :: x in r <==> Some(x) in claims
    decreases |claims|
  {
    if |claims| == 0 then []
    else
      var rest := Present(claims[1..]);
      assert forall j :: 1 <= j < |claims| ==> claims[j] == claims[1..][j - 1];
      assert claims == [claims[0]] + claims[1..];
      if claims[0].Some? then [claims[0].value] + rest else rest
  }

  /** One claim on its own: kept when present, dropped when `None`. With
      `PresentAppend` this fixes the result: the present claims, in order. */
  lemma PresentSingle(c: Option<Dict>)
    ensures Present([c]) == if c.Some? then [c.value] else []
  {
    assert [c][1..] == [];
  }

  /** How many of `claims` are factual. */
  function CountFactual(claims: seq<Dict>): (r: nat)
    ensures r <= |claims|
    ensures r == |claims| <==> forall j :: 0 <= j < |claims| ==> IsFactual(claims[j])
    decreases |claims|
  {
    if |claims| == 0 then 0
    else
      assert forall j :: 1 <= j < |claims| ==> claims[j] == claims[1..][j - 1];
      (if IsFactual(claims[0]) then 1 else 0) + CountFactual(claims[1..])
  }

  /** The "n_factual/n_total claims factual" line: `None` when the claim list
      is empty (no analysis section), otherwise the number of factual claims
      and of claims that are not `None`. */
  function ClaimSummary(claims: seq<Option<Dict>>): (r: Option<(nat, nat)>)
    ensures r.None? <==> |claims| == 0
    ensures r.Some? ==> r.value.0 <= r.value.1 <= |claims|
    ensures r.Some? ==> (r.value.1 == |claims| <==> forall j :: 0 <= j < |claims| ==> claims[j].Some?)
  {
    if |claims| == 0 then None
    else
      var present := Present(claims);
      Some((CountFactual(present), |present|))
  }

  /** The number of cards, among all claims, that show the "Factual" badge
      (a `None` claim shows no card). */
  function FactualCards(claims: seq<Option<Dict>>): nat
    decreases |claims|
  {
    if |claims| == 0 then 0
    else
      var n := |claims| - 1;
      FactualCards(claims[..n]) + (if claims[n].Some? && Verdict(claims[n].value) == "Factual" then 1 else 0)
  }

  function CountPresent(claims: seq<Option<Dict>>): nat
    decreases |claims|
  {
    if |claims| == 0 then 0
    else
      var n := |claims| - 1;
      CountPresent(claims[..n]) + (if claims[n].Some? then 1 else 0)
  }

  lemma {:induction false} PresentAppend(a: seq<Option<Dict>>, b: seq<Option<Dict>>)
    ensures Present(a + b) == Present(a) + Present(b)
    decreases |a|
  {
    if |a| > 0 {
      assert (a + b)[1..] == a[1..] + b;
      PresentAppend(a[1..], b);
    } else {
      assert a + b == b;
    }
  }

  lemma {:induction false} CountFactualAppend(a: seq<Dict>, b: seq<Dict>)
    ensures CountFactual(a + b) == CountFactual(a) + CountFactual(b)
    decreases |a|
  {
    if |a| > 0 {
      assert (a + b)[1..] == a[1..] + b;
      CountFactualAppend(a[1..], b);
    } else {
      assert a + b == b;
    }
  }

  /** The summary agrees with the cards: its factual count is the number of
      "Factual" badges, and its total the number of cards. */
  lemma {:induction false} SummaryMatchesCards(claims: seq<Option<Dict>>)
    ensures CountFactual(Present(claims)) == FactualCards(claims)
    ensures |Present(claims)| == CountPresent(claims)
    decreases |claims|
  {
    if |claims| > 0 {
      var n := |claims| - 1;
      var init, last := claims[..n], claims[n];
      SummaryMatchesCards(init);
      assert claims == init + [last];
      PresentAppend(init, [last]);
      PresentSingle(last);
      CountFactualAppend(Present(init), Present([last]));
      assert CountFactual(Present([last])) == if last.Some? && IsFactual(last.value) then 1 else 0;
    }
  }

  // ---------------------------------------------------------------------------
  // Claim heading

  /** The longest claim text shown in full in a heading. */
  const TitleWidth := 80

  /** A claim text cut to its first 80 characters, with `...` appended only
      when something was cut. */
  function Title(text: string): (r: string)
    ensures |text| <= TitleWidth ==> r == text
    ensures |text| > TitleWidth ==> |r| == TitleWidth + 3 && r[..TitleWidth] == text[..TitleWidth] && r[TitleWidth..] == "..."
  {
    text[..Min(|text|, TitleWidth)] + (if |text| > TitleWidth then "..." else "")
  }

  /** Shortening a title again changes nothing. */
  lemma TitleIdempotent(text: string)
    ensures Title(Title(text)) == Title(text)
  {
    var t := Title(text);
    if |text| > TitleWidth {
      assert Title(t) == t[..TitleWidth] + "...";
      assert t == t[..TitleWidth] + t[TitleWidth..];
    }
  }

  /** The heading of the card for claim `index`: `Claim <index + 1>: ` and
      the shortened claim text. The text defaults to `Claim <index + 1>`; a
      list or tuple text is shown as Python prints its first 80 elements, and
      a text of any other type raises. */
  function ClaimHeading(claim: Dict, index: nat): (r: Outcome<string>)
    ensures var number := NatToString(index + 1);
            !HasKey(claim, "claim") ==> r == Done("Claim " + number + ": " + Title("Claim " + number))
    ensures r.Done? ==> |r.value| >= 8 && r.value[..6] == "Claim "
    ensures var text := Get(claim, "claim", VNone);
            r.Raised? <==> HasKey(claim, "claim") && !(text.VStr? || text.VList? || text.VTuple?)
    ensures var text := Get(claim, "claim", VNone);
            HasKey(claim, "claim") && text.VStr? ==>
              r == Done("Claim " + NatToString(index + 1) + ": " + Title(text.s))
  {
    var number := NatToString(index + 1);
    var prefix := "Claim " + number + ": ";
    assert |number| > 0;
    match Get(claim, "claim", VStr("Claim " + number))
    case VStr(s) => Done(prefix + Title(s))
    case VList(items) =>
      Done(prefix + Repr(VList(items[..Min(|items|, TitleWidth)])) + (if |items| > TitleWidth then "..." else ""))
    case VTuple(elems) =>
      Done(prefix + Repr(VTuple(elems[..Min(|elems|, TitleWidth)])) + (if |elems| > TitleWidth then "..." else ""))
    case _ => Raised
  }

  // ---------------------------------------------------------------------------
  // Evidence rows

  /** One evidence card: its number and the snippet and source at that
      position, `None` past the end of the shorter list. */
  datatype Row = Row(number: nat, snippet: Option<Value>, source: Option<Value>)

  /** The rows for `max(len(snippets), len(sources))` positions. */
  function PairRows(snippets: seq<Value>, sources: seq<Value>): (rows: seq<Row>)
    ensures |rows| == Max(|snippets|, |sources|)
    ensures forall j :: 0 <= j < |rows| ==> rows[j].number == j + 1
    ensures forall j :: 0 <= j < |rows| ==> (rows[j].snippet.Some? <==> j < |snippets|)
    ensures forall j :: 0 <= j < |rows| ==> (rows[j].source.Some? <==> j < |sources|)
  {
    var n := Max(|snippets|, |sources|);
    seq(n, j requires 0 <= j < n =>
      Row(j + 1,
          if j < |snippets| then Some(snippets[j]) else None,
          if j < |sources| then Some(sources[j]) else None))
  }

  /** `n` empty cells. */
  function Blanks(n: nat): (r: seq<Option<Value>>)
    ensures |r| == n
  {
    seq(n, _ => None)
  }

  /** The values present in a column of options, in order. */
  function Somes(column: seq<Option<Value>>): seq<Value>
    decreases |column|
  {
    if |column| == 0 then []
    else (if column[0].Some? then [column[0].value] else []) + Somes(column[1..])
  }

  lemma {:induction false} SomesOfPadded(values: seq<Value>, pad: nat)
    ensures Somes(seq(|values|, j requires 0 <= j < |values| => Some(values[j])) + Blanks(pad)) == values
    decreases |values|
  {
    var column := seq(|values|, j requires 0 <= j < |values| => Some(values[j])) + Blanks(pad);
    if |values| == 0 {
      SomesOfNone(pad);
      assert column == Blanks(pad);
    } else {
      var tail := values[1..];
      SomesOfPadded(tail, pad);
      assert column[1..] == seq(|tail|, j requires 0 <= j < |tail| => Some(tail[j])) + Blanks(pad);
      assert values == [values[0]] + tail;
    }
  }

  lemma {:induction false} SomesOfNone(pad: nat)
    ensures Somes(Blanks(pad)) == []
    decreases pad
  {
    if pad > 0 {
      assert Blanks(pad)[1..] == Blanks(pad - 1);
      SomesOfNone(pad - 1);
    }
  }

  /** No evidence is lost or reordered: reading the rows' snippets and
      sources back gives the two original lists. */
  lemma PairRowsRoundTrip(snippets: seq<Value>, sources: seq<Value>)
    ensures var rows := PairRows(snippets, sources);
            && Somes(seq(|rows|, j requires 0 <= j < |rows| => rows[j].snippet)) == snippets
            && Somes(seq(|rows|, j requires 0 <= j < |rows| => rows[j].source)) == sources
  {
    var rows := PairRows(snippets, sources);
    var n := |rows|;
    assert seq(n, j requires 0 <= j < n => rows[j].snippet)
        == seq(|snippets|, j requires 0 <= j < |snippets| => Some(snippets[j])) + Blanks(n - |snippets|);
    assert seq(n, j requires 0 <= j < n => rows[j].source)
        == seq(|sources|, j requires 0 <= j < |sources| => Some(sources[j])) + Blanks(n - |sources|);
    SomesOfPadded(snippets, n - |snippets|);
    SomesOfPadded(sources, n - |sources|);
  }

  /** The evidence section of a claim's card: `None` when the claim has
      neither snippets nor sources ("No evidence retrieved"), otherwise the
      rows. It raises when a truthy field has no length or cannot be
      subscripted at every position below its length. */
  function ClaimEvidence(claim: Dict): (r: Outcome<Option<seq<Row>>>)
    ensures var snippets := Get(claim, SnippetsKey, VList([]));
            var sources := Get(claim, SourcesKey, VList([]));
            && (r == Done(None) <==> !Truthy(snippets) && !Truthy(sources))
            && (r.Done? && r.value.Some? ==>
                  Length(snippets).Some? && Length(sources).Some? && |r.value.value| == Max(Length(snippets).value, Length(sources).value))
            && (r.Done? && r.value.Some? ==>
                  forall j :: 0 <= j < |r.value.value| ==>
                    && r.value.value[j].number == j + 1
                    && r.value.value[j].snippet == (if j < Length(snippets).value then IndexAt(snippets, j) else None)
                    && r.value.value[j].source == (if j < Length(sources).value then IndexAt(sources, j) else None))
            && (snippets.VList? && sources.VList? ==> r.Done?)
  {
    var snippets := Get(claim, SnippetsKey, VList([]));
    var sources := Get(claim, SourcesKey, VList([]));
    if !Truthy(snippets) && !Truthy(sources) then Done(None)
    else
      var sn :- Subscripts(snippets);
      var so :- Subscripts(sources);
      Done(Some(PairRows(sn, so)))
  }

  /** A claim whose evidence was attached by the formatter (its index was
      within the evidence list) always renders its evidence section. */
  lemma EnrichedEvidenceRenders(claim: Value, i: nat, queries: Value, evidences: Value)
    requires EnrichClaim(claim, i, queries, evidences).Done?
    requires EnrichClaim(claim, i, queries, evidences).value.Some?
    requires i < Length(evidences).value
    ensures ClaimEvidence(EnrichClaim(claim, i, queries, evidences).value.value).Done?
  {
    var c := EnrichClaim(claim, i, queries, evidences).value.value;
    assert Lookup(c, SnippetsKey).Some? && Lookup(c, SourcesKey).Some?;
  }
}
