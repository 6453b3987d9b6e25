/** The batch coordinator of the local-model chat wrapper (`async_run`): a
    result slot per conversation, a list of pending indices, and rounds in
    which every pending conversation is dispatched, its prediction
    normalized, and the slots of the successful ones filled in.

    The backend is a parameter: `backend(round, i, c)` is what dispatching
    conversation `c` at batch position `i` in round `round` (counting from 0)
    yields, `None` when the request gave up. It stands for one
    `_single_request` call with its default of 3 attempts, since
    `dispatch_ollama_requests` passes no retry count; rounds are gathered in
    submission order. */
module Batch {
  import opened Optional
  import opened Values
  import opened Normalizer

  datatype Role = System | User | Assistant

  datatype Message = Message(role: Role, content: string)

  /** One unit of work for the backend. */
  type Conversation = seq<Message>

  type Backend = (nat, nat, Conversation) -> Option<string>

  /** What turns a raw answer into a result: the response pipeline for the
      requested shape (see `AsyncRun`). The round bookkeeping holds for any
      such function. */
  type Normalization = string -> Option<Value>

  /** The normalized prediction of one dispatch: a request that gave up
      yields `None` without reaching the normalizer. */
  function Predict(prediction: Option<string>, normalize: Normalization): (r: Option<Value>)
    ensures prediction.None? ==> r.None?
    ensures r.Some? ==> prediction.Some? && r == normalize(prediction.value)
  {
    match prediction
    case None => None
    case Some(text) => normalize(text)
  }

  // ---------------------------------------------------------------------------
  // Reference semantics

  /** Slot `i` after `rounds` rounds: the prediction of the first round whose
      prediction for it succeeded, or `None` when none did. This is the
      round-by-round state the coordinator keeps, stated per index. */
  function SlotAfter(batch: seq<Conversation>, backend: Backend, normalize: Normalization, i: nat, rounds: nat): (r: Option<Value>)
    requires i < |batch|
    decreases rounds
  {
    if rounds == 0 then None
    else
      var before := SlotAfter(batch, backend, normalize, i, rounds - 1);
      if before.Some? then before
      else Predict(backend(rounds - 1, i, batch[i]), normalize)
  }

  /** Once a slot is filled it keeps its value in every later round. */
  lemma {:induction false} SlotStaysResolved(batch: seq<Conversation>, backend: Backend, normalize: Normalization, i: nat, r: nat, r': nat)
    requires i < |batch| && r <= r'
    requires SlotAfter(batch, backend, normalize, i, r).Some?
    ensures SlotAfter(batch, backend, normalize, i, r') == SlotAfter(batch, backend, normalize, i, r)
    decreases r' - r
  {
    if r < r' {
      SlotStaysResolved(batch, backend, normalize, i, r, r' - 1);
    }
  }

  /** A slot is filled within `rounds` rounds exactly when some round's
      prediction for it succeeded, and then it holds the earliest one. */
  lemma {:induction false} SlotIsFirstSuccess(batch: seq<Conversation>, backend: Backend, normalize: Normalization, i: nat, rounds: nat)
    requires i < |batch|
    ensures var slot := SlotAfter(batch, backend, normalize, i, rounds);
            slot.None? <==> forall r :: 0 <= r < rounds ==> Predict(backend(r, i, batch[i]), normalize).None?
    ensures var slot := SlotAfter(batch, backend, normalize, i, rounds);
            slot.Some? ==> exists r :: 0 <= r < rounds && slot == Predict(backend(r, i, batch[i]), normalize)
                                     && forall r' :: 0 <= r' < r ==> Predict(backend(r', i, batch[i]), normalize).None?
    decreases rounds
  {
    if rounds > 0 {
      SlotIsFirstSuccess(batch, backend, normalize, i, rounds - 1);
    }
  }

  // ---------------------------------------------------------------------------
  // One round

  predicate StrictlyIncreasing(s: seq<nat>) {
    forall a, b :: 0 <= a < b < |s| ==> s[a] < s[b]
  }

  /** The entries of `pending` whose prediction succeeded (`done`) or failed
      (`!done`), in order. */
  function Select(pending: seq<nat>, preds: seq<Option<Value>>, done: bool): (r: seq<nat>)
    requires |preds| == |pending|
    ensures |r| <= |pending|
    decreases |pending|
  {
    if |pending| == 0 then []
    else
      var n := |pending| - 1;
      Select(pending[..n], preds[..n], done) + (if preds[n].Some? == done then [pending[n]] else [])
  }

  /** An index is selected exactly when it is pending and its prediction has
      the selected outcome. */
  lemma {:induction false} SelectMembers(pending: seq<nat>, preds: seq<Option<Value>>, done: bool)
    requires |preds| == |pending|
    ensures forall j :: j in Select(pending, preds, done) <==>
                        exists k :: 0 <= k < |pending| && pending[k] == j && preds[k].Some? == done
    decreases |pending|
  {
    if |pending| > 0 {
      var n := |pending| - 1;
      SelectMembers(pending[..n], preds[..n], done);
      var front := Select(pending[..n], preds[..n], done);
      forall j ensures j in Select(pending, preds, done) <==>
                       exists k :: 0 <= k < |pending| && pending[k] == j && preds[k].Some? == done
      {
        if exists k :: 0 <= k < |pending| && pending[k] == j && preds[k].Some? == done {
          var k :| 0 <= k < |pending| && pending[k] == j && preds[k].Some? == done;
          if k < n {
            assert pending[..n][k] == j && preds[..n][k] == preds[k];
          }
        }
        if j in front {
          var k :| 0 <= k < n && pending[..n][k] == j && preds[..n][k].Some? == done;
          assert pending[k] == j && preds[k] == preds[..n][k];
        }
      }
    }
  }

  /** The selection keeps the order of `pending`. */
  lemma {:induction false} SelectOrdered(pending: seq<nat>, preds: seq<Option<Value>>, done: bool)
    requires |preds| == |pending|
    requires StrictlyIncreasing(pending)
    ensures StrictlyIncreasing(Select(pending, preds, done))
    decreases |pending|
  {
    if |pending| > 0 {
      var n := |pending| - 1;
      SelectOrdered(pending[..n], preds[..n], done);
      SelectMembers(pending[..n], preds[..n], done);
      var front := Select(pending[..n], preds[..n], done);
      forall x | x in front ensures x < pending[n] {
        var k :| 0 <= k < n && pending[..n][k] == x && preds[..n][k].Some? == done;
      }
      var whole := Select(pending, preds, done);
      forall a, b | 0 <= a < b < |whole| ensures whole[a] < whole[b] {
        if b < |front| {
          assert whole[a] == front[a] && whole[b] == front[b];
        } else {
          assert whole[a] == front[a] && whole[a] in front;
        }
      }
    }
  }

  /** In a list of distinct indices, index `pending[k]` is selected exactly
      when prediction `k` has the selected outcome. */
  lemma SelectAt(pending: seq<nat>, preds: seq<Option<Value>>, done: bool, k: nat)
    requires |preds| == |pending| && k < |pending|
    requires StrictlyIncreasing(pending)
    ensures pending[k] in Select(pending, preds, done) <==> preds[k].Some? == done
  {
    SelectMembers(pending, preds, done);
  }

  /** The first loop of the resolve step: every successful prediction is
      written to its conversation's slot and its index recorded as finished,
      in order. */
  method WriteBack(responses: seq<Option<Value>>, pending: seq<nat>, preds: seq<Option<Value>>)
    returns (updated: seq<Option<Value>>, finished: seq<nat>)
    requires |preds| == |pending|
    requires StrictlyIncreasing(pending)
    requires forall k :: 0 <= k < |pending| ==> pending[k] < |responses|
    ensures |updated| == |responses|
    ensures forall k :: 0 <= k < |pending| ==>
              updated[pending[k]] == if preds[k].Some? then preds[k] else responses[pending[k]]
    ensures forall j :: 0 <= j < |responses| && j !in pending ==> updated[j] == responses[j]
    ensures finished == Select(pending, preds, true)
  {
    updated := responses;
    finished := [];
    for k := 0 to |pending|
      invariant |updated| == |responses|
      invariant forall x :: 0 <= x < k ==>
                  updated[pending[x]] == if preds[x].Some? then preds[x] else responses[pending[x]]
      invariant forall x :: k <= x < |pending| ==> updated[pending[x]] == responses[pending[x]]
      invariant forall j :: 0 <= j < |responses| && j !in pending ==> updated[j] == responses[j]
      invariant finished == Select(pending[..k], preds[..k], true)
    {
      assert pending[..k + 1][..k] == pending[..k] && preds[..k + 1][..k] == preds[..k];
      if preds[k].Some? {
        updated := updated[pending[k] := preds[k]];
        finished := finished + [pending[k]];
      }
    }
    assert pending[..|pending|] == pending && preds[..|pending|] == preds;
  }

  /** The second loop of the resolve step: the pending indices not finished,
      in order, are those whose prediction failed. */
  method KeepUnfinished(pending: seq<nat>, preds: seq<Option<Value>>, finished: seq<nat>) returns (remaining: seq<nat>)
    requires |preds| == |pending|
    requires StrictlyIncreasing(pending)
    requires finished == Select(pending, preds, true)
    ensures remaining == Select(pending, preds, false)
  {
    remaining := [];
    for k := 0 to |pending|
      invariant remaining == Select(pending[..k], preds[..k], false)
    {
      assert pending[..k + 1][..k] == pending[..k] && preds[..k + 1][..k] == preds[..k];
      SelectAt(pending, preds, true, k);
      if pending[k] !in finished {
        remaining := remaining + [pending[k]];
      }
    }
    assert pending[..|pending|] == pending && preds[..|pending|] == preds;
  }

  /** The resolve step of one round (the two loops after the gather). */
  method ResolveRound(responses: seq<Option<Value>>, pending: seq<nat>, preds: seq<Option<Value>>)
    returns (updated: seq<Option<Value>>, remaining: seq<nat>)
    requires |preds| == |pending|
    requires StrictlyIncreasing(pending)
    requires forall k :: 0 <= k < |pending| ==> pending[k] < |responses|
    ensures |updated| == |responses|
    ensures forall k :: 0 <= k < |pending| ==>
              updated[pending[k]] == if preds[k].Some? then preds[k] else responses[pending[k]]
    ensures forall j :: 0 <= j < |responses| && j !in pending ==> updated[j] == responses[j]
    ensures remaining == Select(pending, preds, false)
  {
    var finished;
    updated, finished := WriteBack(responses, pending, preds);
    remaining := KeepUnfinished(pending, preds, finished);
  }

  // ---------------------------------------------------------------------------
  // The coordinator

  /** The indices `0, ..., n - 1`. */
  function AllIndices(n: nat): (r: seq<nat>)
    ensures |r| == n && StrictlyIncreasing(r)
    ensures forall k :: 0 <= k < n ==> r[k] == k
    ensures forall i: nat :: i in r <==> i < n
  {
    var r := seq(n, k requires 0 <= k < n => k);
    assert forall i: nat :: i in r <==> i < n by {
      forall i: nat ensures i in r <==> i < n {
        if i < n {
          assert r[i] == i;
        }
      }
    }
    r
  }

  /** The result array after `rounds` rounds of the reference semantics. */
  function Slots(batch: seq<Conversation>, backend: Backend, normalize: Normalization, rounds: nat): (r: seq<Option<Value>>)
    ensures |r| == |batch|
    ensures forall i :: 0 <= i < |batch| ==> r[i] == SlotAfter(batch, backend, normalize, i, rounds)
  {
    seq(|batch|, i requires 0 <= i < |batch| => SlotAfter(batch, backend, normalize, i, rounds))
  }

  /** The indices of the empty slots, in increasing order: the pending list. */
  function Unfilled(slots: seq<Option<Value>>): (r: seq<nat>)
    ensures StrictlyIncreasing(r)
    ensures forall i: nat :: i in r <==> i < |slots| && slots[i].None?
  {
    var all := AllIndices(|slots|);
    SelectMembers(all, slots, false);
    SelectOrdered(all, slots, false);
    Select(all, slots, false)
  }

  /** Two increasing index lists with the same members are the same list. */
  lemma {:induction false} IncreasingUnique(a: seq<nat>, b: seq<nat>)
    requires StrictlyIncreasing(a) && StrictlyIncreasing(b)
    requires forall x :: x in a <==> x in b
    ensures a == b
    decreases |a|
  {
    if |a| > 0 {
      assert a[0] in a;
    }
    if |b| > 0 {
      assert b[0] in b;
    }
    if |a| > 0 && |b| > 0 {
      assert a[0] == b[0] by {
        assert a[0] in b && b[0] in a;
      }
      forall x ensures x in a[1..] <==> x in b[1..] {
        if x in a[1..] {
          assert x in b && x > a[0];
        }
        if x in b[1..] {
          assert x in a && x > b[0];
        }
      }
      IncreasingUnique(a[1..], b[1..]);
      assert a == [a[0]] + a[1..] && b == [b[0]] + b[1..];
    }
  }

  /** One resolve step advances the result array by one round of the
      reference semantics: a pending slot takes its prediction of this round,
      and a filled slot keeps its value. */
  lemma RoundFills(batch: seq<Conversation>, backend: Backend, normalize: Normalization, round: nat,
                   current: seq<nat>, predictions: seq<Option<Value>>, updated: seq<Option<Value>>)
    requires current == Unfilled(Slots(batch, backend, normalize, round))
    requires |predictions| == |current|
    requires forall k :: 0 <= k < |current| ==>
               current[k] < |batch| && predictions[k] == Predict(backend(round, current[k], batch[current[k]]), normalize)
    requires |updated| == |batch|
    requires forall k :: 0 <= k < |current| ==> updated[current[k]] == predictions[k]
    requires forall j :: 0 <= j < |batch| && j !in current ==> updated[j] == SlotAfter(batch, backend, normalize, j, round)
    ensures updated == Slots(batch, backend, normalize, round + 1)
  {
    var next := Slots(batch, backend, normalize, round + 1);
    forall i: nat | i < |batch| ensures updated[i] == next[i] {
      if i in current {
        var k :| 0 <= k < |current| && current[k] == i;
      }
    }
  }

  /** After the resolve step the pending list is exactly the indices of the
      slots still empty, in increasing order. */
  lemma RoundPending(current: seq<nat>, predictions: seq<Option<Value>>, updated: seq<Option<Value>>, remaining: seq<nat>)
    requires StrictlyIncreasing(current) && |predictions| == |current|
    requires forall k :: 0 <= k < |current| ==> current[k] < |updated| && updated[current[k]] == predictions[k]
    requires forall j :: 0 <= j < |updated| && j !in current ==> updated[j].Some?
    requires remaining == Select(current, predictions, false)
    ensures remaining == Unfilled(updated)
  {
    SelectMembers(current, predictions, false);
    SelectOrdered(current, predictions, false);
    forall i: nat ensures i in remaining <==> i < |updated| && updated[i].None? {
      if i in current {
        var k :| 0 <= k < |current| && current[k] == i;
        SelectAt(current, predictions, false, k);
      }
    }
    IncreasingUnique(remaining, Unfilled(updated));
  }

  /** The body of one round: dispatch every pending conversation, normalize
      the answers (in submission order) and resolve. */
  method Round(batch: seq<Conversation>, normalize: Normalization, backend: Backend, round: nat,
               responses: seq<Option<Value>>, pending: seq<nat>)
    returns (updated: seq<Option<Value>>, remaining: seq<nat>)
    requires responses == Slots(batch, backend, normalize, round)
    requires pending == Unfilled(responses)
    ensures updated == Slots(batch, backend, normalize, round + 1)
    ensures remaining == Unfilled(updated)
  {
    forall k | 0 <= k < |pending| ensures pending[k] < |batch| {
      assert pending[k] in pending;
    }
    var predictions := seq(|pending|, k requires 0 <= k < |pending| =>
                             Predict(backend(round, pending[k], batch[pending[k]]), normalize));
    updated, remaining := ResolveRound(responses, pending, predictions);
    forall k | 0 <= k < |pending| ensures updated[pending[k]] == predictions[k] {
      assert pending[k] in pending;
    }
    RoundFills(batch, backend, normalize, round, pending, predictions, updated);
    RoundPending(pending, predictions, updated, remaining);
  }

  /** Once every slot is filled, further rounds change nothing. */
  lemma AllFilledStays(batch: seq<Conversation>, backend: Backend, normalize: Normalization, round: nat, later: nat)
    requires round <= later
    requires |Unfilled(Slots(batch, backend, normalize, round))| == 0
    ensures Slots(batch, backend, normalize, later) == Slots(batch, backend, normalize, round)
  {
    var slots := Slots(batch, backend, normalize, round);
    forall i | 0 <= i < |batch|
      ensures SlotAfter(batch, backend, normalize, i, later) == SlotAfter(batch, backend, normalize, i, round)
    {
      assert i !in Unfilled(slots);
      SlotStaysResolved(batch, backend, normalize, i, round, later);
    }
  }

  /** The pending list never grows: it only ever loses indices, and an index
      filled in some round is never dispatched again. */
  lemma PendingShrinks(batch: seq<Conversation>, backend: Backend, normalize: Normalization, round: nat, later: nat)
    requires round <= later
    ensures forall i :: i in Unfilled(Slots(batch, backend, normalize, later)) ==>
                        i in Unfilled(Slots(batch, backend, normalize, round))
    ensures |Unfilled(Slots(batch, backend, normalize, later))| <= |Unfilled(Slots(batch, backend, normalize, round))|
  {
    var before := Unfilled(Slots(batch, backend, normalize, round));
    var after := Unfilled(Slots(batch, backend, normalize, later));
    forall i | i in after ensures i in before {
      if SlotAfter(batch, backend, normalize, i, round).Some? {
        SlotStaysResolved(batch, backend, normalize, i, round, later);
      }
    }
    SubsetShorter(after, before);
  }

  /** An increasing list whose members all occur in another increasing list
      is no longer than it. */
  lemma {:induction false} SubsetShorter(a: seq<nat>, b: seq<nat>)
    requires StrictlyIncreasing(a) && StrictlyIncreasing(b)
    requires forall x :: x in a ==> x in b
    ensures |a| <= |b|
    decreases |b|
  {
    if |a| > 0 {
      assert a[|a| - 1] in a;
      var k :| 0 <= k < |b| && b[k] == a[|a| - 1];
      var a' := a[..|a| - 1];
      forall x | x in a' ensures x in b[..k] {
        var j :| 0 <= j < |a'| && a'[j] == x;
        assert a[j] == x && x in b;
        var m :| 0 <= m < |b| && b[m] == x;
        assert m < k by {
          assert x < b[k];
        }
        assert b[..k][m] == x;
      }
      SubsetShorter(a', b[..k]);
    }
  }

  /** `log[r]` is the pending list of round `r` and is non-empty, for every
      round recorded. */
  predicate DispatchLog(batch: seq<Conversation>, backend: Backend, normalize: Normalization, log: seq<seq<nat>>)
    decreases |log|
  {
    |log| == 0 ||
    (var r := |log| - 1;
     DispatchLog(batch, backend, normalize, log[..r]) && log[r] == Unfilled(Slots(batch, backend, normalize, r)) && |log[r]| > 0)
  }

  lemma {:induction false} DispatchLogAt(batch: seq<Conversation>, backend: Backend, normalize: Normalization, log: seq<seq<nat>>)
    requires DispatchLog(batch, backend, normalize, log)
    ensures forall r :: 0 <= r < |log| ==> log[r] == Unfilled(Slots(batch, backend, normalize, r)) && |log[r]| > 0
    decreases |log|
  {
    if |log| > 0 {
      var front := log[..|log| - 1];
      DispatchLogAt(batch, backend, normalize, front);
      assert forall r :: 0 <= r < |front| ==> log[r] == front[r];
    }
  }

  /** The coordinator loop for a budget of `rounds` rounds (the source's
      `retry`): `dispatched[r]` lists the indices sent in round `r`. It stops
      early once nothing is pending. */
  method RunRounds(batch: seq<Conversation>, normalize: Normalization, backend: Backend, rounds: int)
    returns (responses: seq<Option<Value>>, pending: seq<nat>, dispatched: seq<seq<nat>>)
    ensures responses == Slots(batch, backend, normalize, if rounds < 0 then 0 else rounds)
    ensures pending == Unfilled(responses)
    ensures |dispatched| <= if rounds < 0 then 0 else rounds
    ensures DispatchLog(batch, backend, normalize, dispatched)
    ensures |dispatched| < rounds ==> |pending| == 0
    ensures |batch| > 0 && rounds > 0 ==> |dispatched| > 0
  {
    responses, pending := Start(batch, backend, normalize);
    dispatched := [];
    var retry := rounds;
    var round: nat := 0;
    while retry > 0 && |pending| > 0
      invariant round == |dispatched| && retry == rounds - round
      invariant round <= if rounds < 0 then 0 else rounds
      invariant responses == Slots(batch, backend, normalize, round)
      invariant pending == Unfilled(responses)
      invariant round == 0 ==> |pending| == |batch|
      invariant DispatchLog(batch, backend, normalize, dispatched)
      decreases retry
    {
      var current := pending;
      responses, pending := Round(batch, normalize, backend, round, responses, current);
      DispatchLogExtend(batch, backend, normalize, dispatched, current);
      dispatched := dispatched + [current];
      retry := retry - 1;
      round := round + 1;
    }
    if round < rounds {
      AllFilledStays(batch, backend, normalize, round, rounds);
    }
  }

  /** The state before the first round: `[None] * len(batch)` and
      `list(range(len(batch)))`, that is, every slot empty and every index
      pending. */
  method Start(batch: seq<Conversation>, backend: Backend, normalize: Normalization)
    returns (responses: seq<Option<Value>>, pending: seq<nat>)
    ensures responses == Slots(batch, backend, normalize, 0)
    ensures pending == Unfilled(responses)
    ensures |pending| == |batch|
  {
    responses := seq(|batch|, i requires 0 <= i < |batch| => None);
    pending := AllIndices(|batch|);
    IncreasingUnique(pending, Unfilled(responses));
  }

  /** Recording the pending list of the next round keeps the log. */
  lemma DispatchLogExtend(batch: seq<Conversation>, backend: Backend, normalize: Normalization,
                          log: seq<seq<nat>>, current: seq<nat>)
    requires DispatchLog(batch, backend, normalize, log)
    requires current == Unfilled(Slots(batch, backend, normalize, |log|)) && |current| > 0
    ensures DispatchLog(batch, backend, normalize, log + [current])
  {
    assert (log + [current])[..|log|] == log;
  }

  /** Only a non-empty batch is ever dispatched. */
  lemma DispatchedBatchNonEmpty(batch: seq<Conversation>, backend: Backend, normalize: Normalization, log: seq<seq<nat>>)
    requires DispatchLog(batch, backend, normalize, log)
    requires |log| > 0
    ensures |batch| > 0
  {
    DispatchLogAt(batch, backend, normalize, log);
    assert log[0][0] in Unfilled(Slots(batch, backend, normalize, 0));
  }

  /** `async_run`: one round (`retry = 1`) with the response pipeline for
      `shape`, so slot `i` holds the normalized first-round answer for
      conversation `i` (or `None`), and the batch is dispatched once when it
      is non-empty and never when it is empty. */
  method AsyncRun(batch: seq<Conversation>, shape: Shape, parse: Parser, backend: Backend)
    returns (responses: seq<Option<Value>>, roundsUsed: nat)
    ensures |responses| == |batch|
    ensures forall i :: 0 <= i < |batch| ==>
              responses[i] == match backend(0, i, batch[i])
                              case None => None
                              case Some(raw) => Normalize(raw, shape, parse)
    ensures forall i :: 0 <= i < |batch| && responses[i].Some? ==> HasShape(responses[i].value, shape)
    ensures roundsUsed == if |batch| > 0 then 1 else 0
  {
    var pending, dispatched;
    var normalize := raw => Normalize(raw, shape, parse);
    responses, pending, dispatched := RunRounds(batch, normalize, backend, 1);
    roundsUsed := |dispatched|;
    if |dispatched| > 0 {
      DispatchedBatchNonEmpty(batch, backend, normalize, dispatched);
    }
  }
}
