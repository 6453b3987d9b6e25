/** The attempt loop of one chat request to the local model server: up to
    `retry` POSTs of the same payload, the content of the first successful
    reply returned, a one-second pause after every failed attempt except the
    last, and `None` once every attempt has failed.

    The network is a parameter: `server(a)` is what attempt `a` (counting
    from 0) observes. */
module Dispatcher {
  import opened Optional

  /** The `message.content` field of a decoded reply body. */
  datatype Body =
    | Content(text: string)   // a string
    | NullContent             // JSON `null`: Python's `None`
    | Malformed               // not JSON, or no `message`/`content` key: raises

  /** What one attempt observes. */
  datatype Reply =
    | Http(status: int, body: Body)
    | Timeout                 // `asyncio.TimeoutError`
    | ConnectionError         // any other exception from the session

  /** The attempt ends the loop: a 200 status whose body yields a content
      field. Every other outcome is logged and retried. */
  predicate Returns(r: Reply) {
    r.Http? && r.status == 200 && !r.body.Malformed?
  }

  /** What the request returns when attempt `r` ends the loop. */
  function Returned(r: Reply): Option<string>
    requires Returns(r)
  {
    if r.body.Content? then Some(r.body.text) else None
  }

  /** The number of attempts `range(retry)` allows. */
  function Allowed(retry: int): nat {
    if retry < 0 then 0 else retry
  }

  /** The first attempt in `[from, limit)` that ends the loop, if any: the
      reference the attempt loop is checked against. */
  function FirstReturn(server: nat -> Reply, from: nat, limit: nat): (r: Option<nat>)
    ensures r.Some? ==> from <= r.value < limit && Returns(server(r.value))
    ensures r.Some? ==> forall a :: from <= a < r.value ==> !Returns(server(a))
    ensures r.None? ==> forall a :: from <= a < limit ==> !Returns(server(a))
    decreases limit - from
  {
    if from >= limit then None
    else if Returns(server(from)) then Some(from)
    else FirstReturn(server, from + 1, limit)
  }

  /** The attempt loop of `_single_request` (network abstracted). `attempts`
      is the number of requests sent and `sleeps` the number of one-second
      pauses taken. */
  method SingleRequest(server: nat -> Reply, retry: int) returns (content: Option<string>, attempts: nat, sleeps: nat)
    ensures attempts <= Allowed(retry)
    ensures forall a :: 0 <= a < attempts - 1 ==> !Returns(server(a))
    ensures attempts > 0 && Returns(server(attempts - 1)) ==> content == Returned(server(attempts - 1))
    ensures !(attempts > 0 && Returns(server(attempts - 1))) ==> attempts == Allowed(retry) && content.None?
    ensures content.Some? ==> server(attempts - 1) == Http(200, Content(content.value))
    ensures sleeps == if attempts == 0 then 0 else attempts - 1
    ensures match FirstReturn(server, 0, Allowed(retry))
            case Some(a) => attempts == a + 1 && content == Returned(server(a))
            case None => attempts == Allowed(retry) && content.None?
  {
    attempts := 0;
    sleeps := 0;
    var attempt := 0;
    while attempt < retry
      invariant 0 <= attempt <= Allowed(retry)
      invariant attempts == attempt
      invariant forall a :: 0 <= a < attempt ==> !Returns(server(a))
      invariant sleeps == if attempt == retry && attempt > 0 then attempt - 1 else attempt
    {
      var reply := server(attempt);
      attempts := attempts + 1;
      if Returns(reply) {
        return Returned(reply), attempts, sleeps;
      }
      if attempt < retry - 1 {
        sleeps := sleeps + 1;
      }
      attempt := attempt + 1;
    }
    content := None;
  }
}
