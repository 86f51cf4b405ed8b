/** `_call_external_api_with_retry` (modules/api_clients.py, and the same function in
    app.py): up to MAX_RETRIES GET requests, stopping at the first success or the first
    authorisation failure. The network is an input: `net[k]` is what the k-th request
    would get back. */
module Retry {
  import opened PyText

  const MaxRetries: nat := 2

  /** What one request produces: an exception from `requests.get` (connection error,
      timeout), or a response with its status code and its body, `None` when
      `response.json()` raises. */
  datatype Reply<T> = Thrown | Response(code: int, body: Option<T>)

  /** The status string: "OK", "Auth Error (<code>)" or "Error". */
  datatype Status = OK | AuthError(code: int) | Error

  /** The reply to request `k`; a request the input says nothing about fails. */
  function ReplyAt<T>(net: seq<Reply<T>>, k: nat): Reply<T> {
    if k < |net| then net[k] else Thrown
  }

  /** A reply that ends the loop with data: status 200 and a body that decodes. */
  predicate Success<T>(r: Reply<T>) {
    r.Response? && r.code == 200 && r.body.Some?
  }

  /** A reply that ends the loop without data: status 401 or 403. */
  predicate Refused<T>(r: Reply<T>) {
    r.Response? && (r.code == 401 || r.code == 403)
  }

  /** Every other reply (an exception, a body that does not decode, any other code) is
      swallowed and the next attempt is made. */
  predicate Final<T>(r: Reply<T>) {
    Success(r) || Refused(r)
  }

  /** The outcome of the attempts from `k` on, with the number of requests made in
      total. */
  function Attempts<T>(net: seq<Reply<T>>, k: nat): (r: (Option<T>, Status, nat))
    requires k <= MaxRetries
    decreases MaxRetries - k
  {
    if k == MaxRetries then (None, Error, k)
    else
      var reply := ReplyAt(net, k);
      if Success(reply) then (reply.body, OK, k + 1)
      else if Refused(reply) then (None, AuthError(reply.code), k + 1)
      else Attempts(net, k + 1)
  }

  /** The attempt loop. */
  method CallWithRetry<T>(net: seq<Reply<T>>) returns (data: Option<T>, status: Status, used: nat)
    ensures (data, status, used) == Attempts(net, 0)
  {
    var k := 0;
    while k < MaxRetries
      invariant k <= MaxRetries
      invariant Attempts(net, 0) == Attempts(net, k)
      decreases MaxRetries - k
    {
      var reply := ReplyAt(net, k);
      if reply.Response? && reply.code == 200 && reply.body.Some? {
        return reply.body, OK, k + 1;
      }
      if reply.Response? && (reply.code == 401 || reply.code == 403) {
        return None, AuthError(reply.code), k + 1;
      }
      k := k + 1;
    }
    return None, Error, MaxRetries;
  }

  // ---------------------------------------------------------------------------
  // Properties of the policy
  // ---------------------------------------------------------------------------

  /** The loop stops at the first final reply: it returns data with "OK" exactly when
      that reply is a success, "Auth Error" with its code exactly when it is a refusal,
      and "Error" after MAX_RETRIES requests when no reply was final. */
  lemma {:induction false} AttemptsFromFirstFinal<T>(net: seq<Reply<T>>, k: nat)
    requires k <= MaxRetries
    ensures var (data, status, used) := Attempts(net, k);
      && k <= used <= MaxRetries
      && (status == Error <==>
            (used == MaxRetries && data == None && forall j :: k <= j < MaxRetries ==> !Final(ReplyAt(net, j))))
      && (status != Error ==>
            (used >= 1 && Final(ReplyAt(net, used - 1)) && forall j :: k <= j < used - 1 ==> !Final(ReplyAt(net, j))))
      && (status == OK <==> status != Error && Success(ReplyAt(net, used - 1)))
      && (status == OK ==> data == ReplyAt(net, used - 1).body && data.Some?)
      && (status.AuthError? <==> status != Error && Refused(ReplyAt(net, used - 1)))
      && (status.AuthError? ==> data == None && status.code == ReplyAt(net, used - 1).code)
    decreases MaxRetries - k
  {
    if k < MaxRetries {
      AttemptsFromFirstFinal(net, k + 1);
    }
  }

  /** Data comes back only with "OK". */
  lemma DataOnlyWhenOk<T>(net: seq<Reply<T>>)
    ensures var (data, status, _) := Attempts(net, 0); data.Some? <==> status == OK
  {
    AttemptsFromFirstFinal(net, 0);
  }

  /** A success on the first request returns its data at once. */
  lemma FirstSuccessStops<T>(net: seq<Reply<T>>)
    requires |net| > 0 && Success(net[0])
    ensures Attempts(net, 0) == (net[0].body, OK, 1)
  {
  }

  /** A refusal on the first request is final: no second request is made. */
  lemma AuthErrorIsNotRetried<T>(net: seq<Reply<T>>)
    requires |net| > 0 && Refused(net[0])
    ensures Attempts(net, 0) == (None, AuthError(net[0].code), 1)
  {
  }

  /** A network that keeps failing costs exactly MAX_RETRIES requests and ends in
      "Error". */
  lemma FailuresExhaustAttempts<T>(net: seq<Reply<T>>)
    requires forall j :: 0 <= j < |net| ==> !Final(net[j])
    ensures Attempts(net, 0) == (None, Error, MaxRetries)
  {
    AttemptsFromFirstFinal(net, 0);
    assert !Final(ReplyAt(net, 0)) && !Final(ReplyAt(net, 1));
  }

  /** A reply after the last attempt changes nothing. */
  lemma OnlyFirstAttemptsMatter<T>(net: seq<Reply<T>>, more: seq<Reply<T>>)
    requires |net| >= MaxRetries
    ensures Attempts(net + more, 0) == Attempts(net, 0)
  {
    assert ReplyAt(net + more, 0) == ReplyAt(net, 0);
    assert ReplyAt(net + more, 1) == ReplyAt(net, 1);
  }
}
