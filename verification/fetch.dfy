/**
 * The fetcher: one HTTP exchange per user, classified into a `FetchResult`,
 * and the gathering of all users' results in request order.
 */
module Fetch {
  import opened Wrappers
  import opened Text
  import TextLemmas

  /** One user's outcome; `keys` and `error` are Python's `str | None`. */
  datatype FetchResult = FetchResult(user: string, keys: Option<string>, error: Option<string>)

  /** What one GET of `https://github.com/{user}.keys` can end in, as the
      fetcher observes it: the timeout firing, any other exception (carrying
      its `str(e)`), or a response with a status and a decoded body. */
  datatype Exchange =
    | TimedOut
    | Raised(message: string)
    | Responded(status: nat, body: string)

  const UserNotFound := "User not found"
  const NoKeysFound := "No keys found"
  const RequestTimedOut := "Request timed out"

  /** The error text for a status other than 200 and 404. */
  function HttpError(status: nat): (e: string)
    ensures |e| > 5 && e[..5] == "HTTP "
    ensures AllDigits(e[5..]) && DecimalValue(e[5..]) == status
    ensures |e| > 6 ==> e[5] != '0'
  {
    var e := "HTTP " + NatToString(status);
    assert e[5..] == NatToString(status);
    TextLemmas.DecimalRoundTrip(status);
    e
  }

  /** `fetch_keys`: classifies one exchange.  Every failure is captured in
      `error`; a success carries the body with its whitespace margins removed. */
  function FetchKeys(user: string, x: Exchange): (r: FetchResult)
    ensures r.user == user
    ensures r.keys.Some? <==> r.error.None?
    ensures r.keys.Some? <==> x.Responded? && x.status == 200 && !IsBlank(x.body)
    ensures r.keys.Some? ==> r.keys.value == Strip(x.body)
    ensures r.keys.Some? ==> r.keys.value != [] && HasNoMargins(r.keys.value)
    ensures x.TimedOut? ==> r.error == Some(RequestTimedOut)
    ensures x.Raised? ==> r.error == Some(x.message)
    ensures x.Responded? && x.status == 404 ==> r.error == Some(UserNotFound)
    ensures x.Responded? && x.status != 404 && x.status != 200 ==> r.error == Some(HttpError(x.status))
    ensures x.Responded? && x.status == 200 && IsBlank(x.body) ==> r.error == Some(NoKeysFound)
  {
    match x
    case TimedOut => FetchResult(user, None, Some(RequestTimedOut))
    case Raised(msg) => FetchResult(user, None, Some(msg))
    case Responded(status, body) =>
      if status == 404 then FetchResult(user, None, Some(UserNotFound))
      else if status != 200 then FetchResult(user, None, Some(HttpError(status)))
      else
        var text := Strip(body);
        if text == [] then FetchResult(user, None, Some(NoKeysFound))
        else FetchResult(user, Some(text), None)
  }

  /** `completion` lists every request index exactly once, in the order the
      requests finished on the wire. */
  predicate IsCompletionOrder(completion: seq<nat>, n: nat) {
    && |completion| == n
    && (forall k :: 0 <= k < n ==> completion[k] < n)
    && (forall i :: 0 <= i < n ==> i in completion)
  }

  /** `fetch_all`: one request per user, all in flight at once, joined with
      `asyncio.gather`.  `outcomes[i]` is how request `i` ends and
      `completion` the order in which the requests finish; each finished
      result is stored in its request's slot, so the list returned is in
      request order whatever the completion order. */
  method FetchAll(users: seq<string>, outcomes: seq<Exchange>, completion: seq<nat>)
    returns (results: seq<FetchResult>)
    requires |outcomes| == |users|
    requires IsCompletionOrder(completion, |users|)
    ensures |results| == |users|
    ensures forall i :: 0 <= i < |users| ==> results[i] == FetchKeys(users[i], outcomes[i])
  {
    var slots: seq<Option<FetchResult>> := seq(|users|, _ => None);
    var k := 0;
    while k < |completion|
      invariant 0 <= k <= |completion|
      invariant |slots| == |users|
      invariant forall i :: 0 <= i < |users| && i in completion[..k] ==> slots[i].Some?
      invariant forall i :: 0 <= i < |users| && slots[i].Some? ==>
                  slots[i].value == FetchKeys(users[i], outcomes[i])
    {
      var j := completion[k];
      slots := slots[j := Some(FetchKeys(users[j], outcomes[j]))];
      assert completion[..k + 1] == completion[..k] + [j];
      k := k + 1;
    }
    assert completion[..k] == completion;
    results := [];
    var i := 0;
    while i < |users|
      invariant 0 <= i <= |users|
      invariant |results| == i
      invariant forall m :: 0 <= m < i ==> results[m] == FetchKeys(users[m], outcomes[m])
    {
      results := results + [slots[i].value];
      i := i + 1;
    }
  }
}
