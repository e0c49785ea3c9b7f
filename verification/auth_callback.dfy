/** The `/authorization` handler of the one-time Strava authorization
    script: it stores the `code` query argument in the global `auth_code`
    and answers with a message. The Flask server, its thread and the
    browser are not modelled; a request is reduced to its `code` argument
    (`None` when the query has none), and the global to an `Option`. */
module AuthCallback {
  import opened Wrappers

  datatype Reply =
    | Succeeded   // "Authorization successful! You can close this window."
    | Failed      // "Authorization failed. Please try again."

  /** Python truthiness of `request.args.get("code")`. */
  predicate Usable(code: Option<string>) {
    code.Some? && code.value != ""
  }

  /** One request: the new value of `auth_code` and the reply. */
  function Authorize(authCode: Option<string>, code: Option<string>): (r: (Option<string>, Reply))
    ensures r.1 == Succeeded <==> Usable(code)
    ensures Usable(code) ==> r.0 == code
    ensures !Usable(code) ==> r.0 == authCode
  {
    if Usable(code) then (code, Succeeded) else (authCode, Failed)
  }

  /** `auth_code` after the server has answered `requests` in order. */
  function AfterRequests(authCode: Option<string>, requests: seq<Option<string>>): Option<string>
    decreases |requests|
  {
    if requests == [] then authCode
    else AfterRequests(Authorize(authCode, requests[0]).0, requests[1..])
  }

  /** Position of the last request carrying a usable code, or -1. */
  function LastUsable(requests: seq<Option<string>>): (k: int)
    ensures -1 <= k < |requests|
    ensures k >= 0 ==> Usable(requests[k])
    ensures forall j :: k < j < |requests| ==> !Usable(requests[j])
  {
    if requests == [] then -1
    else if Usable(requests[|requests| - 1]) then |requests| - 1
    else LastUsable(requests[..|requests| - 1])
  }

  /** The stored code is the one from the last request that carried a
      non-empty code; requests without one never clear or change it. */
  lemma {:induction false} AfterRequestsKeepsLastCode(authCode: Option<string>, requests: seq<Option<string>>)
    ensures LastUsable(requests) < 0 ==> AfterRequests(authCode, requests) == authCode
    ensures LastUsable(requests) >= 0 ==> AfterRequests(authCode, requests) == requests[LastUsable(requests)]
    decreases |requests|
  {
    if requests != [] {
      var next := Authorize(authCode, requests[0]).0;
      var rest := requests[1..];
      AfterRequestsKeepsLastCode(next, rest);
      if LastUsable(rest) < 0 {
        // no usable code after the first request
        assert forall j :: 0 < j < |requests| ==> requests[j] == rest[j - 1];
        assert LastUsable(requests) == (if Usable(requests[0]) then 0 else -1) by {
          LastUsableWithoutLaterCodes(requests);
        }
      } else {
        LastUsableOfTail(requests);
      }
    }
  }

  lemma LastUsableWithoutLaterCodes(requests: seq<Option<string>>)
    requires requests != []
    requires forall j :: 0 < j < |requests| ==> !Usable(requests[j])
    ensures LastUsable(requests) == (if Usable(requests[0]) then 0 else -1)
  {
    var k := LastUsable(requests);
    if k >= 0 {
      assert k == 0;
    } else if Usable(requests[0]) {
      assert false;
    }
  }

  /** A usable code in the tail is found at the same place, shifted by one. */
  lemma {:induction false} LastUsableOfTail(requests: seq<Option<string>>)
    requires requests != [] && LastUsable(requests[1..]) >= 0
    ensures LastUsable(requests) == LastUsable(requests[1..]) + 1
    decreases |requests|
  {
    var rest := requests[1..];
    var k := LastUsable(rest);
    assert Usable(requests[k + 1]) by { assert requests[k + 1] == rest[k]; }
    var l := LastUsable(requests);
    assert forall j :: k + 1 < j < |requests| ==> !Usable(requests[j]) by {
      forall j | k + 1 < j < |requests| ensures !Usable(requests[j]) {
        assert requests[j] == rest[j - 1];
      }
    }
    assert l >= k + 1;
  }

  /** `main` waits while `auth_code is None`: starting from nothing, the
      global stays empty through every request before the first one that
      carries a usable code, and then holds that request's code. */
  lemma {:induction false} FirstUsableEndsWait(requests: seq<Option<string>>, k: nat)
    requires k < |requests| && Usable(requests[k])
    requires forall j :: 0 <= j < k ==> !Usable(requests[j])
    ensures forall n :: 0 <= n <= k ==> AfterRequests(None, requests[..n]).None?
    ensures AfterRequests(None, requests[..k + 1]) == requests[k]
  {
    forall n | 0 <= n <= k ensures AfterRequests(None, requests[..n]).None? {
      AfterRequestsKeepsLastCode(None, requests[..n]);
      NoUsableInPrefix(requests, n, k);
    }
    AfterRequestsKeepsLastCode(None, requests[..k + 1]);
    assert requests[..k + 1][k] == requests[k];
  }

  lemma NoUsableInPrefix(requests: seq<Option<string>>, n: nat, k: nat)
    requires n <= k < |requests|
    requires forall j :: 0 <= j < k ==> !Usable(requests[j])
    ensures LastUsable(requests[..n]) < 0
  {
    var p := requests[..n];
    assert forall j :: 0 <= j < |p| ==> p[j] == requests[j];
  }
}
