/**
 * Client metadata from request headers (api/src/utils/requestUtils.ts). The
 * request is its header map, keyed by lower-case header name, since header
 * lookup is case-insensitive.
 */
module RequestUtils {
  import opened Wrappers
  import opened TextOrder
  import opened JsStrings

  type Headers = map<Str, Str>

  /** The headers that may carry the client address, most preferred first. */
  const ClientIpHeaders: seq<Str> := [
    "x-forwarded-for", "x-real-ip", "cf-connecting-ip", "fastly-client-ip",
    "x-client-ip", "x-cluster-client-ip", "forwarded-for", "forwarded"
  ]

  /** A header counts when it is present with a non-empty (truthy) value. */
  predicate HasValue(h: Headers, name: Str)
  {
    name in h && h[name] != ""
  }

  /** The client address a header value names: the first comma-separated entry, trimmed. */
  function FirstAddress(v: Str): (r: Str)
    ensures ',' !in r
    ensures IsTrimOf(r, Split(v, ',')[0])
  {
    var first := Split(v, ',')[0];
    assert forall c :: c in Trim(first) ==> c in first;
    Trim(first)
  }

  /** `names[i]` is the first of `names` that has a value. */
  ghost predicate FirstWithValue(h: Headers, names: seq<Str>, i: int)
  {
    && 0 <= i < |names| && HasValue(h, names[i])
    && forall j :: 0 <= j < i ==> !HasValue(h, names[j])
  }

  lemma FirstWithValueShift(h: Headers, names: seq<Str>, i: int)
    requires |names| > 0 && !HasValue(h, names[0])
    requires FirstWithValue(h, names[1..], i)
    ensures FirstWithValue(h, names, i + 1)
  {
    forall j | 0 <= j < i + 1
      ensures !HasValue(h, names[j])
    {
      if j > 0 {
        assert names[j] == names[1..][j - 1];
      }
    }
  }

  /** The first of `names` that has a value, as its address. */
  function FirstPresent(h: Headers, names: seq<Str>): (r: Option<Str>)
    ensures r.None? <==> forall i :: 0 <= i < |names| ==> !HasValue(h, names[i])
    ensures r.Some? ==> exists i :: FirstWithValue(h, names, i) && r.value == FirstAddress(h[names[i]])
  {
    if names == [] then None
    else if HasValue(h, names[0]) then
      assert FirstWithValue(h, names, 0);
      Some(FirstAddress(h[names[0]]))
    else
      var r := FirstPresent(h, names[1..]);
      assert r.Some? ==> exists i :: FirstWithValue(h, names, i) && r.value == FirstAddress(h[names[i]]) by {
        if r.Some? {
          var i :| FirstWithValue(h, names[1..], i) && r.value == FirstAddress(h[names[1..][i]]);
          FirstWithValueShift(h, names, i);
          assert names[i + 1] == names[1..][i];
        }
      }
      assert r.None? ==> forall i :: 0 <= i < |names| ==> !HasValue(h, names[i]) by {
        if r.None? {
          assert forall i :: 1 <= i < |names| ==> names[i] == names[1..][i - 1];
        }
      }
      r
  }

  /**
   * `getClientIp`: the first entry of the first preferred header that has a
   * value, trimmed; none when no such header is present.
   */
  function GetClientIp(h: Headers): (r: Option<Str>)
    ensures r.None? <==> forall i :: 0 <= i < |ClientIpHeaders| ==> !HasValue(h, ClientIpHeaders[i])
    ensures r.Some? ==> ',' !in r.value
    ensures HasValue(h, "x-forwarded-for") ==> r == Some(FirstAddress(h["x-forwarded-for"]))
  {
    FirstPresent(h, ClientIpHeaders)
  }

  /** `getUserAgent`: the `user-agent` header, if present. */
  function GetUserAgent(h: Headers): (r: Option<Str>)
    ensures r.Some? <==> "user-agent" in h
    ensures r.Some? ==> r.value == h["user-agent"]
  {
    if "user-agent" in h then Some(h["user-agent"]) else None
  }

  /** A header listed later is consulted only when every earlier one is missing or empty. */
  lemma LaterHeaderNeedsEarlierEmpty(h: Headers, k: nat)
    requires k < |ClientIpHeaders|
    requires HasValue(h, ClientIpHeaders[k])
    requires GetClientIp(h) != Some(FirstAddress(h[ClientIpHeaders[k]]))
    ensures exists j :: 0 <= j < k && HasValue(h, ClientIpHeaders[j])
  {
    var r := GetClientIp(h);
    var i :| FirstWithValue(h, ClientIpHeaders, i) && r.value == FirstAddress(h[ClientIpHeaders[i]]);
    assert i < k;
  }

  /** In a proxy chain `client, proxy1, ...` the client entry is the address. */
  lemma ForwardedChain(client: Str, rest: Str)
    requires ',' !in client
    requires forall c :: c in client ==> !IsJsSpace(c)
    ensures FirstAddress(client + "," + rest) == client
  {
    assert client + "," + rest == client + [','] + rest;
    SplitFirst(client, rest, ',');
    if client != [] {
      assert client[0] in client && client[|client| - 1] in client;
    }
    TrimOfTrimmed(client);
  }
}
