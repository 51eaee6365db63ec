/** The interception layer (responses.RequestsMock) as the recorder uses it:
    an on/off switch and an ordered registry of callback stubs. */
module Interception {
  import opened Wrappers
  import opened Json

  /** re.compile("http.*"), or an exact URL taken from a cassette. */
  datatype UrlPattern = HttpAny | Exact(url: Json)

  /** The callback a stub runs: the recording callback, or play(response). */
  datatype Callback = Recording | Playing(response: Json)

  /** One add_callback registration. */
  datatype Stub = Stub(httpMethod: Json, url: UrlPattern, matchQuerystring: bool, callback: Callback)

  /** The part of a URL before its query string. */
  function WithoutQuery(url: string): (r: string)
    ensures r <= url && '?' !in r
    ensures '?' !in url ==> r == url
    ensures |r| < |url| ==> url[|r|] == '?'
  {
    if url == [] || url[0] == '?' then [] else [url[0]] + WithoutQuery(url[1..])
  }

  /** How responses matches a live request against a stub. This is an
      assumption about the collaborator, not code of the recorder: the method
      must be equal, re.match of "http.*" accepts a URL beginning with "http",
      and an exact URL is compared whole when match_querystring is set and
      without its query string otherwise. */
  predicate StubMatches(s: Stub, httpMethod: string, url: string) {
    s.httpMethod == JStr(httpMethod) &&
    match s.url
    case HttpAny => "http" <= url
    case Exact(u) =>
      if s.matchQuerystring then u == JStr(url)
      else u.JStr? && WithoutQuery(u.s) == WithoutQuery(url)
  }

  /** The stub that answers a live request: assumed to be the first
      registered stub that matches it. */
  function FirstMatch(stubs: seq<Stub>, httpMethod: string, url: string): (r: Option<nat>)
    ensures r.Some? ==> r.value < |stubs| && StubMatches(stubs[r.value], httpMethod, url)
    ensures r.Some? ==> forall j :: 0 <= j < r.value ==> !StubMatches(stubs[j], httpMethod, url)
    ensures r.None? ==> forall j :: 0 <= j < |stubs| ==> !StubMatches(stubs[j], httpMethod, url)
  {
    if stubs == [] then None
    else if StubMatches(stubs[0], httpMethod, url) then Some(0)
    else match FirstMatch(stubs[1..], httpMethod, url)
      case None => None
      case Some(k) => Some(k + 1)
  }

  /** The first matching stub is found wherever it is registered. */
  lemma {:induction false} FirstMatchAt(stubs: seq<Stub>, httpMethod: string, url: string, i: nat)
    requires i < |stubs| && StubMatches(stubs[i], httpMethod, url)
    requires forall j :: 0 <= j < i ==> !StubMatches(stubs[j], httpMethod, url)
    ensures FirstMatch(stubs, httpMethod, url) == Some(i)
  {
    if i > 0 {
      FirstMatchAt(stubs[1..], httpMethod, url, i - 1);
    }
  }

  class RequestsMock {
    /** Whether requests' transport is currently patched. */
    var active: bool
    /** The registered stubs, in registration order. */
    var stubs: seq<Stub>

    /** RequestsMock(assert_all_requests_are_fired=False): not started, empty. */
    constructor ()
      ensures !active && stubs == []
    {
      active := false;
      stubs := [];
    }

    method Start()
      modifies this
      ensures active && stubs == old(stubs)
    {
      active := true;
    }

    method Stop()
      modifies this
      ensures !active && stubs == old(stubs)
    {
      active := false;
    }

    /** reset() forgets every stub and leaves the switch as it is. */
    method Reset()
      modifies this
      ensures active == old(active) && stubs == []
    {
      stubs := [];
    }

    method AddCallback(s: Stub)
      modifies this
      ensures active == old(active) && stubs == old(stubs) + [s]
    {
      stubs := stubs + [s];
    }
  }
}
