/**
 * `Spy.prototype.load`: URL normalisation, the status check and the retry loop of
 * lib/spy.js. The HTTP transport is the `request` function the spy is built with, read
 * here as its reply to the k-th attempt at the requested URL.
 */
module Fetch {

  import opened Wrappers
  import opened Strings
  import opened Urls
  import opened Detection
  import opened Cdn
  import opened Pages

  /** What the transport hands to its callback: `(err, response, body)`, each possibly absent. */
  datatype Reply = Reply(err: Option<string>, response: Option<Response>, body: string)

  /** The ways a load fails; `Transport` carries the transport's own error message. */
  datatype LoadError =
    | InvalidProtocol(protocol: string)
    | Transport(message: string)
    | Status(url: string, statusCode: int)

  /** `err.message` as the callback receives it. */
  function Message(e: LoadError): string {
    match e
    case InvalidProtocol(p) => "Invalid protocol: " + p
    case Transport(m) => m
    case Status(url, code) => url + " responded with a " + IntToString(code)
  }

  /**
   * The URL a load requests: a URL the `url_protocol` regex does not match gets `http://`
   * in front; one it matches must name `http` or `https`, in any case.
   */
  function Target(url: string): Result<string, LoadError> {
    match SchemeOf(url)
    case None => Ok("http://" + url)
    case Some(p) =>
      if Lower(p) == "http" || Lower(p) == "https" then Ok(url) else Err(InvalidProtocol(Lower(p)))
  }

  /** `Math.floor(statusCode / 100) === 2`; Dafny's `/` by a positive divisor is the floor. */
  predicate Success2xx(statusCode: int) {
    statusCode / 100 == 2
  }

  /** The error one reply amounts to: the transport's, else a status outside 2xx, else none. */
  function Check(url: string, reply: Reply): Option<LoadError> {
    if reply.err.Some? then Some(Transport(reply.err.value))
    else if reply.response.Some? && !Success2xx(reply.response.value.statusCode) then
      Some(Status(url, reply.response.value.statusCode))
    else None
  }

  /** The result of a load and the number of requests it sent. */
  datatype Outcome = Outcome(result: Result<Reply, LoadError>, requests: nat)

  /** Attempts from the k-th on, with `left` retries still allowed. */
  function Attempts(url: string, request: (string, nat) -> Reply, k: nat, left: nat): (o: Outcome)
    decreases left
  {
    var e := Check(url, request(url, k));
    if e.None? then Outcome(Ok(request(url, k)), k + 1)
    else if left > 0 then Attempts(url, request, k + 1, left - 1)
    else Outcome(Err(e.value), k + 1)
  }

  /** `if (retries)`: an unset retry count, like zero, allows no retry. */
  function Budget(retries: Option<nat>): nat {
    retries.GetOr(0)
  }

  /** The whole load: no request at all for a rejected protocol. */
  function Fetch(retries: Option<nat>, url: string, request: (string, nat) -> Reply): Outcome {
    match Target(url)
    case Err(e) => Outcome(Err(e), 0)
    case Ok(u) => Attempts(u, request, 0, Budget(retries))
  }

  // ---------------------------------------------------------------------------
  // Properties of the specification
  // ---------------------------------------------------------------------------

  /** A status passes exactly when it is in 200..299. */
  lemma Success2xxSpec(statusCode: int)
    ensures Success2xx(statusCode) <==> 200 <= statusCode < 300
  {
  }

  /** A reply fails exactly when it carries an error or a status outside 2xx. */
  lemma CheckSpec(url: string, reply: Reply)
    ensures Check(url, reply).None? <==>
            reply.err.None? && (reply.response.Some? ==> 200 <= reply.response.value.statusCode < 300)
  {
  }

  /**
   * A load from attempt k sends between one request and `left + 1` more; every request
   * before the last failed, and the outcome is the last reply or its error.
   */
  lemma {:induction false} AttemptsSpec(url: string, request: (string, nat) -> Reply, k: nat, left: nat)
    ensures var o := Attempts(url, request, k, left);
            && k < o.requests <= k + left + 1
            && (forall j :: k <= j < o.requests - 1 ==> Check(url, request(url, j)).Some?)
            && (o.result.Ok? <==> Check(url, request(url, o.requests - 1)).None?)
            && (o.result.Ok? ==> o.result.value == request(url, o.requests - 1))
            && (o.result.Err? ==> o.requests == k + left + 1 && Some(o.result.error) == Check(url, request(url, o.requests - 1)))
    decreases left
  {
    if Check(url, request(url, k)).Some? && left > 0 {
      AttemptsSpec(url, request, k + 1, left - 1);
    }
  }

  /** A URL is rejected exactly when the regex captures a scheme other than http(s). */
  lemma TargetSpec(url: string)
    ensures Target(url).Err? <==> SchemeOf(url).Some? && Lower(SchemeOf(url).value) != "http" && Lower(SchemeOf(url).value) != "https"
    ensures Target(url).Err? ==> Target(url).error == InvalidProtocol(Lower(SchemeOf(url).value))
    ensures Target(url).Ok? ==> Target(url).value == url || Target(url).value == "http://" + url
  {
  }

  /** A URL the regex does not match is requested over http, and the result is matched as `http`. */
  lemma BareHostGetsHttp(url: string)
    requires SchemeOf(url).None?
    ensures Target(url) == Ok("http://" + url)
    ensures SchemeOf(Target(url).value) == Some("http")
  {
    assert "http://" + url == "http" + "://" + url;
    SchemeOfPrefixed("http", url);
  }

  /** Normalising a normalised URL changes nothing. */
  lemma TargetIdempotent(url: string)
    requires Target(url).Ok?
    ensures Target(Target(url).value) == Target(url)
  {
    if SchemeOf(url).None? {
      BareHostGetsHttp(url);
    }
  }

  /** A rejected protocol sends no request and reports the lower-cased protocol. */
  lemma InvalidProtocolSendsNothing(retries: Option<nat>, url: string, request: (string, nat) -> Reply)
    requires Target(url).Err?
    ensures Fetch(retries, url, request).requests == 0
    ensures Fetch(retries, url, request).result == Err(InvalidProtocol(Lower(SchemeOf(url).value)))
  {
  }

  /** An accepted URL sends at least one request and at most one more than the retry count. */
  lemma RequestBound(retries: Option<nat>, url: string, request: (string, nat) -> Reply)
    requires Target(url).Ok?
    ensures 1 <= Fetch(retries, url, request).requests <= Budget(retries) + 1
  {
    AttemptsSpec(Target(url).value, request, 0, Budget(retries));
  }

  /** Up to `retries` failures followed by a good reply end in that reply. */
  lemma {:induction false} RecoversAfterFailures(url: string, request: (string, nat) -> Reply, k: nat, left: nat, m: nat)
    requires k <= m <= k + left
    requires forall j :: k <= j < m ==> Check(url, request(url, j)).Some?
    requires Check(url, request(url, m)).None?
    ensures Attempts(url, request, k, left) == Outcome(Ok(request(url, m)), m + 1)
    decreases left
  {
    if k < m {
      RecoversAfterFailures(url, request, k + 1, left - 1, m);
    }
  }

  /** When every allowed attempt fails, the load reports the last attempt's error. */
  lemma {:induction false} ExhaustsRetries(url: string, request: (string, nat) -> Reply, k: nat, left: nat)
    requires forall j :: k <= j <= k + left ==> Check(url, request(url, j)).Some?
    ensures Attempts(url, request, k, left) == Outcome(Err(Check(url, request(url, k + left)).value), k + left + 1)
    decreases left
  {
    if left > 0 {
      ExhaustsRetries(url, request, k + 1, left - 1);
    }
  }

  /** Without a retry count, one failed request ends the load. */
  lemma NoRetriesOneAttempt(url: string, request: (string, nat) -> Reply)
    requires Target(url).Ok? && Check(Target(url).value, request(Target(url).value, 0)).Some?
    ensures Fetch(None, url, request) == Outcome(Err(Check(Target(url).value, request(Target(url).value, 0)).value), 1)
  {
  }

  /** A reply with neither error nor response counts as a loaded page. */
  lemma EmptyReplySucceeds(url: string, body: string)
    ensures Check(url, Reply(None, None, body)).None?
  {
  }

  // ---------------------------------------------------------------------------
  // The scenarios of the load tests
  // ---------------------------------------------------------------------------

  /** The mock transport that fails its first `failures` requests with `foo`, then replies with nothing. */
  function Flaky(failures: nat): (string, nat) -> Reply {
    (u, k) => if k < failures then Reply(Some("foo"), None, "") else Reply(None, None, "")
  }

  lemma FooComAccepted()
    ensures SchemeOf("http://foo.com") == Some("http") && Target("http://foo.com") == Ok("http://foo.com")
  {
    assert "http://foo.com" == "http" + "://" + "foo.com";
    SchemeOfPrefixed("http", "foo.com");
    assert Lower("http") == "http";
  }

  /**
   * `http//foo.com` is requested as it is: the optional colon of the `url_protocol` regex
   * lets `http//` pass as a scheme (the page built from it has neither protocol nor host).
   */
  lemma HostlessAccepted()
    ensures SchemeOf("http" + "//" + "foo.com") == Some("http")
    ensures Target("http" + "//" + "foo.com") == Ok("http" + "//" + "foo.com")
  {
    var s := "http" + "//" + "foo.com";
    assert s[..4] == "http" && s[4..][..2] == "//";
    assert SchemePrefix(s, "http");
    SchemeSpec(s);
    assert Lower("http") == "http";
  }

  /** A transport that always fails with `foo`, and no retry count: one request, error `foo`. */
  lemma UnloadableReported()
    ensures Fetch(None, "http://foo.com", (u, k) => Reply(Some("foo"), None, "")) == Outcome(Err(Transport("foo")), 1)
    ensures Message(Transport("foo")) == "foo"
  {
    FooComAccepted();
  }

  /** Three failures with three retries still load the page, on the fourth request. */
  lemma ThreeFailuresRecover()
    ensures Fetch(Some(3), "http://foo.com", Flaky(3)) == Outcome(Ok(Reply(None, None, "")), 4)
  {
    FooComAccepted();
    RecoversAfterFailures("http://foo.com", Flaky(3), 0, 3, 3);
  }

  /** Four failures with three retries report the transport's `foo`. */
  lemma FourFailuresFail()
    ensures Fetch(Some(3), "http://foo.com", Flaky(4)).result.Err?
    ensures Message(Fetch(Some(3), "http://foo.com", Flaky(4)).result.error) == "foo"
  {
    FooComAccepted();
    ExhaustsRetries("http://foo.com", Flaky(4), 0, 3);
  }

  /** A refused protocol is reported by its lower-cased name. */
  lemma RefusedMessage(retries: Option<nat>, url: string, request: (string, nat) -> Reply)
    requires Target(url).Err?
    ensures Fetch(retries, url, request).result.Err?
    ensures Message(Fetch(retries, url, request).result.error) == "Invalid protocol: " + Lower(SchemeOf(url).value)
  {
  }

  /** `ftp://foo.com` is refused with `Invalid protocol: ftp`. */
  lemma FtpRefused(request: (string, nat) -> Reply)
    ensures Fetch(None, "ftp://foo.com", request).result.Err?
    ensures Message(Fetch(None, "ftp://foo.com", request).result.error) == "Invalid protocol: ftp"
  {
    assert "ftp://foo.com" == "ftp" + "://" + "foo.com";
    SchemeOfPrefixed("ftp", "foo.com");
    assert Lower("ftp") == "ftp";
    RefusedMessage(None, "ftp://foo.com", request);
  }

  /** A first reply with a status outside 2xx and no retries ends the load with that status. */
  lemma StatusReported(url: string, request: (string, nat) -> Reply, statusCode: int)
    requires Target(url) == Ok(url)
    requires request(url, 0).err.None? && request(url, 0).response.Some? && request(url, 0).response.value.statusCode == statusCode
    requires !Success2xx(statusCode)
    ensures Fetch(None, url, request) == Outcome(Err(Status(url, statusCode)), 1)
  {
  }

  lemma Text404()
    ensures IntToString(404) == "404"
  {
    assert NatToString(4) == "4";
    assert NatToString(40) == "40";
  }

  lemma NotFoundMessage()
    ensures Message(Status("http://foo.com", 404)) == "http://foo.com responded with a 404"
  {
    Text404();
    assert Message(Status("http://foo.com", 404)) == "http://foo.com" + " responded with a " + "404";
  }

  /** A 404 reply reports `http://foo.com responded with a 404`. */
  lemma NotFoundReported(request: (string, nat) -> Reply)
    requires var reply := request("http://foo.com", 0);
             reply.err.None? && reply.response.Some? && reply.response.value.statusCode == 404
    ensures Fetch(None, "http://foo.com", request).result.Err?
    ensures Message(Fetch(None, "http://foo.com", request).result.error) == "http://foo.com responded with a 404"
  {
    FooComAccepted();
    StatusReported("http://foo.com", request, 404);
    NotFoundMessage();
  }

  /** `foo.com` is requested as `http://foo.com`. */
  lemma BareFooCom()
    ensures Target("foo.com") == Ok("http://foo.com")
  {
    assert NoneOf("foo.com", {'/'});
    SchemeNeedsSlash("foo.com");
    assert "http://" + "foo.com" == "http://foo.com";
  }

  /** The transport is asked for the normalised URL: loading `foo.com` requests `http://foo.com`. */
  lemma BareFooComRequested(request: (string, nat) -> Reply)
    requires Check("http://foo.com", request("http://foo.com", 0)).None?
    ensures Fetch(None, "foo.com", request) == Outcome(Ok(request("http://foo.com", 0)), 1)
  {
    BareFooCom();
  }

  // ---------------------------------------------------------------------------
  // The spy
  // ---------------------------------------------------------------------------

  class Spy {
    /** `options.retries`: how many failed requests a load may repeat. */
    const retries: Option<nat>
    /** The injected `request`: its reply to the k-th attempt at a URL (`options.url`). */
    const request: (string, nat) -> Reply
    /** The injected resolver's answers, handed to every page. */
    const dns: Dns

    constructor(retries: Option<nat>, request: (string, nat) -> Reply, dns: Dns)
      ensures this.retries == retries && this.request == request && this.dns == dns
    {
      this.retries := retries;
      this.request := request;
      this.dns := dns;
    }

    /**
     * `load(url, callback)`: the error the callback receives, or the page built from the
     * first good reply; `requests` is how many requests went out.
     */
    method Load(url: string) returns (r: Result<Page, LoadError>, requests: nat)
      ensures var o := Fetch(retries, url, request);
              && requests == o.requests
              && r.Err? == o.result.Err?
              && (r.Err? ==> r.error == o.result.error)
              && (r.Ok? ==> && r.value.url == Target(url).value && r.value.dns == dns && r.value.table == Signatures
                            && r.value.response == o.result.value.response && r.value.body == o.result.value.body
                            && r.value.urlParts == ParseUrl(r.value.url)
                            && r.value.resources == None && r.value.Valid())
    {
      var target := url;
      var scheme := SchemeOf(url);
      if scheme.None? {
        target := "http://" + url;
      } else {
        var protocol := Lower(scheme.value);
        if protocol != "http" && protocol != "https" {
          return Err(InvalidProtocol(protocol)), 0;
        }
      }
      var left := Budget(retries);
      var reply := request(target, 0);
      var err := Check(target, reply);
      requests := 1;
      while err.Some? && left > 0
        invariant Target(url) == Ok(target)
        invariant 1 <= requests && reply == request(target, requests - 1) && err == Check(target, reply)
        invariant Attempts(target, request, requests - 1, left) == Fetch(retries, url, request)
        decreases left
      {
        left := left - 1;
        reply := request(target, requests);
        err := Check(target, reply);
        requests := requests + 1;
      }
      if err.Some? {
        return Err(err.value), requests;
      }
      var page := new Page(dns, target, reply.response, reply.body);
      return Ok(page), requests;
    }
  }
}
