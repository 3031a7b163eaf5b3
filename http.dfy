/**
 * The registry fetch (`getUrl`): one GET, and on a 401 bearer challenge a token
 * GET on the challenge's realm followed by exactly one authorised retry. The
 * HTTP transport and the JSON reading of the token body are parameters.
 */
module Http {
  import opened Wrappers
  import opened Faults
  import opened Strings

  datatype Request = Get(url: string, authorization: Option<string>)

  datatype Header = Header(name: string, values: seq<string>)

  datatype Reply = Reply(status: nat, headers: seq<Header>, body: string)

  /** What one request gives: an IOException of the transport, or a reply. */
  datatype Exchange = Unreachable(detail: string) | Replied(reply: Reply)

  /**
   * The transport (redirects already followed, body already read) and the
   * JSON reading of a token body as a string-to-string map; None is a body
   * Gson rejects or reads as null.
   */
  datatype Net = Net(send: Request -> Exchange, tokenJson: string -> Option<map<string, string>>)

  /** A result together with the requests sent to obtain it, in order. */
  datatype Traced<T> = Traced(result: T, sent: seq<Request>)

  predicate IsSuccess(status: nat) {
    200 <= status < 300
  }

  /** The values of the first header whose name matches, ignoring ASCII case. */
  function Lookup(headers: seq<Header>, name: string): Option<seq<string>> {
    if headers == [] then None
    else if EqualsIgnoreCase(headers[0].name, name) then Some(headers[0].values)
    else Lookup(headers[1..], name)
  }

  /** Lookup finds a header exactly when one matches, and it is the first one. */
  lemma {:induction false} LookupFirstMatch(headers: seq<Header>, name: string)
    ensures Lookup(headers, name).None? <==> forall k :: 0 <= k < |headers| ==> !EqualsIgnoreCase(headers[k].name, name)
    ensures Lookup(headers, name).Some? ==>
      exists k :: 0 <= k < |headers| && EqualsIgnoreCase(headers[k].name, name) &&
        Lookup(headers, name).value == headers[k].values &&
        forall j :: 0 <= j < k ==> !EqualsIgnoreCase(headers[j].name, name)
  {
    if headers != [] && !EqualsIgnoreCase(headers[0].name, name) {
      LookupFirstMatch(headers[1..], name);
      assert forall k :: 1 <= k < |headers| ==> headers[k] == headers[1..][k - 1];
      if Lookup(headers, name).Some? {
        var k :| 0 <= k < |headers[1..]| && EqualsIgnoreCase(headers[1..][k].name, name) &&
          Lookup(headers, name).value == headers[1..][k].values &&
          forall j :: 0 <= j < k ==> !EqualsIgnoreCase(headers[1..][j].name, name);
        assert forall j :: 0 <= j < k + 1 ==> !EqualsIgnoreCase(headers[j].name, name);
      }
    }
  }

  const AuthenticateHeader := "WWW-Authenticate"

  /** HttpHeaders.getAuthenticate: the first WWW-Authenticate value, if any. */
  function Authenticate(headers: seq<Header>): (r: Option<string>)
    ensures r.Some? <==> Lookup(headers, AuthenticateHeader).Some? && Lookup(headers, AuthenticateHeader).value != []
    ensures r.Some? ==> r.value == Lookup(headers, AuthenticateHeader).value[0]
  {
    match Lookup(headers, AuthenticateHeader)
    case Some(values) => if values != [] then Some(values[0]) else None
    case None => None
  }

  /** The challenge is the first value of the first header named WWW-Authenticate in any case. */
  lemma AuthenticateFirstMatch(headers: seq<Header>, k: nat)
    requires k < |headers| && EqualsIgnoreCase(headers[k].name, AuthenticateHeader)
    requires forall j :: 0 <= j < k ==> !EqualsIgnoreCase(headers[j].name, AuthenticateHeader)
    ensures Authenticate(headers) == if headers[k].values != [] then Some(headers[k].values[0]) else None
  {
    LookupFirstMatch(headers, AuthenticateHeader);
    var i :| 0 <= i < |headers| && EqualsIgnoreCase(headers[i].name, AuthenticateHeader) &&
      Lookup(headers, AuthenticateHeader).value == headers[i].values &&
      forall j :: 0 <= j < i ==> !EqualsIgnoreCase(headers[j].name, AuthenticateHeader);
    assert i == k;
  }

  /** Without a WWW-Authenticate header there is no challenge. */
  lemma AuthenticateAbsent(headers: seq<Header>)
    requires forall k :: 0 <= k < |headers| ==> !EqualsIgnoreCase(headers[k].name, AuthenticateHeader)
    ensures Authenticate(headers).None?
  {
    LookupFirstMatch(headers, AuthenticateHeader);
  }

  // ---------------------------------------------------------------------------
  // The realm of the challenge: the first match of realm="([^"]+)", ignoring case
  // ---------------------------------------------------------------------------

  const RealmKey := "realm=\""

  function QuoteFreeRun(s: string): (n: nat)
    ensures n <= |s| && '"' !in s[..n] && (n == |s| || s[n] == '"')
  {
    if s == [] || s[0] == '"' then 0
    else
      var n := 1 + QuoteFreeRun(s[1..]);
      assert s[..n] == [s[0]] + s[1..][..n - 1];
      n
  }

  /** The pattern tried at position `i` alone. */
  function RealmAt(h: string, i: nat): (r: Option<string>)
    requires i <= |h|
    ensures r.Some? <==> (i + |RealmKey| <= |h| && EqualsIgnoreCase(h[i..i + |RealmKey|], RealmKey) &&
      0 < QuoteFreeRun(h[i + |RealmKey|..]) < |h| - i - |RealmKey|)
    ensures r.Some? ==> var start := i + |RealmKey|;
      |r.value| > 0 && '"' !in r.value && start + |r.value| < |h| &&
      h[start..start + |r.value|] == r.value && h[start + |r.value|] == '"'
  {
    if i + |RealmKey| <= |h| && EqualsIgnoreCase(h[i..i + |RealmKey|], RealmKey) then
      var start := i + |RealmKey|;
      var n := QuoteFreeRun(h[start..]);
      if 0 < n < |h| - start then
        assert h[start..][..n] == h[start..start + n];
        Some(h[start..start + n])
      else None
    else None
  }

  /** Matcher.find from position `i`: the match at the leftmost position that has one. */
  function RealmFrom(h: string, i: nat): (r: Option<string>)
    requires i <= |h|
    ensures r.None? <==> forall k :: i <= k <= |h| ==> RealmAt(h, k).None?
    ensures r.Some? ==>
      exists k :: i <= k <= |h| && RealmAt(h, k) == r &&
        forall j :: i <= j < k ==> RealmAt(h, j).None?
    decreases |h| - i
  {
    if RealmAt(h, i).Some? then RealmAt(h, i)
    else if i == |h| then None
    else RealmFrom(h, i + 1)
  }

  function Realm(h: string): Option<string> {
    RealmFrom(h, 0)
  }

  /** The realm of a typical registry challenge is read back exactly. */
  lemma RealmOfBearerChallenge(u: string, rest: string)
    requires |u| > 0 && '"' !in u
    ensures Realm("Bearer " + RealmKey + u + "\"" + rest) == Some(u)
  {
    var h := "Bearer " + RealmKey + u + "\"" + rest;
    var tail := u + "\"" + rest;
    assert h == "Bearer realm=\"" + tail;
    assert h[14..] == tail;
    QuoteFreeRunOf(u, rest);
    assert tail[..|u|] == u;
    assert h[7..14] == RealmKey;
    assert h[14..14 + |u|] == u;
    assert RealmAt(h, 7) == Some(u);
    NoRealmInScheme(h);
  }

  lemma {:induction false} QuoteFreeRunOf(u: string, rest: string)
    requires '"' !in u
    ensures QuoteFreeRun(u + "\"" + rest) == |u|
  {
    if u != [] {
      assert (u + "\"" + rest)[1..] == u[1..] + "\"" + rest;
      QuoteFreeRunOf(u[1..], rest);
    }
  }

  /** No match can start inside the scheme "Bearer ". */
  lemma NoRealmInScheme(h: string)
    requires |h| >= 14 && h[..14] == "Bearer realm=\""
    ensures forall k :: 0 <= k < 7 ==> RealmAt(h, k).None?
  {
    forall k | 0 <= k < 7
      ensures RealmAt(h, k).None?
    {
      var i := if k == 3 then 2 else if k == 5 then 1 else 0;
      assert h[k + i] == h[..14][k + i];
      assert h[k..k + 7][i] == h[k + i];
      assert LowerAscii(h[k + i]) != LowerAscii(RealmKey[i]);
    }
  }

  // ---------------------------------------------------------------------------
  // getUrl
  // ---------------------------------------------------------------------------

  /** The header value sent on the retry: Java renders a missing token as "null". */
  function TokenOf(tokens: map<string, string>): (t: string)
    ensures "token" in tokens ==> t == tokens["token"]
    ensures "token" !in tokens ==> t == "null"
  {
    if "token" in tokens then tokens["token"] else "null"
  }

  /**
   * getUrl. The first request is sent with throwing on error statuses turned
   * off; the token request and the retry keep the client's default, so an
   * error status on either of them raises HttpResponseException.
   */
  function Fetch(net: Net, url: string): (run: Traced<Result<Reply, Fault>>)
    ensures 1 <= |run.sent| <= 3 && run.sent[0] == Get(url, None)
    ensures run.result.Ok? ==>
      IsSuccess(run.result.value.status) && net.send(run.sent[|run.sent| - 1]) == Replied(run.result.value)
    ensures run.sent[0].authorization.None? && (|run.sent| == 3 ==> run.sent[1].authorization.None?)
    ensures |run.sent| == 3 ==> run.sent[2].url == url && run.sent[2].authorization.Some?
  {
    var first := Get(url, None);
    match net.send(first)
    case Unreachable(detail) => Traced(Err(TransportFault(detail)), [first])
    case Replied(reply) =>
      if IsSuccess(reply.status) then Traced(Ok(reply), [first])
      else if reply.status == 401 && Authenticate(reply.headers).Some? then
        var rest := Challenge(net, url, Authenticate(reply.headers).value);
        var sent := [first] + rest.sent;
        assert |sent| == 3 ==> sent[1] == rest.sent[0] && sent[2] == rest.sent[1];
        assert |sent| == 2 ==> sent[1] == rest.sent[0];
        Traced(rest.result, sent)
      else Traced(Err(StatusFault(reply.status)), [first])
  }

  /**
   * What follows a 401 carrying the challenge `authenticate`: a challenge
   * without a realm fails (Matcher.group on a failed find), otherwise the
   * realm is answered.
   */
  function Challenge(net: Net, url: string, authenticate: string): (run: Traced<Result<Reply, Fault>>)
    ensures |run.sent| <= 2
    ensures run.sent == [] ==> run.result == Err(NoRealm)
    ensures run.sent != [] ==> run.sent[0].authorization.None?
    ensures run.result.Ok? ==>
      |run.sent| == 2 && IsSuccess(run.result.value.status) && net.send(run.sent[1]) == Replied(run.result.value)
    ensures |run.sent| == 2 ==> run.sent[1].url == url && run.sent[1].authorization.Some?
    ensures run.sent == [] <==> Realm(authenticate).None?
    ensures Realm(authenticate).Some? ==> run.sent[0] == Get(Realm(authenticate).value, None)
  {
    match Realm(authenticate)
    case None => Traced(Err(NoRealm), [])
    case Some(tokenUrl) => Answer(net, url, tokenUrl)
  }

  /**
   * The answer to a bearer challenge naming `tokenUrl`: the token GET, then
   * the retry carrying the token.
   */
  function Answer(net: Net, url: string, tokenUrl: string): (run: Traced<Result<Reply, Fault>>)
    ensures 1 <= |run.sent| <= 2 && run.sent[0] == Get(tokenUrl, None)
    ensures run.result.Ok? ==>
      |run.sent| == 2 && IsSuccess(run.result.value.status) && net.send(run.sent[1]) == Replied(run.result.value)
    ensures |run.sent| == 2 ==> run.sent[1].url == url && run.sent[1].authorization.Some?
  {
    var tokenRequest := Get(tokenUrl, None);
    match net.send(tokenRequest)
    case Unreachable(detail) => Traced(Err(TransportFault(detail)), [tokenRequest])
    case Replied(tokenReply) =>
      if !IsSuccess(tokenReply.status) then
        Traced(Err(StatusFault(tokenReply.status)), [tokenRequest])
      else
        match net.tokenJson(tokenReply.body)
        case None => Traced(Err(TokenJsonFault), [tokenRequest])
        case Some(tokens) =>
          var retry := Get(url, Some("Bearer " + TokenOf(tokens)));
          match net.send(retry)
          case Unreachable(detail) => Traced(Err(TransportFault(detail)), [tokenRequest, retry])
          case Replied(retried) =>
            if IsSuccess(retried.status) then Traced(Ok(retried), [tokenRequest, retry])
            else Traced(Err(StatusFault(retried.status)), [tokenRequest, retry])
  }

  /** A 2xx answer to the first request is returned after that one request. */
  lemma FetchFirstSuccess(net: Net, url: string, reply: Reply)
    requires net.send(Get(url, None)) == Replied(reply) && IsSuccess(reply.status)
    ensures Fetch(net, url) == Traced(Ok(reply), [Get(url, None)])
  {
  }

  /** Any other status than 2xx, or a 401 without a challenge, fails after one request. */
  lemma FetchRejectsStatus(net: Net, url: string, reply: Reply)
    requires net.send(Get(url, None)) == Replied(reply) && !IsSuccess(reply.status)
    requires reply.status != 401 || Authenticate(reply.headers).None?
    ensures Fetch(net, url) == Traced(Err(StatusFault(reply.status)), [Get(url, None)])
  {
  }

  /** An unreachable registry is an IOException after the one request. */
  lemma FetchUnreachable(net: Net, url: string, detail: string)
    requires net.send(Get(url, None)) == Unreachable(detail)
    ensures Fetch(net, url) == Traced(Err(TransportFault(detail)), [Get(url, None)])
    ensures Fetch(net, url).result.error.IsIOException()
  {
  }

  /**
   * A failed token request ends the exchange after two requests: an
   * unreachable realm or a non-2xx reply is an IOException, a token body that
   * cannot be read is not.
   */
  lemma FetchTokenFails(net: Net, url: string, challenge: Reply, tokenUrl: string)
    requires net.send(Get(url, None)) == Replied(challenge) && challenge.status == 401
    requires Authenticate(challenge.headers).Some? && Realm(Authenticate(challenge.headers).value) == Some(tokenUrl)
    ensures var two := [Get(url, None), Get(tokenUrl, None)];
      match net.send(Get(tokenUrl, None))
      case Unreachable(d) =>
        Fetch(net, url) == Traced(Err(TransportFault(d)), two) && Fetch(net, url).result.error.IsIOException()
      case Replied(r) =>
        (!IsSuccess(r.status) ==>
          Fetch(net, url) == Traced(Err(StatusFault(r.status)), two) && Fetch(net, url).result.error.IsIOException()) &&
        (IsSuccess(r.status) && net.tokenJson(r.body).None? ==>
          Fetch(net, url) == Traced(Err(TokenJsonFault), two) && !Fetch(net, url).result.error.IsIOException())
  {
  }

  /** A token body without a "token" entry sends the retry with "Bearer null". */
  lemma FetchTokenMissing(net: Net, url: string, challenge: Reply, tokenUrl: string, tokenReply: Reply,
                          tokens: map<string, string>)
    requires net.send(Get(url, None)) == Replied(challenge) && challenge.status == 401
    requires Authenticate(challenge.headers).Some? && Realm(Authenticate(challenge.headers).value) == Some(tokenUrl)
    requires net.send(Get(tokenUrl, None)) == Replied(tokenReply) && IsSuccess(tokenReply.status)
    requires net.tokenJson(tokenReply.body) == Some(tokens) && "token" !in tokens
    ensures Fetch(net, url).sent[2] == Get(url, Some("Bearer null"))
  {
    FetchBearerChallenge(net, url, challenge, tokenUrl, tokenReply, tokens);
    assert TokenOf(tokens) == "null" && "Bearer " + "null" == "Bearer null";
  }

  /**
   * A 401 whose challenge names no realm fails after the one request, with
   * the error of reading a group from a failed match.
   */
  lemma FetchNoRealm(net: Net, url: string, reply: Reply, challenge: string)
    requires net.send(Get(url, None)) == Replied(reply) && reply.status == 401
    requires Authenticate(reply.headers) == Some(challenge) && Realm(challenge).None?
    ensures Fetch(net, url) == Traced(Err(NoRealm), [Get(url, None)])
  {
    assert Challenge(net, url, challenge) == Traced(Err(NoRealm), []);
  }

  /**
   * The bearer challenge: a 401 naming a realm leads to a token GET on the
   * realm and one retry carrying "Bearer <token>", whose answer decides.
   */
  lemma FetchBearerChallenge(net: Net, url: string, challenge: Reply, tokenUrl: string, tokenReply: Reply,
                             tokens: map<string, string>)
    requires net.send(Get(url, None)) == Replied(challenge) && challenge.status == 401
    requires Authenticate(challenge.headers).Some? && Realm(Authenticate(challenge.headers).value) == Some(tokenUrl)
    requires net.send(Get(tokenUrl, None)) == Replied(tokenReply) && IsSuccess(tokenReply.status)
    requires net.tokenJson(tokenReply.body) == Some(tokens)
    ensures var retry := Get(url, Some("Bearer " + TokenOf(tokens)));
      Fetch(net, url).sent == [Get(url, None), Get(tokenUrl, None), retry] &&
      Fetch(net, url).result == match net.send(retry)
        case Unreachable(detail) => Err(TransportFault(detail))
        case Replied(r) => if IsSuccess(r.status) then Ok(r) else Err(StatusFault(r.status))
  {
  }

  /**
   * A challenge `Bearer realm="<u>"...` whose token endpoint answers with
   * token `t` makes the third request the retry carrying "Bearer <t>".
   */
  lemma FetchRealmChallenge(net: Net, url: string, challenge: Reply, u: string, rest: string, tokenReply: Reply, t: string)
    requires |u| > 0 && '"' !in u
    requires net.send(Get(url, None)) == Replied(challenge) && challenge.status == 401
    requires Authenticate(challenge.headers) == Some("Bearer " + RealmKey + u + "\"" + rest)
    requires net.send(Get(u, None)) == Replied(tokenReply) && IsSuccess(tokenReply.status)
    requires net.tokenJson(tokenReply.body) == Some(map["token" := t])
    ensures Fetch(net, url).sent == [Get(url, None), Get(u, None), Get(url, Some("Bearer " + t))]
  {
    RealmOfBearerChallenge(u, rest);
    FetchBearerChallenge(net, url, challenge, u, tokenReply, map["token" := t]);
  }

  /** getUrl as the source writes it, reassigning the request it sends. */
  method GetUrl(net: Net, url: string) returns (outcome: Result<Reply, Fault>, sent: seq<Request>)
    ensures Traced(outcome, sent) == Fetch(net, url)
  {
    var request := Get(url, None);
    sent := [request];
    var response := net.send(request);
    if response.Unreachable? {
      return Err(TransportFault(response.detail)), sent;
    }
    var reply := response.reply;
    if IsSuccess(reply.status) {
      return Ok(reply), sent;
    }
    if reply.status == 401 {
      var authenticate := Authenticate(reply.headers);
      if authenticate.Some? {
        var tokenUrl := Realm(authenticate.value);
        if tokenUrl.None? {
          return Err(NoRealm), sent;
        }
        var more;
        outcome, more := Authorise(net, url, tokenUrl.value);
        sent := sent + more;
        return;
      }
    }
    return Err(StatusFault(reply.status)), sent;
  }

  /** The bearer branch of getUrl: fetch the token, then resend with it. */
  method Authorise(net: Net, url: string, tokenUrl: string) returns (outcome: Result<Reply, Fault>, sent: seq<Request>)
    ensures Traced(outcome, sent) == Answer(net, url, tokenUrl)
  {
    var tokenRequest := Get(tokenUrl, None);
    sent := [tokenRequest];
    var tokenResponse := net.send(tokenRequest);
    if tokenResponse.Unreachable? {
      return Err(TransportFault(tokenResponse.detail)), sent;
    }
    if !IsSuccess(tokenResponse.reply.status) {
      return Err(StatusFault(tokenResponse.reply.status)), sent;
    }
    var tokens := net.tokenJson(tokenResponse.reply.body);
    if tokens.None? {
      return Err(TokenJsonFault), sent;
    }
    var request := Get(url, Some("Bearer " + TokenOf(tokens.value)));
    sent := sent + [request];
    var response := net.send(request);
    if response.Unreachable? {
      return Err(TransportFault(response.detail)), sent;
    }
    if !IsSuccess(response.reply.status) {
      return Err(StatusFault(response.reply.status)), sent;
    }
    return Ok(response.reply), sent;
  }
}
