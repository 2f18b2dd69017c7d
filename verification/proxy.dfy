/** The request handler `proxy` of gitops/cors-proxy-server-app/app.py
    (lines 39-123) as one pure function. The upstream HTTP call is a function
    parameter from the outbound request to its outcome; whether the handler
    made the call is visible as the `forwarded` part of the result. */
module Proxy {
  import opened Strings
  import opened Http
  import opened Config
  import opened TargetUrl
  import opened Cors

  /** The six methods the route lists, and `HEAD`, which the router adds to
      every route that accepts `GET`. */
  datatype Method = GET | HEAD | POST | PUT | DELETE | OPTIONS | PATCH

  /** An inbound request; `target` is the path after the leading `/`. */
  datatype Request = Request(httpMethod: Method, target: string, headers: Headers, body: seq<byte>)

  /** The request re-issued to the target host. */
  datatype Outbound = Outbound(httpMethod: Method, url: string, headers: Headers, body: seq<byte>)

  /** What the upstream call produced: a response, a failure of the HTTP
      client library, or any other failure. */
  datatype UpstreamResult =
    | Reply(status: int, headers: Headers, body: seq<byte>)
    | TransportError(message: string)
    | OtherError(message: string)

  /** The response to the client, and the request sent upstream if one was. */
  datatype Exchange = Exchange(response: Response, forwarded: Option<Outbound>)

  const OriginName := "Origin"

  /** Inbound headers that are not forwarded. */
  const ForwardExcluded := ["host", "origin", "connection", "content-length"]

  /** Upstream response headers that are not relayed. */
  const HopByHop := ["content-encoding", "content-length", "transfer-encoding", "connection"]

  const ForbiddenStatus := 403
  const PreflightStatus := 204
  const ErrorStatus := 500

  const UnauthorizedHostMessage := "Unauthorized target host"
  const TransportErrorPrefix := "Proxy Error: "
  const InternalErrorPrefix := "Internal Proxy Error: "

  // ---------------------------------------------------------------------
  // Host gate

  /** The target host passes when the list holds the wildcard or the host
      itself; an absent host passes only under the wildcard. */
  predicate HostAllowed(allowedTargetHosts: seq<string>, host: Option<string>) {
    Unrestricted(allowedTargetHosts) || (host.Some? && host.value in allowedTargetHosts)
  }

  /** The request's target host passes the gate. */
  predicate Admitted(cfg: Config, req: Request) {
    HostAllowed(cfg.allowedTargetHosts, Hostname(Normalize(req.target)))
  }

  // ---------------------------------------------------------------------
  // Forwarded request headers (lines 75-79)

  /** The value of the last entry named exactly `key`. */
  function ExactLast(h: Headers, key: string): (r: Option<string>)
    ensures r.Some? ==> exists i :: 0 <= i < |h| && h[i].name == key && h[i].value == r.value
  {
    if |h| == 0 then None
    else if h[|h| - 1].name == key then Some(h[|h| - 1].value)
    else
      assert forall i :: 0 <= i < |h| - 1 ==> h[i] == h[..|h| - 1][i];
      ExactLast(h[..|h| - 1], key)
  }

  /** The dict comprehension over the inbound headers, skipping the excluded
      names. */
  function CollectForwarded(inbound: Headers): Headers
    decreases |inbound|
  {
    if |inbound| == 0 then []
    else
      var prior := CollectForwarded(inbound[..|inbound| - 1]);
      var f := inbound[|inbound| - 1];
      if IsAnyOf(f.name, ForwardExcluded) then prior else DictPut(prior, f.name, f.value)
  }

  /** The headers sent upstream: the comprehension, then `Content-Type` put
      again from the inbound request when it has one. */
  function ForwardHeaders(inbound: Headers): Headers {
    var d := CollectForwarded(inbound);
    match Get(inbound, ContentTypeName)
    case Some(ct) => DictPut(d, ContentTypeName, ct)
    case None => d
  }

  lemma ContentTypeNotExcluded()
    ensures !IsAnyOf(ContentTypeName, ForwardExcluded)
    ensures !IsAnyOf(ContentTypeName, HopByHop)
  {
    assert |ContentTypeName| == 12;
    assert |ForwardExcluded[0]| == 4 && |ForwardExcluded[1]| == 6;
    assert |ForwardExcluded[2]| == 10 && |ForwardExcluded[3]| == 14;
    assert |HopByHop[0]| == 16 && |HopByHop[1]| == 14;
    assert |HopByHop[2]| == 17 && |HopByHop[3]| == 10;
  }

  /** What the comprehension holds for each exact key: nothing for excluded
      names, otherwise the last value given under that key. */
  lemma {:induction false} CollectForwardedContents(inbound: Headers, key: string)
    ensures DictGet(CollectForwarded(inbound), key)
         == if IsAnyOf(key, ForwardExcluded) then None else ExactLast(inbound, key)
    ensures DistinctKeys(CollectForwarded(inbound))
    ensures forall i :: 0 <= i < |CollectForwarded(inbound)| ==>
              !IsAnyOf(CollectForwarded(inbound)[i].name, ForwardExcluded)
    decreases |inbound|
  {
    if |inbound| > 0 {
      var init := inbound[..|inbound| - 1];
      var f := inbound[|inbound| - 1];
      var prior := CollectForwarded(init);
      CollectForwardedContents(init, key);
      if !IsAnyOf(f.name, ForwardExcluded) {
        DictPutGet(prior, f.name, f.value, key);
        DictPutDistinct(prior, f.name, f.value);
        var d := DictPut(prior, f.name, f.value);
        forall i | 0 <= i < |d|
          ensures !IsAnyOf(d[i].name, ForwardExcluded)
        {
          if d[i].name != f.name {
            var j :| 0 <= j < |prior| && prior[j] == d[i];
          }
        }
      }
    }
  }

  /** The forwarded headers never carry an excluded name, hold each exact key
      once, carry the inbound `Content-Type` value, and give every other kept
      key the last value the inbound headers gave it. */
  lemma ForwardHeadersContents(inbound: Headers)
    ensures DistinctKeys(ForwardHeaders(inbound))
    ensures forall i :: 0 <= i < |ForwardHeaders(inbound)| ==>
              !IsAnyOf(ForwardHeaders(inbound)[i].name, ForwardExcluded)
    ensures DictGet(ForwardHeaders(inbound), ContentTypeName) == Get(inbound, ContentTypeName)
    ensures forall key :: key != ContentTypeName ==>
              DictGet(ForwardHeaders(inbound), key)
              == if IsAnyOf(key, ForwardExcluded) then None else ExactLast(inbound, key)
  {
    var d := CollectForwarded(inbound);
    ContentTypeNotExcluded();
    CollectForwardedContents(inbound, ContentTypeName);
    forall key | key != ContentTypeName
      ensures DictGet(ForwardHeaders(inbound), key)
              == if IsAnyOf(key, ForwardExcluded) then None else ExactLast(inbound, key)
    {
      CollectForwardedContents(inbound, key);
      if Get(inbound, ContentTypeName).Some? {
        DictPutGet(d, ContentTypeName, Get(inbound, ContentTypeName).value, key);
      }
    }
    match Get(inbound, ContentTypeName)
    case Some(ct) =>
      DictPutGet(d, ContentTypeName, ct, ContentTypeName);
      DictPutDistinct(d, ContentTypeName, ct);
      var fwd := DictPut(d, ContentTypeName, ct);
      forall i | 0 <= i < |fwd|
        ensures !IsAnyOf(fwd[i].name, ForwardExcluded)
      {
        if fwd[i].name != ContentTypeName {
          var j :| 0 <= j < |d| && d[j] == fwd[i];
        }
      }
    case None =>
  }

  /** The `Content-Type` entry that the explicit put adds at the end: present
      when the inbound request has a content type under a spelling other than
      exactly `Content-Type`. */
  function RespelledContentType(inbound: Headers): Headers {
    match Get(inbound, ContentTypeName)
    case Some(ct) => if DictGet(inbound, ContentTypeName).Some? then [] else [Header(ContentTypeName, ct)]
    case None => []
  }

  /** With no name repeated in the inbound request, the comprehension keeps
      the inbound entries in order minus the excluded names. */
  lemma {:induction false} CollectForwardedOfUniqueNames(inbound: Headers)
    requires Unique(inbound)
    ensures CollectForwarded(inbound) == FilterOut(inbound, ForwardExcluded)
    decreases |inbound|
  {
    if |inbound| > 0 {
      var init := inbound[..|inbound| - 1];
      var f := inbound[|inbound| - 1];
      assert init + [f] == inbound;
      UniqueSnoc(inbound);
      CollectForwardedOfUniqueNames(init);
      FilterOutSnoc(init, f, ForwardExcluded);
      if !IsAnyOf(f.name, ForwardExcluded) {
        FilterOutHasName(init, ForwardExcluded, f.name);
        var d := FilterOut(init, ForwardExcluded);
        DictPutAbsent(d, f.name, f.value);
      }
    }
  }

  /** With no name repeated in the inbound request, the forwarded headers are
      the inbound ones in order minus the excluded names, followed by a
      re-spelled `Content-Type` when the inbound one was spelled otherwise. */
  lemma ForwardHeadersOfUniqueNames(inbound: Headers)
    requires Unique(inbound)
    ensures ForwardHeaders(inbound) == FilterOut(inbound, ForwardExcluded) + RespelledContentType(inbound)
  {
    CollectForwardedOfUniqueNames(inbound);
    ContentTypeNotExcluded();
    var d := FilterOut(inbound, ForwardExcluded);
    DictGetFilterOut(inbound, ForwardExcluded, ContentTypeName);
    match Get(inbound, ContentTypeName)
    case Some(ct) =>
      if DictGet(inbound, ContentTypeName).Some? {
        UniqueDictGet(inbound, ContentTypeName);
        DictPutSame(d, ContentTypeName, ct);
      } else {
        DictPutAbsent(d, ContentTypeName, ct);
      }
    case None =>
  }

  // ---------------------------------------------------------------------
  // Relayed response (lines 102-111)

  /** The copy loop over the upstream headers: each one not hop-by-hop is
      assigned into the response's header bag, in order. */
  function CopyHeaders(dst: Headers, src: Headers): Headers {
    AssignAll(dst, FilterOut(src, HopByHop))
  }

  /** After the copy loop a name reads the last value the upstream gave it,
      unless it is hop-by-hop or the upstream never gave it. */
  lemma CopyHeadersGet(dst: Headers, src: Headers, n: string)
    ensures Get(CopyHeaders(dst, src), n)
         == if !IsAnyOf(n, HopByHop) && HasName(src, n) then GetLast(src, n) else Get(dst, n)
  {
    AssignAllGet(dst, FilterOut(src, HopByHop), n);
    FilterOutHasName(src, HopByHop, n);
    FilterOutGetLast(src, HopByHop, n);
  }

  lemma CopyHeadersUnique(dst: Headers, src: Headers)
    requires Unique(dst)
    ensures Unique(CopyHeaders(dst, src))
  {
    AssignAllUnique(dst, FilterOut(src, HopByHop));
  }

  /** What a header name reads in a relayed response: nothing for the
      hop-by-hop names, else the upstream's last value for it, else the
      default content type for `Content-Type`. */
  function RelayedValue(upstreamHeaders: Headers, n: string): Option<string> {
    if IsAnyOf(n, HopByHop) then None
    else if HasName(upstreamHeaders, n) then GetLast(upstreamHeaders, n)
    else if SameName(n, ContentTypeName) then Some(DefaultMimetype)
    else None
  }

  /** The response built from an upstream reply: its status and its content
      type, then the copy loop, and its bytes as the body. */
  function Relay(status: int, headers: Headers, body: seq<byte>): (r: Response)
    ensures r.status == status && r.body == Bytes(body)
  {
    var built := NewResponse(status, GetLast(headers, ContentTypeName), Bytes(body));
    built.(headers := CopyHeaders(built.headers, headers))
  }

  /** The relayed response's headers: each name reads what `RelayedValue`
      says, and no name is repeated. */
  lemma RelayHeaders(status: int, headers: Headers, body: seq<byte>)
    ensures forall n :: Get(Relay(status, headers, body).headers, n) == RelayedValue(headers, n)
    ensures Unique(Relay(status, headers, body).headers)
  {
    var built := NewResponse(status, GetLast(headers, ContentTypeName), Bytes(body));
    RelayHeadersGet(built.headers, headers);
    CopyHeadersUnique(built.headers, headers);
  }

  lemma RelayHeadersGet(base: Headers, headers: Headers)
    requires forall n :: !SameName(n, ContentTypeName) ==> Get(base, n).None?
    requires Get(base, ContentTypeName).Some?
    requires !HasName(headers, ContentTypeName) ==> Get(base, ContentTypeName) == Some(DefaultMimetype)
    ensures forall n :: Get(CopyHeaders(base, headers), n) == RelayedValue(headers, n)
  {
    ContentTypeNotExcluded();
    forall n
      ensures Get(CopyHeaders(base, headers), n) == RelayedValue(headers, n)
    {
      CopyHeadersGet(base, headers, n);
      if SameName(n, ContentTypeName) {
        AnyOfRespectsSameName(ContentTypeName, n, HopByHop);
        HasNameRespectsSameName(headers, n, ContentTypeName);
        GetRespectsSameName(base, n, ContentTypeName);
      }
    }
  }

  /** The header bag refuses a value holding CR or LF. */
  predicate NewlineFree(v: string) {
    '\r' !in v && '\n' !in v
  }

  /** The text of the `ValueError` the header bag raises for such a value. */
  const NewlineValueMessage := "Header values must not contain newline characters."

  /** Every value the relay would assign, the content type and each copied
      header, is one the header bag accepts. */
  predicate Relayable(headers: Headers) {
    forall i :: 0 <= i < |headers| && !IsAnyOf(headers[i].name, HopByHop) ==> NewlineFree(headers[i].value)
  }

  /** The content type handed to the response constructor is one of the
      copied values, so it is covered by `Relayable` too. */
  lemma RelayableContentType(headers: Headers)
    requires Relayable(headers)
    ensures GetLast(headers, ContentTypeName).Some? ==> NewlineFree(GetLast(headers, ContentTypeName).value)
  {
    if GetLast(headers, ContentTypeName).Some? {
      var i :| 0 <= i < |headers| && SameName(headers[i].name, ContentTypeName)
                && headers[i].value == GetLast(headers, ContentTypeName).value;
      ContentTypeNotExcluded();
      AnyOfRespectsSameName(ContentTypeName, headers[i].name, HopByHop);
    }
  }

  /** The response for an upstream reply: the relayed one, unless some value
      it would assign holds CR or LF; then the `ValueError` is caught by the
      generic handler and the answer is the internal-error one. */
  function ReplyResponse(status: int, headers: Headers, body: seq<byte>): Response {
    if Relayable(headers) then Relay(status, headers, body)
    else FailureResponse(OtherError(NewlineValueMessage))
  }

  lemma ReplyResponseUnique(status: int, headers: Headers, body: seq<byte>)
    ensures Unique(ReplyResponse(status, headers, body).headers)
  {
    RelayHeaders(status, headers, body);
  }

  // ---------------------------------------------------------------------
  // The handler

  /** The error response for a failed upstream call. */
  function FailureResponse(outcome: UpstreamResult): (r: Response)
    requires !outcome.Reply?
  {
    match outcome
    case TransportError(message) => NewResponse(ErrorStatus, None, Text(TransportErrorPrefix + message))
    case OtherError(message) => NewResponse(ErrorStatus, None, Text(InternalErrorPrefix + message))
  }

  /** The request re-issued upstream: same method, the scheme-defaulted URL,
      the sanitised headers and the raw body. */
  function Forwarded(req: Request): Outbound {
    Outbound(req.httpMethod, Normalize(req.target), ForwardHeaders(req.headers), req.body)
  }

  /** The branches of the handler: the response each one builds before CORS
      finalisation, and the request it sent upstream, if any. */
  function Dispatch(cfg: Config, req: Request, upstream: Outbound -> UpstreamResult): (x: Exchange)
    ensures x.forwarded.Some? <==> Admitted(cfg, req) && req.httpMethod != OPTIONS
    ensures x.forwarded.Some? ==> x.forwarded == Some(Forwarded(req))
  {
    if !HostAllowed(cfg.allowedTargetHosts, Hostname(Normalize(req.target))) then
      Exchange(NewResponse(ForbiddenStatus, None, Text(UnauthorizedHostMessage)), None)
    else if req.httpMethod == OPTIONS then
      Exchange(NewResponse(PreflightStatus, None, Empty), None)
    else
      var out := Forwarded(req);
      var outcome := upstream(out);
      var resp := match outcome
        case Reply(status, headers, body) => ReplyResponse(status, headers, body)
        case TransportError(_) => FailureResponse(outcome)
        case OtherError(_) => FailureResponse(outcome);
      Exchange(resp, Some(out))
  }

  /** Every branch's response is free of repeated header names. */
  lemma DispatchUnique(cfg: Config, req: Request, upstream: Outbound -> UpstreamResult)
    ensures Unique(Dispatch(cfg, req, upstream).response.headers)
  {
    var response := Dispatch(cfg, req, upstream).response;
    if !Admitted(cfg, req) {
      assert response == NewResponse(ForbiddenStatus, None, Text(UnauthorizedHostMessage));
    } else if req.httpMethod == OPTIONS {
      assert response == NewResponse(PreflightStatus, None, Empty);
    } else {
      var outcome := upstream(Forwarded(req));
      if outcome.Reply? {
        ReplyResponseUnique(outcome.status, outcome.headers, outcome.body);
        assert response == ReplyResponse(outcome.status, outcome.headers, outcome.body);
      } else {
        assert response == FailureResponse(outcome);
      }
    }
  }

  /** One request: whichever response its branch builds, with the CORS
      headers added. Only the five CORS headers change; status, body, the
      other headers and what was sent upstream are the branch's. */
  function Handle(cfg: Config, req: Request, upstream: Outbound -> UpstreamResult): (x: Exchange)
    ensures HasCors(x.response.headers, cfg.allowedOrigins, Get(req.headers, OriginName))
    ensures x.response.status == Dispatch(cfg, req, upstream).response.status
    ensures x.response.body == Dispatch(cfg, req, upstream).response.body
    ensures forall n :: !IsAnyOf(n, CorsNames) ==>
              Get(x.response.headers, n) == Get(Dispatch(cfg, req, upstream).response.headers, n)
    ensures Unique(x.response.headers)
    ensures x.forwarded == Dispatch(cfg, req, upstream).forwarded
  {
    var d := Dispatch(cfg, req, upstream);
    DispatchUnique(cfg, req, upstream);
    Exchange(Finalize(d.response, cfg.allowedOrigins, Get(req.headers, OriginName)), d.forwarded)
  }

  // ---------------------------------------------------------------------
  // Properties of the handler, one branch at a time

  /** Under a restricted host list, a target whose host is absent or not
      listed gets 403 with the fixed message, whatever the method (OPTIONS
      included), and nothing is sent upstream. */
  lemma RejectsUnlistedHost(cfg: Config, req: Request, upstream: Outbound -> UpstreamResult)
    requires !Unrestricted(cfg.allowedTargetHosts)
    requires Hostname(Normalize(req.target)).None?
          || Hostname(Normalize(req.target)).value !in cfg.allowedTargetHosts
    ensures Dispatch(cfg, req, upstream)
         == Exchange(NewResponse(ForbiddenStatus, None, Text(UnauthorizedHostMessage)), None)
  {
  }

  /** A preflight request to an admitted host gets 204 with no body, and
      nothing is sent upstream. */
  lemma PreflightShortCircuits(cfg: Config, req: Request, upstream: Outbound -> UpstreamResult)
    requires Admitted(cfg, req) && req.httpMethod == OPTIONS
    ensures Dispatch(cfg, req, upstream) == Exchange(NewResponse(PreflightStatus, None, Empty), None)
  {
  }

  /** An upstream reply to an admitted request is relayed, unless one of the
      values to be copied holds CR or LF: then the request was still sent,
      but the answer is 500 with the header bag's complaint. */
  lemma RelaysUpstreamReply(cfg: Config, req: Request, upstream: Outbound -> UpstreamResult,
                            status: int, headers: Headers, body: seq<byte>)
    requires Admitted(cfg, req) && req.httpMethod != OPTIONS
    requires upstream(Forwarded(req)) == Reply(status, headers, body)
    ensures Dispatch(cfg, req, upstream).forwarded == Some(Forwarded(req))
    ensures Relayable(headers) ==> Dispatch(cfg, req, upstream).response == Relay(status, headers, body)
    ensures !Relayable(headers) ==> (Dispatch(cfg, req, upstream).response
         == NewResponse(ErrorStatus, None, Text(InternalErrorPrefix + NewlineValueMessage)))
  {
  }

  /** An obs-folded upstream value, kept by the HTTP client as `a\r\n b`,
      turns the relayed reply into a 500. */
  lemma FoldedUpstreamValueFails(status: int, body: seq<byte>)
    ensures ReplyResponse(status, [Header("X-A", "a\r\n b")], body)
         == NewResponse(ErrorStatus, None, Text(InternalErrorPrefix + NewlineValueMessage))
  {
    var headers := [Header("X-A", "a\r\n b")];
    assert headers[0].value[1] == '\r';
    assert !IsAnyOf("X-A", HopByHop) by {
      forall j | 0 <= j < |HopByHop| ensures !SameName("X-A", HopByHop[j]) {
        assert |HopByHop[j]| != 3;
      }
    }
  }

  /** A failed upstream call gives 500 with a body naming the failure: the
      HTTP client's failures as a proxy error, anything else as an internal
      proxy error. */
  lemma MapsUpstreamFailure(cfg: Config, req: Request, upstream: Outbound -> UpstreamResult)
    requires Admitted(cfg, req) && req.httpMethod != OPTIONS
    requires !upstream(Forwarded(req)).Reply?
    ensures Dispatch(cfg, req, upstream).response
         == NewResponse(ErrorStatus, None,
              match upstream(Forwarded(req))
              case TransportError(m) => Text(TransportErrorPrefix + m)
              case OtherError(m) => Text(InternalErrorPrefix + m))
    ensures Dispatch(cfg, req, upstream).forwarded == Some(Forwarded(req))
  {
  }

  /** When nothing is forwarded the upstream plays no part: any other
      upstream gives the same branch result, and so the same response. */
  lemma NoUpstreamCallWithoutForward(cfg: Config, req: Request,
                                     upstream: Outbound -> UpstreamResult,
                                     other: Outbound -> UpstreamResult)
    requires !Admitted(cfg, req) || req.httpMethod == OPTIONS
    ensures Dispatch(cfg, req, other) == Dispatch(cfg, req, upstream)
  {
  }

  /** With the origins list unrestricted, every response, errors and
      rejections included, allows any origin. */
  lemma WildcardOriginOnEveryResponse(cfg: Config, req: Request, upstream: Outbound -> UpstreamResult)
    requires Unrestricted(cfg.allowedOrigins)
    ensures Get(Handle(cfg, req, upstream).response.headers, AllowOriginName) == Some(Wildcard)
  {
  }

  /** An allow-list entry spelled with an upper-case letter never admits a
      target: extracted host names are lower-case. */
  lemma UpperCaseEntryNeverMatches(entry: string, url: string)
    requires HasHttpScheme(url)
    requires exists k :: 0 <= k < |entry| && IsUpper(entry[k])
    ensures Hostname(url) != Some(entry)
  {
  }

  /** A target-hosts variable set to the empty string blocks every request. */
  lemma EmptyHostListBlocksAll(originsEnv: Option<string>, req: Request, upstream: Outbound -> UpstreamResult)
    ensures Dispatch(Load(originsEnv, Some("")), req, upstream)
         == Exchange(NewResponse(ForbiddenStatus, None, Text(UnauthorizedHostMessage)), None)
  {
    var cfg := Load(originsEnv, Some(""));
    ParseEmptyVariable();
    assert cfg.allowedTargetHosts == [""];
    assert !Unrestricted(cfg.allowedTargetHosts);
    RejectsUnlistedHost(cfg, req, upstream);
  }

  // ---------------------------------------------------------------------
  // A single allowed host

  /** With one allowed host, a request to `http://<host><path>` is forwarded
      (unless it is a preflight) to exactly that URL with its method kept. */
  lemma SingleHostForwarded(origins: seq<string>, host: string, path: string, req: Request,
                            upstream: Outbound -> UpstreamResult)
    requires host != "" && FreeOf(host, HostDelimiters) && IsLower(host)
    requires |path| == 0 || path[0] in AuthorityEnd
    requires req.target == HttpPrefix + host + path && req.httpMethod != OPTIONS
    ensures Dispatch(Config(origins, [host]), req, upstream).forwarded
         == Some(Outbound(req.httpMethod, HttpPrefix + host + path, ForwardHeaders(req.headers), req.body))
  {
    HostnameOfPlainUrl(host, path);
    assert Admitted(Config(origins, [host]), req);
  }

  /** With one allowed host other than the wildcard, a request to any other
      lower-case host is refused with 403 and nothing is forwarded. */
  lemma SingleHostRefusesOthers(origins: seq<string>, host: string, other: string, path: string,
                                req: Request, upstream: Outbound -> UpstreamResult)
    requires host != Wildcard && other != host
    requires other != "" && FreeOf(other, HostDelimiters) && IsLower(other)
    requires |path| == 0 || path[0] in AuthorityEnd
    requires req.target == HttpPrefix + other + path
    ensures Dispatch(Config(origins, [host]), req, upstream)
         == Exchange(NewResponse(ForbiddenStatus, None, Text(UnauthorizedHostMessage)), None)
  {
    var cfg := Config(origins, [host]);
    HostnameOfPlainUrl(other, path);
    assert Hostname(Normalize(req.target)).value !in cfg.allowedTargetHosts;
    RejectsUnlistedHost(cfg, req, upstream);
  }
}
