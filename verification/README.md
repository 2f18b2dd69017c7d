# CORS forwarding proxy — a Dafny model

The proxy is a small Flask application. A browser sends it a request whose
path is the absolute URL of a third-party API. The proxy then does five things:

- It checks the target's host against an allow-list.
- It answers a CORS preflight (`OPTIONS`) itself.
- It re-issues every other request upstream with a sanitised set of headers.
- It relays the upstream status, body and non-hop-by-hop headers.
- It adds the five `Access-Control-*` headers to every response it returns, error responses included.

The model covers the handler `proxy`, the CORS finalisation `add_cors_headers`, and the start-up parsing of the two allow-lists. All of it lives in gitops/cors-proxy-server-app/app.py.

Modules, one per concern:

- `Strings` — ASCII lower-casing, prefix tests, cutting a string at a delimiter, and Python's `str.split(',')` with its inverse `','.join`.
- `Http` — header lists with case-insensitive names, in two forms:
  - the response header bag, where `response.headers[k] = v` replaces the first entry of that name in place and drops later ones, or appends;
  - the plain `dict` the forwarded headers are collected into, with exact keys.

  It also holds `NewResponse`: a response as the framework builds it, carrying a `Content-Type` (given, or `text/html; charset=utf-8`).
- `Config` — `ALLOWED_ORIGINS` and `ALLOWED_TARGET_HOSTS`. Each is read from the environment with `*` as the default and split at commas. The `*` entry lifts the restriction, wherever it stands in the list.
- `TargetUrl` — defaulting the scheme to `http://`, and the host name that `urlparse(...).hostname` extracts.
- `Cors` — the allow-origin choice and the five header assignments.
- `Proxy` — three parts:
  - the handler, as two pure functions: `Dispatch(cfg, req, upstream)` picks the branch and builds its response, and `Handle` adds the CORS headers to it, as every `return` in the handler does;
  - the forwarded-header dictionary;
  - the relayed response.

  The upstream HTTP call is the parameter `upstream: Outbound -> UpstreamResult`. Its result is a reply, a failure of the HTTP client (`requests.exceptions.RequestException`), or any other failure. Both return the response together with the request forwarded upstream, if any. "No upstream call" is stated in two ways: nothing is forwarded, and the exchange does not depend on `upstream`.

Points of the handler's behaviour a reader might not expect:

- The handler has no 400 answer for a malformed target URL.
- An unexpected failure echoes the exception text after `Internal Proxy Error: `.
- An `Origin` must be non-empty to be echoed back.
- The forwarded headers are a plain dictionary with exact keys, not a case-insensitive bag.
- An upstream reply with a CR or LF in a header value that would be copied is not relayed: the header bag raises `ValueError` inside the `try`, and the client gets 500 `Internal Proxy Error: ` with that error's text, although the request was sent.

## Model

| member | source | states |
|---|---|---|
| Config.ParseAllowList | gitops/cors-proxy-server-app/app.py:11 | An unset variable gives the list `["*"]`. A set one gives at least one entry; no entry contains a comma; joining the entries with commas gives back the variable's exact text. |
| Config.ParseWrittenList | gitops/cors-proxy-server-app/app.py:16 | Any non-empty list of comma-free entries, written out with commas, parses back to exactly that list. |
| Config.ParseEmptyVariable | gitops/cors-proxy-server-app/app.py:16 | A variable set to the empty string gives one empty entry, not an empty list and not the wildcard. |
| Config.Load | gitops/cors-proxy-server-app/app.py:11-16 | Each list that is unset in the environment lifts its restriction. Each set one has at least one entry, no entry holds a comma, and its entries joined with commas give back the variable's exact text. |
| Strings.JoinSplit | gitops/cors-proxy-server-app/app.py:11 | Joining the pieces of a comma split with commas restores the original string. |
| Strings.SplitJoin | gitops/cors-proxy-server-app/app.py:16 | Splitting a comma-join of comma-free pieces restores the pieces. |
| TargetUrl.Normalize | gitops/cors-proxy-server-app/app.py:57-58 | The result starts with `http://` or `https://`. It equals the target exactly when the target already did; otherwise it is `http://` followed by the target. The target is always a suffix of the result. |
| TargetUrl.NormalizeIdempotent | gitops/cors-proxy-server-app/app.py:57-58 | Defaulting the scheme twice is the same as doing it once. |
| TargetUrl.NormalizeIsCaseSensitive | gitops/cors-proxy-server-app/app.py:57 | The prefix test is case-sensitive: `HTTPS://…` gets a second scheme, `http://HTTPS://…`. |
| TargetUrl.Hostname | gitops/cors-proxy-server-app/app.py:60 | An extracted host name is non-empty and lower-case, and has none of `/ ? # @ :`. |
| TargetUrl.HostnameOfComposedUrl | gitops/cors-proxy-server-app/app.py:60 | For a URL built as scheme, optional `user@`, host, optional `:port`, then a path, query or fragment, the host name is the host, lower-cased. |
| TargetUrl.HostnameOfPlainUrl | gitops/cors-proxy-server-app/app.py:57-60 | For `http://<lower-case host><path>`, scheme defaulting leaves the URL unchanged and the host name is that host. |
| Http.AssignOnlyNew | gitops/cors-proxy-server-app/app.py:111 | After a header-bag assignment, every entry under the assigned name (in any spelling) is the new entry. Earlier entries of that name are gone. |
| Http.AssignHasName | gitops/cors-proxy-server-app/app.py:111 | After an assignment, a name is present exactly when it is the assigned name or was present before. |
| Http.AssignGet | gitops/cors-proxy-server-app/app.py:22-34 | After an assignment, looking up the assigned name (in any spelling) gives the new value. Every other name reads as before. |
| Http.AssignKeepsOthers | gitops/cors-proxy-server-app/app.py:22-34 | An assignment leaves the entries with other names, and their order, as they were. |
| Http.AssignUnique | gitops/cors-proxy-server-app/app.py:111 | An assignment keeps a bag free of repeated names. |
| Http.DictPutGet | gitops/cors-proxy-server-app/app.py:75-79 | After a dictionary put, the key reads the new value and every other exact key reads as before. |
| Http.DictPutDistinct | gitops/cors-proxy-server-app/app.py:75 | A put keeps the keys distinct and only adds that key. |
| Http.NewResponse | gitops/cors-proxy-server-app/app.py:102-104 | A freshly built response has the given status and body. Its only header is `Content-Type`, with the given value, or `text/html; charset=utf-8` when none is given. |
| Http.UniqueIsDistinctNames | gitops/cors-proxy-server-app/app.py:108-111 | The recursive and the quantified statement of "no two entries share a name, ignoring case" are equivalent. |
| Http.AssignAllGet | gitops/cors-proxy-server-app/app.py:108-111 | After a run of assignments, a name reads the last value assigned to it in the run, or what it read before when the run never assigns it. |
| Http.AssignAllKeepsOthers | gitops/cors-proxy-server-app/app.py:22-34 | A run of assignments leaves the entries whose names it never assigns, and their order, as they were. |
| Http.AssignAllUnique | gitops/cors-proxy-server-app/app.py:108-111 | A run of assignments keeps a bag free of repeated names. |
| Cors.AllowOriginValue | gitops/cors-proxy-server-app/app.py:21-28 | The value is `*` exactly when the origins list holds `*`. Otherwise it is `null` or the request's own origin, and then only when that origin is listed. |
| Cors.EchoesOnlyListedOrigins | gitops/cors-proxy-server-app/app.py:23-28 | Under a restricted list, a request's origin is echoed back if and only if it is a non-empty listed origin, or is itself `null`. |
| Cors.MissingOriginIsNull | gitops/cors-proxy-server-app/app.py:21-28 | A missing or empty `Origin` gives `*` under the wildcard and `null` otherwise. |
| Cors.Finalize | gitops/cors-proxy-server-app/app.py:19-35 | The five assignments, in order. Status and body are unchanged, and the five CORS headers carry their values. Every other name reads as before; the entries with other names keep their order. A bag without repeated names stays so. |
| Proxy.CollectForwardedContents | gitops/cors-proxy-server-app/app.py:75 | Excluded names (`host`, `origin`, `connection`, `content-length`, in any case) are dropped. Keys are distinct, and each other exact key holds the last value given under it. |
| Proxy.ForwardHeadersContents | gitops/cors-proxy-server-app/app.py:75-79 | The headers sent upstream have distinct keys and no excluded name. `Content-Type` holds the inbound value whatever its inbound spelling; every other key holds the last inbound value under it. |
| Proxy.ForwardHeadersOfUniqueNames | gitops/cors-proxy-server-app/app.py:75-79 | When no inbound name repeats, the headers sent upstream are the inbound ones in order minus the excluded names. A `Content-Type` spelled otherwise is followed by a copy under the exact spelling. |
| Proxy.CopyHeadersGet | gitops/cors-proxy-server-app/app.py:108-111 | After the copy loop, a non-hop-by-hop name the upstream sent reads the upstream's last value for it. Any other name reads what it did before the loop. |
| Proxy.Relay | gitops/cors-proxy-server-app/app.py:102-111 | A relayed reply has the upstream status, and the upstream content (after the HTTP client has removed any content encoding) as its body. |
| Proxy.RelayHeaders | gitops/cors-proxy-server-app/app.py:102-111 | A relayed reply has no repeated names. A hop-by-hop name reads nothing. Other names read the upstream's last value, and `Content-Type` falls back to the framework default. |
| Proxy.Dispatch | gitops/cors-proxy-server-app/app.py:57-123 | A request is forwarded if and only if its host passes the gate and it is not a preflight. What is forwarded is its method, the scheme-defaulted URL, the sanitised headers and its raw body. |
| Proxy.DispatchUnique | gitops/cors-proxy-server-app/app.py:63-123 | Whichever branch runs, its response has no repeated header names. |
| Proxy.Handle | gitops/cors-proxy-server-app/app.py:39-123 | Every response carries the five CORS headers for the request's `Origin` and has no repeated names. Status, body, every other header and what was forwarded are the branch's own. |
| Proxy.RejectsUnlistedHost | gitops/cors-proxy-server-app/app.py:63-67 | Under a restricted host list, an absent or unlisted host gets 403 with `Unauthorized target host`, whatever the method (OPTIONS included). Its only header is the default content type, and nothing is forwarded. |
| Proxy.PreflightShortCircuits | gitops/cors-proxy-server-app/app.py:70-72 | An admitted OPTIONS request gets 204 with an empty body, only the default content type, and nothing forwarded. |
| Proxy.RelaysUpstreamReply | gitops/cors-proxy-server-app/app.py:92-123 | When the upstream replies to an admitted non-preflight request, the forwarded request is the sanitised one. The response is the relayed reply when every value to be copied is free of CR and LF; otherwise it is 500 with `Internal Proxy Error: ` and the header bag's complaint. |
| Proxy.RelayableContentType | gitops/cors-proxy-server-app/app.py:102-111 | The content type given to the response constructor is one of the copied values, so the newline test on the copied values covers it too. |
| Proxy.FoldedUpstreamValueFails | gitops/cors-proxy-server-app/app.py:104-123 | An obs-folded upstream value such as `a\r\n b` makes the reply a 500 internal error instead of a relayed response. |
| Proxy.MapsUpstreamFailure | gitops/cors-proxy-server-app/app.py:116-123 | A failed upstream call gives 500 with `Proxy Error: ` plus the message for HTTP-client failures, and `Internal Proxy Error: ` plus the message for any other failure. Its only header is the default content type. |
| Proxy.NoUpstreamCallWithoutForward | gitops/cors-proxy-server-app/app.py:63-72 | When nothing is forwarded, any other upstream yields the same exchange: the upstream is never consulted. |
| Proxy.WildcardOriginOnEveryResponse | gitops/cors-proxy-server-app/app.py:21-22 | With `*` among the origins, every response (403, 204, relayed or 500) has `Access-Control-Allow-Origin: *`. |
| Proxy.UpperCaseEntryNeverMatches | gitops/cors-proxy-server-app/app.py:60-64 | A host allow-list entry with an upper-case letter never equals an extracted host name, so it admits nothing. |
| Proxy.EmptyHostListBlocksAll | gitops/cors-proxy-server-app/app.py:16 | With `ALLOWED_TARGET_HOSTS` set to the empty string, every request gets 403 and nothing is forwarded. |
| Proxy.SingleHostForwarded | gitops/cors-proxy-server-app/app.py:57-99 | With one allowed host, a non-preflight request to `http://<host><path>` is forwarded to exactly that URL with its method. |
| Proxy.SingleHostRefusesOthers | gitops/cors-proxy-server-app/app.py:57-67 | With one allowed host other than `*`, a request to any other host gets 403 and nothing is forwarded. |

## Left out

- Routing and the WSGI layer:
  - The route lists six methods, and the router adds `HEAD` because `GET` is listed; any other method is answered by the framework before the handler runs. `Method` has exactly those seven values. A `HEAD` request takes the non-preflight path and is forwarded as `HEAD`; the framework dropping the body when it writes a `HEAD` response out is not modelled.
  - The request's query string is not part of the path the handler receives, so it is never forwarded: the target URL is the path alone.
  - The path converter's decoding and slash merging are not modelled: the target is taken as the string the handler receives.
- The network call itself: it is the `upstream` parameter. TLS verification being switched off (`verify=False`) changes nothing the handler computes.
- Streaming: `Reply.body` is the upstream content after the HTTP client has removed any `Content-Encoding` (gzip or deflate), not the bytes on the wire; that is why `Content-Encoding` is not copied. It is relayed unchanged as one byte sequence. Chunking and the lazy generator are not modelled, and neither is closing connections when a client disconnects.
- Logging (lines 65, 86, 117, 121): it has no effect on the response.
- Reading the environment, the `PORT` variable and `app.run` (lines 125-128): the environment lookups are the `Option<string>` parameters of `Config.Load`.
- Concurrency: each request is an independent pure function of the immutable configuration.
- `Content-Length` headers the framework adds when the body is a string, and other headers added when the response is written out. Their values depend on the UTF-8 encoding of the text, which is not modelled.
- Http.SameName: header names are compared with ASCII-only case folding. The handler, the header bag and the HTTP client's dictionary use Python's Unicode `str.lower()`, so names that differ only in non-ASCII letters (`À` and `à`) are the same name there and different names here.
- Cors.Finalize: an `Origin` holding CR or LF that is also listed among the allowed origins would make the allow-origin assignment raise outside the `try`, giving the framework's own 500 without CORS headers. The model echoes it; the listed entries come from the operator's environment.
- TargetUrl.Hostname: models `urlparse(...).hostname` only for the forms it names. Left out: bracketed IPv6 hosts, the zone-id part after `%`, the stripping of whitespace and control characters, the `ValueError` that `urlparse` can raise at line 60 (outside the `try`, so the framework would answer 500 without CORS headers), and lower-casing beyond ASCII.
- Http.NewResponse: it leaves out what the framework adds when writing the response out. That includes a text body's encoding and its length header.
- Proxy.Relay: models the upstream headers as a list in which a repeated name resolves to its last value. The HTTP client merges repeated header lines before the handler sees them; that merging is not modelled.
- Inbound headers: the WSGI server delivers them title-cased and merged. The model accepts any list, which covers those lists too.
