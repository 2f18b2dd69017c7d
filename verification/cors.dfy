/** CORS finalisation, `add_cors_headers` in
    gitops/cors-proxy-server-app/app.py (lines 19-35): every response the
    handler returns gets its allow-origin header chosen against the allowed
    origins, plus four fixed headers. */
module Cors {
  import opened Strings
  import opened Http
  import opened Config

  const AllowOriginName := "Access-Control-Allow-Origin"
  const AllowMethodsName := "Access-Control-Allow-Methods"
  const AllowHeadersName := "Access-Control-Allow-Headers"
  const AllowCredentialsName := "Access-Control-Allow-Credentials"
  const MaxAgeName := "Access-Control-Max-Age"

  const AllowedMethods := "GET, POST, PUT, DELETE, OPTIONS, PATCH"
  const AllowedHeaders := "Origin, X-Requested-With, Content-Type, Accept, Authorization"
  const AllowCredentials := "true"
  /** Preflight results may be cached for 24 hours. */
  const MaxAge := "86400"

  /** The allow-origin value for a request whose origin is not granted. */
  const NullOrigin := "null"

  /** The five header names finalisation writes. */
  const CorsNames: seq<string> :=
    [AllowOriginName, AllowMethodsName, AllowHeadersName, AllowCredentialsName, MaxAgeName]

  /** The allow-origin value: the wildcard when the origins list holds it,
      else the request's origin when it is non-empty and listed, else `null`. */
  function AllowOriginValue(allowedOrigins: seq<string>, origin: Option<string>): (v: string)
    ensures v == Wildcard <==> Unrestricted(allowedOrigins)
    ensures v == Wildcard || v == NullOrigin || (origin == Some(v) && v in allowedOrigins)
  {
    if Unrestricted(allowedOrigins) then Wildcard
    else if origin.Some? && origin.value != "" && origin.value in allowedOrigins then origin.value
    else NullOrigin
  }

  /** Under a restricted list the request's own origin is echoed back exactly
      when it is a non-empty listed origin (or is itself the text `null`). */
  lemma EchoesOnlyListedOrigins(allowedOrigins: seq<string>, origin: string)
    requires !Unrestricted(allowedOrigins)
    ensures AllowOriginValue(allowedOrigins, Some(origin)) == origin
        <==> (origin != "" && origin in allowedOrigins) || origin == NullOrigin
  {
  }

  /** A request without an Origin header, or with an empty one, is never
      granted a specific origin. */
  lemma MissingOriginIsNull(allowedOrigins: seq<string>, origin: Option<string>)
    requires origin.None? || origin == Some("")
    ensures AllowOriginValue(allowedOrigins, origin)
         == if Unrestricted(allowedOrigins) then Wildcard else NullOrigin
  {
  }

  /** The header list carries all five CORS headers with their values. */
  predicate HasCors(h: Headers, allowedOrigins: seq<string>, origin: Option<string>) {
    HasCorsValues(h, AllowOriginValue(allowedOrigins, origin))
  }

  /** The five names are pairwise different even ignoring case. */
  lemma CorsNamesDistinct()
    ensures !SameName(AllowOriginName, AllowMethodsName)
    ensures !SameName(AllowOriginName, AllowHeadersName)
    ensures !SameName(AllowOriginName, AllowCredentialsName)
    ensures !SameName(AllowOriginName, MaxAgeName)
    ensures !SameName(AllowMethodsName, AllowHeadersName)
    ensures !SameName(AllowMethodsName, AllowCredentialsName)
    ensures !SameName(AllowMethodsName, MaxAgeName)
    ensures !SameName(AllowHeadersName, AllowCredentialsName)
    ensures !SameName(AllowHeadersName, MaxAgeName)
    ensures !SameName(AllowCredentialsName, MaxAgeName)
  {
    assert |AllowOriginName| == 27 && |AllowMethodsName| == 28 && |AllowHeadersName| == 28;
    assert |AllowCredentialsName| == 32 && |MaxAgeName| == 22;
    assert AllowMethodsName[21] == 'M' && AllowHeadersName[21] == 'H';
    assert LowerChar(AllowMethodsName[21]) != LowerChar(AllowHeadersName[21]);
  }

  /** The five assignments `add_cors_headers` makes, in order. */
  function CorsHeaders(allowOrigin: string): Headers {
    [ Header(AllowOriginName, allowOrigin),
      Header(AllowMethodsName, AllowedMethods),
      Header(AllowHeadersName, AllowedHeaders),
      Header(AllowCredentialsName, AllowCredentials),
      Header(MaxAgeName, MaxAge) ]
  }

  /** Adds the CORS headers to a response, as header-bag assignments in the
      source's order. */
  function Finalize(resp: Response, allowedOrigins: seq<string>, origin: Option<string>): (r: Response)
    ensures r.status == resp.status && r.body == resp.body
    ensures HasCors(r.headers, allowedOrigins, origin)
    ensures forall n :: !IsAnyOf(n, CorsNames) ==> Get(r.headers, n) == Get(resp.headers, n)
    ensures FilterOut(r.headers, CorsNames) == FilterOut(resp.headers, CorsNames)
    ensures Unique(resp.headers) ==> Unique(r.headers)
  {
    var allowOrigin := AllowOriginValue(allowedOrigins, origin);
    FinalizeGet(resp.headers, allowOrigin);
    FinalizeGetOthers(resp.headers, allowOrigin);
    FinalizeKeepsOthers(resp.headers, allowOrigin);
    FinalizeUnique(resp.headers, allowOrigin);
    resp.(headers := AssignAll(resp.headers, CorsHeaders(allowOrigin)))
  }

  /** The five assignments carry the five CORS names, in order, and no two of
      them share a name. */
  lemma CorsHeadersNames(allowOrigin: string)
    ensures |CorsHeaders(allowOrigin)| == |CorsNames|
    ensures forall i :: 0 <= i < |CorsNames| ==> CorsHeaders(allowOrigin)[i].name == CorsNames[i]
    ensures DistinctNames(CorsHeaders(allowOrigin))
  {
    CorsNamesDistinct();
  }

  /** What each CORS name reads after the five assignments. */
  lemma FinalizeGet(h0: Headers, allowOrigin: string)
    ensures HasCorsValues(AssignAll(h0, CorsHeaders(allowOrigin)), allowOrigin)
  {
    var cs := CorsHeaders(allowOrigin);
    CorsHeadersNames(allowOrigin);
    AssignAllReads(h0, cs, 0);
    AssignAllReads(h0, cs, 1);
    AssignAllReads(h0, cs, 2);
    AssignAllReads(h0, cs, 3);
    AssignAllReads(h0, cs, 4);
  }

  /** Every other name reads what it did before the five assignments. */
  lemma FinalizeGetOthers(h0: Headers, allowOrigin: string)
    ensures forall n :: !IsAnyOf(n, CorsNames) ==> Get(AssignAll(h0, CorsHeaders(allowOrigin)), n) == Get(h0, n)
  {
    var cs := CorsHeaders(allowOrigin);
    CorsHeadersNames(allowOrigin);
    forall n | !IsAnyOf(n, CorsNames)
      ensures Get(AssignAll(h0, cs), n) == Get(h0, n)
    {
      AssignAllGet(h0, cs, n);
    }
  }

  /** The five CORS headers read the given allow-origin value and the fixed values. */
  predicate HasCorsValues(h: Headers, allowOrigin: string) {
    && Get(h, AllowOriginName) == Some(allowOrigin)
    && Get(h, AllowMethodsName) == Some(AllowedMethods)
    && Get(h, AllowHeadersName) == Some(AllowedHeaders)
    && Get(h, AllowCredentialsName) == Some(AllowCredentials)
    && Get(h, MaxAgeName) == Some(MaxAge)
  }

  /** Entries with other names survive the five assignments, in order. */
  lemma FinalizeKeepsOthers(h0: Headers, allowOrigin: string)
    ensures FilterOut(AssignAll(h0, CorsHeaders(allowOrigin)), CorsNames) == FilterOut(h0, CorsNames)
  {
    var cs := CorsHeaders(allowOrigin);
    CorsHeadersNames(allowOrigin);
    forall i | 0 <= i < |cs|
      ensures IsAnyOf(cs[i].name, CorsNames)
    {
      assert SameName(cs[i].name, CorsNames[i]);
    }
    AssignAllKeepsOthers(h0, cs, CorsNames);
  }

  lemma FinalizeUnique(h0: Headers, allowOrigin: string)
    ensures Unique(h0) ==> Unique(AssignAll(h0, CorsHeaders(allowOrigin)))
  {
    if Unique(h0) {
      AssignAllUnique(h0, CorsHeaders(allowOrigin));
    }
  }
}
