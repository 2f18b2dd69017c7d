/** The target URL carried in the request path: scheme defaulting
    (gitops/cors-proxy-server-app/app.py, lines 57-58) and the host name the
    allow-list is checked against (line 60, `urlparse(...).hostname`, in a
    simplified form: authority up to the first `/`, `?` or `#`, user info cut
    at the last `@`, port cut at the first `:`, ASCII lower-cased). */
module TargetUrl {
  import opened Strings

  const HttpPrefix := "http://"
  const HttpsPrefix := "https://"

  /** Characters that end the authority part of a URL. */
  const AuthorityEnd: set<char> := {'/', '?', '#'}

  /** Characters that never occur in an extracted host name. */
  const HostDelimiters: set<char> := {'/', '?', '#', '@', ':'}

  /** The prefix test is case-sensitive, as Python's `str.startswith` is. */
  predicate HasHttpScheme(url: string) {
    StartsWith(url, HttpPrefix) || StartsWith(url, HttpsPrefix)
  }

  /** Prepends `http://` unless the target already starts with `http://` or
      `https://`. The target's own text is always kept as the tail. */
  function Normalize(target: string): (url: string)
    ensures HasHttpScheme(url)
    ensures HasHttpScheme(target) <==> url == target
    ensures url == target || url == HttpPrefix + target
    ensures |target| <= |url| && url[|url| - |target|..] == target
  {
    if HasHttpScheme(target) then target else HttpPrefix + target
  }

  /** Normalizing twice is normalizing once. */
  lemma NormalizeIdempotent(target: string)
    ensures Normalize(Normalize(target)) == Normalize(target)
  {
  }

  /** An upper-case scheme is not recognised, so it gets a second scheme in
      front of it. */
  lemma NormalizeIsCaseSensitive(rest: string)
    ensures Normalize("HTTPS://" + rest) == "http://HTTPS://" + rest
  {
    assert !StartsWith("HTTPS://" + rest, HttpPrefix) by {
      assert ("HTTPS://" + rest)[0] == 'H';
    }
    assert !StartsWith("HTTPS://" + rest, HttpsPrefix) by {
      assert ("HTTPS://" + rest)[0] == 'H';
    }
  }

  /** Whatever follows the scheme's `//`. */
  function AfterScheme(url: string): (rest: string)
    requires HasHttpScheme(url)
    ensures url == (if StartsWith(url, HttpsPrefix) then HttpsPrefix else HttpPrefix) + rest
  {
    if StartsWith(url, HttpsPrefix) then url[|HttpsPrefix|..] else url[|HttpPrefix|..]
  }

  /** The authority (user info, host and port) of a URL with an http(s) scheme. */
  function Authority(url: string): (authority: string)
    requires HasHttpScheme(url)
    ensures FreeOf(authority, AuthorityEnd)
  {
    TakeUntil(AfterScheme(url), AuthorityEnd)
  }

  /** The host inside an authority: after the last `@`, before the first `:`. */
  function HostPart(authority: string): (host: string)
    requires FreeOf(authority, AuthorityEnd)
    ensures FreeOf(host, HostDelimiters)
  {
    var hostInfo := AfterLast(authority, '@');
    FreeOfSlice(authority, |authority| - |hostInfo|, |authority|, AuthorityEnd);
    assert FreeOf(hostInfo, AuthorityEnd + {'@'});
    var host := TakeUntil(hostInfo, {':'});
    FreeOfSlice(hostInfo, 0, |host|, AuthorityEnd + {'@'});
    assert HostDelimiters == AuthorityEnd + {'@'} + {':'};
    host
  }

  lemma FreeOfSlice(s: string, lo: int, hi: int, chars: set<char>)
    requires FreeOf(s, chars) && 0 <= lo <= hi <= |s|
    ensures FreeOf(s[lo..hi], chars)
  {
    assert forall i :: 0 <= i < hi - lo ==> s[lo..hi][i] == s[lo + i];
  }

  /** The host name of the URL, lower-cased, or `None` when it is empty. */
  function Hostname(url: string): (host: Option<string>)
    requires HasHttpScheme(url)
    ensures host.Some? ==> host.value != "" && IsLower(host.value)
    ensures host.Some? ==> FreeOf(host.value, HostDelimiters)
  {
    var hostPart := HostPart(Authority(url));
    if hostPart == "" then None
    else
      LowerIsLower(hostPart);
      LowerKeepsDelimiters(hostPart);
      Some(Lower(hostPart))
  }

  /** Lower-casing changes letters only, so no delimiter appears. */
  lemma LowerKeepsDelimiters(s: string)
    requires FreeOf(s, HostDelimiters)
    ensures FreeOf(Lower(s), HostDelimiters)
  {
    forall i | 0 <= i < |s|
      ensures Lower(s)[i] !in HostDelimiters
    {
      assert Lower(s)[i] == LowerChar(s[i]);
    }
  }

  predicate FreeOf(s: string, chars: set<char>) {
    forall i :: 0 <= i < |s| ==> s[i] !in chars
  }

  /** A URL assembled from a scheme, optional user info, a host, an optional
      port and a path, query or fragment yields that host, lower-cased. */
  lemma HostnameOfComposedUrl(scheme: string, userInfo: Option<string>, host: string,
                              port: Option<string>, tail: string)
    requires scheme == HttpPrefix || scheme == HttpsPrefix
    requires userInfo.Some? ==> FreeOf(userInfo.value, AuthorityEnd)
    requires host != "" && FreeOf(host, HostDelimiters)
    requires port.Some? ==> FreeOf(port.value, HostDelimiters)
    requires |tail| == 0 || tail[0] in AuthorityEnd
    ensures HasHttpScheme(scheme + UserInfoPart(userInfo) + host + PortPart(port) + tail)
    ensures Hostname(scheme + UserInfoPart(userInfo) + host + PortPart(port) + tail) == Some(Lower(host))
  {
    var ui, pp := UserInfoPart(userInfo), PortPart(port);
    var authority := ui + host + pp;
    var url := scheme + ui + host + pp + tail;
    assert url == scheme + authority + tail;
    ComposedAuthorityFree(userInfo, host, port);
    AuthorityOfComposed(scheme, authority, tail);
    HostPartOfComposed(authority, ui, host, pp);
  }

  /** The authority of `<scheme><authority><tail>` is that authority, when
      it holds none of the characters that end one and the tail starts with
      one of them. */
  lemma AuthorityOfComposed(scheme: string, authority: string, tail: string)
    requires scheme == HttpPrefix || scheme == HttpsPrefix
    requires FreeOf(authority, AuthorityEnd)
    requires |tail| == 0 || tail[0] in AuthorityEnd
    ensures HasHttpScheme(scheme + authority + tail)
    ensures Authority(scheme + authority + tail) == authority
  {
    assert scheme + authority + tail == scheme + (authority + tail);
    AfterSchemeOfComposed(scheme, authority + tail);
    TakeUntilConcat(authority, tail, AuthorityEnd);
  }

  /** The common case: `http://`, a lower-case host, then a path. */
  lemma HostnameOfPlainUrl(host: string, path: string)
    requires host != "" && FreeOf(host, HostDelimiters) && IsLower(host)
    requires |path| == 0 || path[0] in AuthorityEnd
    ensures HasHttpScheme(HttpPrefix + host + path)
    ensures Normalize(HttpPrefix + host + path) == HttpPrefix + host + path
    ensures Hostname(HttpPrefix + host + path) == Some(host)
  {
    var url := HttpPrefix + host + path;
    assert url == HttpPrefix + (host + path);
    AfterSchemeOfComposed(HttpPrefix, host + path);
    TakeUntilConcat(host, path, AuthorityEnd);
    assert Authority(url) == host;
    HostPartOfComposed(host, "", host, "");
    LowerOfLower(host);
  }

  /** Cutting `<user info ending in @><host><port part>` yields the host. */
  lemma HostPartOfComposed(authority: string, ui: string, host: string, pp: string)
    requires FreeOf(authority, AuthorityEnd)
    requires authority == ui + host + pp
    requires |ui| == 0 || ui[|ui| - 1] == '@'
    requires '@' !in host + pp
    requires FreeOf(host, HostDelimiters)
    requires |pp| == 0 || pp[0] == ':'
    ensures HostPart(authority) == host
  {
    assert authority == ui + (host + pp);
    AfterLastConcat(ui, host + pp, '@');
    TakeUntilConcat(host, pp, {':'});
  }

  lemma AfterSchemeOfComposed(scheme: string, rest: string)
    requires scheme == HttpPrefix || scheme == HttpsPrefix
    ensures HasHttpScheme(scheme + rest)
    ensures AfterScheme(scheme + rest) == rest
  {
    var url := scheme + rest;
    assert url[..|scheme|] == scheme;
    if scheme == HttpPrefix {
      assert url[4] == ':';
      assert !StartsWith(url, HttpsPrefix);
    }
  }

  /** The authority built from the parts has no character that would end it,
      and no `@` after the user info. */
  lemma ComposedAuthorityFree(userInfo: Option<string>, host: string, port: Option<string>)
    requires userInfo.Some? ==> FreeOf(userInfo.value, AuthorityEnd)
    requires FreeOf(host, HostDelimiters)
    requires port.Some? ==> FreeOf(port.value, HostDelimiters)
    ensures FreeOf(UserInfoPart(userInfo) + host + PortPart(port), AuthorityEnd)
    ensures '@' !in host + PortPart(port)
  {
    var ui := UserInfoPart(userInfo);
    var pp := PortPart(port);
    assert FreeOf(ui, AuthorityEnd) by {
      if userInfo.Some? {
        assert forall i :: 0 <= i < |userInfo.value| ==> ui[i] == userInfo.value[i];
      }
    }
    assert FreeOf(pp, HostDelimiters - {':'}) by {
      if port.Some? {
        assert forall i :: 1 <= i < |pp| ==> pp[i] == port.value[i - 1];
      }
    }
    FreeOfConcat(host, pp, HostDelimiters - {':'});
    FreeOfConcat(ui, host + pp, AuthorityEnd);
    assert ui + host + pp == ui + (host + pp);
  }

  lemma FreeOfConcat(a: string, b: string, chars: set<char>)
    requires FreeOf(a, chars) && FreeOf(b, chars)
    ensures FreeOf(a + b, chars)
  {
    assert forall i :: |a| <= i < |a + b| ==> (a + b)[i] == b[i - |a|];
  }

  function UserInfoPart(userInfo: Option<string>): string {
    match userInfo
    case Some(u) => u + "@"
    case None => ""
  }

  function PortPart(port: Option<string>): string {
    match port
    case Some(p) => ":" + p
    case None => ""
  }
}
