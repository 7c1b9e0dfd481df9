/**
 * normalizeUrl and the pure half of host(): the candidate base URLs to
 * probe and the choice of the first one that answers 200 or 403.
 * parse_url is not re-implemented: a URL arrives together with the parts
 * parse_url would report for it.
 */
module Urls {
  import opened Wrappers
  import opened Strings
  import opened Values

  /** The parts of parse_url's result that normalizeUrl reads. */
  datatype UrlParts = UrlParts(scheme: Option<string>, host: Option<string>, port: Option<nat>, path: Option<string>)

  /** The port that is implied by the scheme. */
  predicate IsDefaultPort(scheme: string, port: Option<nat>) {
    (scheme == "https" && (port == Some(443) || port == None)) ||
    (scheme == "http" && (port == Some(80) || port == None))
  }

  /**
   * normalizeUrl($url), where parsed is parse_url($url) (None when parse_url
   * fails). A port of 0 is falsy and is dropped like a default port.
   */
  function NormalizeUrl(url: string, parsed: Option<UrlParts>): (r: string)
    ensures parsed.None? || parsed.value.scheme.None? || parsed.value.host.None? ==> r == url
  {
    match parsed
    case None => url
    case Some(p) =>
      if p.scheme.None? || p.host.None? then url
      else
        var scheme, host := p.scheme.value, p.host.value;
        var path := if p.path.Some? then p.path.value else "";
        if !IsDefaultPort(scheme, p.port) && p.port.Some? && p.port.value != 0 then
          scheme + "://" + host + ":" + NatToString(p.port.value) + path
        else
          scheme + "://" + host + path
  }

  /** https://h:443p and http://h:80p lose their port. */
  lemma DefaultPortDropped(url: string, scheme: string, host: string, path: string)
    requires scheme == "https" || scheme == "http"
    ensures var port := if scheme == "https" then 443 else 80;
            NormalizeUrl(url, Some(UrlParts(Some(scheme), Some(host), Some(port), Some(path)))) ==
            scheme + "://" + host + path
  {
  }

  /** Any other non-zero port is kept, as decimal digits. */
  lemma OtherPortKept(url: string, scheme: string, host: string, port: nat, path: string)
    requires port != 0 && !IsDefaultPort(scheme, Some(port))
    ensures NormalizeUrl(url, Some(UrlParts(Some(scheme), Some(host), Some(port), Some(path)))) ==
            scheme + "://" + host + ":" + NatToString(port) + path
  {
  }

  /**
   * Canonical form: a URL that spells out its scheme's default port and
   * the same URL without a port normalise to the same string.
   */
  lemma ExplicitDefaultPortIsCanonical(u1: string, u2: string, p: UrlParts)
    requires p.scheme.Some? && p.host.Some?
    requires p.scheme.value == "https" || p.scheme.value == "http"
    ensures var port := if p.scheme.value == "https" then 443 else 80;
            NormalizeUrl(u1, Some(p.(port := Some(port)))) == NormalizeUrl(u2, Some(p.(port := None)))
  {
  }

  /** The DDEV variables host() reads; "" or 0 stand for unset or falsy. */
  datatype Env = Env(ddevProject: string, httpPort: nat, httpsPort: nat)

  /** The host offered when none is configured. */
  function DefaultHost(env: Env): (r: string)
    ensures TruthyString(env.ddevProject) ==> r == env.ddevProject + ".ddev.site"
    ensures !TruthyString(env.ddevProject) ==> r == "example.com"
  {
    if TruthyString(env.ddevProject) then env.ddevProject + ".ddev.site" else "example.com"
  }

  predicate IsDigits(s: string) {
    |s| >= 1 && forall i :: 0 <= i < |s| ==> '0' <= s[i] <= '9'
  }

  /** The host name and the port parse_url finds in a host string such as "site.test:8443". */
  datatype HostSpec = HostSpec(name: string, port: Option<nat>)

  /** The position of the last colon before k. */
  function LastColon(h: string, k: nat): (r: Option<nat>)
    requires k <= |h|
    ensures r.Some? ==> r.value < k && h[r.value] == ':' && forall i :: r.value < i < k ==> h[i] != ':'
    ensures r.None? ==> forall i :: 0 <= i < k ==> h[i] != ':'
    decreases k
  {
    if k == 0 then None else if h[k - 1] == ':' then Some(k - 1) else LastColon(h, k - 1)
  }

  /** Splits off the digits after the last colon as the port; otherwise the host has none. */
  function SplitHostPort(h: string): (r: HostSpec)
    ensures r.port.None? ==> r.name == h
    ensures r.port.Some? ==> exists k :: 0 <= k < |h| && h[k] == ':' && r.name == h[..k] &&
                                         IsDigits(h[k + 1..]) && r.port.value == DigitsValue(h[k + 1..])
  {
    match LastColon(h, |h|)
    case None => HostSpec(h, None)
    case Some(c) => if IsDigits(h[c + 1..]) then HostSpec(h[..c], Some(DigitsValue(h[c + 1..]))) else HostSpec(h, None)
  }

  /** No port is missed: a colon followed by nothing but digits is the last one, and its digits are the port. */
  lemma SplitHostPortFindsPort(h: string, k: nat)
    requires k < |h| && h[k] == ':' && IsDigits(h[k + 1..])
    ensures SplitHostPort(h) == HostSpec(h[..k], Some(DigitsValue(h[k + 1..])))
  {
    assert forall i :: k < i < |h| ==> h[i] == h[k + 1..][i - k - 1];
    assert LastColon(h, |h|) == Some(k);
  }

  /** normalizeUrl applied to "scheme://name[:port]". */
  function Candidate(scheme: string, name: string, port: Option<nat>): string {
    var raw := scheme + "://" + name + (if port.Some? then ":" + NatToString(port.value) else "");
    NormalizeUrl(raw, Some(UrlParts(Some(scheme), Some(name), port, None)))
  }

  /** A candidate reads scheme://name, followed by :port unless the port is absent, 0 or the scheme's default. */
  lemma CandidateText(scheme: string, name: string, port: Option<nat>)
    ensures var shown := port.Some? && port.value != 0 && !IsDefaultPort(scheme, port);
            Candidate(scheme, name, port) == scheme + "://" + name + (if shown then ":" + NatToString(port.value) else "")
  {
  }

  /**
   * $urlsToCheck: without a port in the host, https on the DDEV https port
   * and http on the DDEV http port, each only when that variable is set;
   * with a port in the host, https then http on that port.
   */
  function CandidateUrls(host: string, env: Env): (r: seq<string>)
    ensures var spec := SplitHostPort(host);
            spec.port.Some? ==> |r| == 2 && r[0] == Candidate("https", spec.name, spec.port) &&
                                r[1] == Candidate("http", spec.name, spec.port)
    ensures SplitHostPort(host).port.None? ==> |r| == (if env.httpsPort != 0 then 1 else 0) + (if env.httpPort != 0 then 1 else 0)
    ensures SplitHostPort(host).port.None? && env.httpsPort != 0 ==> r[0] == Candidate("https", host, Some(env.httpsPort))
    ensures SplitHostPort(host).port.None? && env.httpPort != 0 ==> r[|r| - 1] == Candidate("http", host, Some(env.httpPort))
  {
    var spec := SplitHostPort(host);
    if spec.port.None? then
      (if env.httpsPort != 0 then [Candidate("https", host, Some(env.httpsPort))] else []) +
      (if env.httpPort != 0 then [Candidate("http", host, Some(env.httpPort))] else [])
    else
      [Candidate("https", spec.name, spec.port), Candidate("http", spec.name, spec.port)]
  }

  /** 200, and 403 (expected while installing), both count as reachable. */
  predicate Reachable(status: int) {
    status == 200 || status == 403
  }

  /** The first candidate whose status is 200 or 403. */
  function FirstReachableOf(urls: seq<string>, status: string -> int): (r: Option<string>)
    ensures r.Some? ==> exists i :: 0 <= i < |urls| && urls[i] == r.value && Reachable(status(urls[i])) &&
                                    forall j :: 0 <= j < i ==> !Reachable(status(urls[j]))
    ensures r.None? ==> forall i :: 0 <= i < |urls| ==> !Reachable(status(urls[i]))
    decreases |urls|
  {
    if urls == [] then None
    else if Reachable(status(urls[0])) then Some(urls[0])
    else
      var r := FirstReachableOf(urls[1..], status);
      assert forall i :: 1 <= i < |urls| ==> urls[i] == urls[1..][i - 1];
      r
  }

  /** The probe loop of host(), which stops at the first reachable candidate. */
  method FirstReachable(urls: seq<string>, status: string -> int) returns (r: Option<string>)
    ensures r == FirstReachableOf(urls, status)
  {
    var i := 0;
    while i < |urls|
      invariant 0 <= i <= |urls|
      invariant FirstReachableOf(urls[i..], status) == FirstReachableOf(urls, status)
    {
      var code := status(urls[i]);
      if code == 200 || code == 403 {
        return Some(urls[i]);
      }
      assert urls[i..][1..] == urls[i + 1..];
      i := i + 1;
    }
    return None;
  }

  /** ltrim($site, "/"). */
  function LTrimSlash(s: string): (r: string)
    ensures r == [] || r[0] != '/'
    ensures |r| <= |s| && r == s[|s| - |r|..]
    ensures forall i :: 0 <= i < |s| - |r| ==> s[i] == '/'
  {
    if s != [] && s[0] == '/' then LTrimSlash(s[1..]) else s
  }
}
