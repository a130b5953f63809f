// HttpHandler::parseUrl and the scheme dispatch of HttpHandler::get and
// HttpHandler::post (http_handler.cpp). The requests themselves (resolver,
// TLS, Beast) are not modelled: a dispatch ends in the Request it would make.
module Urls {
  import opened Wrappers

  /** HttpHandler::UrlParts. */
  datatype UrlParts = UrlParts(scheme: string, host: string, port: string, target: string)

  /** "://" occurs in s at position j. */
  predicate SeparatorAt(s: string, j: nat)
  {
    j + 3 <= |s| && s[j] == ':' && s[j + 1] == '/' && s[j + 2] == '/'
  }

  /** url.find("://", from): the first position at or after from where "://"
      occurs, None for npos. */
  function FindSeparator(s: string, from: nat): (r: Option<nat>)
    ensures r.Some? ==> from <= r.value && SeparatorAt(s, r.value)
                        && forall j: nat :: from <= j < r.value ==> !SeparatorAt(s, j)
    ensures r.None? ==> forall j: nat :: from <= j ==> !SeparatorAt(s, j)
    decreases |s| - from
  {
    if from + 3 > |s| then None
    else if SeparatorAt(s, from) then Some(from)
    else FindSeparator(s, from + 1)
  }

  /** std::string::find(c): the first position of c, None for npos. */
  function FindChar(s: string, c: char): (r: Option<nat>)
    ensures r.Some? ==> r.value < |s| && s[r.value] == c && c !in s[..r.value]
    ensures r.None? ==> c !in s
  {
    if s == [] then None
    else if s[0] == c then Some(0)
    else
      var r := FindChar(s[1..], c);
      assert s[1..] == s[..|s|][1..];
      if r.None? then None
      else
        assert s[..r.value + 1] == [s[0]] + s[1..][..r.value];
        Some(r.value + 1)
  }

  /** The port parseUrl fills in when the URL names none. */
  function DefaultPort(scheme: string): string
  {
    if scheme == "https" then "443" else "80"
  }

  /** parseUrl: the scheme up to the first "://" (none is an error); after it,
      the host and port up to the first '/', and the target from that '/' on
      ("/" when there is none); the host and port split at the first ':',
      the port defaulting by scheme. */
  function ParseUrl(url: string): (r: Result<UrlParts>)
  {
    match FindSeparator(url, 0)
    case None => Err(InvalidArgument)
    case Some(i) => Ok(PartsOf(url[..i], url[i + 3..]))
  }

  /** The parts of a URL with the given scheme, from what follows its "://". */
  function PartsOf(scheme: string, remaining: string): UrlParts
  {
    var path := FindChar(remaining, '/');
    var hostPort := if path.Some? then remaining[..path.value] else remaining;
    var target := if path.Some? then remaining[path.value..] else "/";
    match FindChar(hostPort, ':')
    case Some(k) => UrlParts(scheme, hostPort[..k], hostPort[k + 1..], target)
    case None => UrlParts(scheme, hostPort, DefaultPort(scheme), target)
  }

  /** A URL written from its parts: the port and the path when present. */
  function Compose(scheme: string, host: string, port: Option<string>, path: Option<string>): string
  {
    scheme + ("://" + Remainder(host, port, path))
  }

  /** What follows the "://": host, ":port" when there is a port, the path. */
  function Remainder(host: string, port: Option<string>, path: Option<string>): string
  {
    (host + PortPart(port)) + PathPart(path)
  }

  function PortPart(port: Option<string>): string
  {
    if port.Some? then [':'] + port.value else []
  }

  function PathPart(path: Option<string>): string
  {
    if path.Some? then path.value else []
  }

  /** Parts parseUrl can give back: a scheme without "://", a host without ':'
      or '/', a port without '/', a path that starts with '/'. */
  ghost predicate Composable(scheme: string, host: string, port: Option<string>, path: Option<string>)
  {
    (forall j: nat :: !SeparatorAt(scheme, j))
    && ':' !in host && '/' !in host
    && (port.Some? ==> '/' !in port.value)
    && (path.Some? ==> |path.value| > 0 && path.value[0] == '/')
  }

  /** parseUrl throws exactly when the URL holds no "://". */
  lemma ParseFails(url: string)
    ensures ParseUrl(url).Err? <==> forall j: nat :: !SeparatorAt(url, j)
  {
  }

  /** The scheme is everything before the first "://". */
  lemma SchemeIsPrefix(url: string)
    requires ParseUrl(url).Ok?
    ensures var s := ParseUrl(url).value.scheme;
            url[..|s|] == s && SeparatorAt(url, |s|) && forall j: nat :: j < |s| ==> !SeparatorAt(url, j)
  {
  }

  /** Every URL parseUrl accepts is its parts written back, with the port and
      the path exactly when the URL had them; a missing port is the scheme's
      default and a missing path the target "/". */
  lemma ParseRecompose(url: string) returns (port: Option<string>, path: Option<string>)
    requires ParseUrl(url).Ok?
    ensures var p := ParseUrl(url).value;
            Composable(p.scheme, p.host, port, path) && url == Compose(p.scheme, p.host, port, path)
            && p.port == (if port.Some? then port.value else DefaultPort(p.scheme))
            && p.target == (if path.Some? then path.value else "/")
  {
    var scheme, remaining := ParseSplit(url);
    port, path := PartsRecompose(scheme, remaining);
  }

  /** An accepted URL is its scheme, "://" and the rest parseUrl splits. */
  lemma ParseSplit(url: string) returns (scheme: string, remaining: string)
    requires ParseUrl(url).Ok?
    ensures ParseUrl(url) == Ok(PartsOf(scheme, remaining))
    ensures url == scheme + ("://" + remaining) && forall j: nat :: !SeparatorAt(scheme, j)
  {
    var i := FindSeparator(url, 0).value;
    NoEarlierScheme(url, i);
    Split(url, i, 3);
    SeparatorSlice(url, i);
    scheme, remaining := url[..i], url[i + 3..];
  }

  lemma SeparatorSlice(s: string, j: nat)
    requires SeparatorAt(s, j)
    ensures s[j..j + 3] == "://"
  {
  }

  lemma PartsRecompose(scheme: string, remaining: string) returns (port: Option<string>, path: Option<string>)
    ensures var p := PartsOf(scheme, remaining);
            p.scheme == scheme && ':' !in p.host && '/' !in p.host
            && (port.Some? ==> '/' !in port.value)
            && (path.Some? ==> |path.value| > 0 && path.value[0] == '/')
            && remaining == Remainder(p.host, port, path)
            && p.port == (if port.Some? then port.value else DefaultPort(scheme))
            && p.target == (if path.Some? then path.value else "/")
  {
    var hostPort;
    hostPort, path := CutPath(remaining);
    var host;
    host, port := CutPort(hostPort);
  }

  /** The host and port before the first '/', and the path from it. */
  lemma CutPath(remaining: string) returns (hostPort: string, path: Option<string>)
    ensures var f := FindChar(remaining, '/');
            hostPort == (if f.Some? then remaining[..f.value] else remaining)
            && (if f.Some? then remaining[f.value..] else "/") == (if path.Some? then path.value else "/")
    ensures remaining == hostPort + PathPart(path) && '/' !in hostPort
    ensures path.Some? ==> |path.value| > 0 && path.value[0] == '/'
  {
    var f := FindChar(remaining, '/');
    if f.Some? {
      hostPort, path := remaining[..f.value], Some(remaining[f.value..]);
      assert remaining == hostPort + remaining[f.value..];
    } else {
      hostPort, path := remaining, None;
      assert remaining == hostPort + [];
    }
  }

  /** The host before the first ':', and the port after it. */
  lemma CutPort(hostPort: string) returns (host: string, port: Option<string>)
    requires '/' !in hostPort
    ensures match FindChar(hostPort, ':')
            case Some(k) => port.Some? && host == hostPort[..k] && port.value == hostPort[k + 1..]
            case None => port.None? && host == hostPort
    ensures hostPort == host + PortPart(port) && ':' !in host && '/' !in host
    ensures port.Some? ==> '/' !in port.value
  {
    var k := FindChar(hostPort, ':');
    if k.Some? {
      host, port := hostPort[..k.value], Some(hostPort[k.value + 1..]);
      Split(hostPort, k.value, 1);
      assert hostPort[k.value..k.value + 1] == [':'];
      assert forall x :: x in port.value ==> x in hostPort;
      assert forall x :: x in host ==> x in hostPort;
    } else {
      host, port := hostPort, None;
      assert hostPort == hostPort + [];
    }
  }

  /** s cut at i and i + n. */
  lemma Split(s: string, i: nat, n: nat)
    requires i + n <= |s|
    ensures s == s[..i] + (s[i..i + n] + s[i + n..])
  {
    assert s[i..] == s[i..i + n] + s[i + n..];
  }

  /** Writing parts parseUrl can give back and parsing them returns them. */
  lemma ParseCompose(scheme: string, host: string, port: Option<string>, path: Option<string>)
    requires Composable(scheme, host, port, path)
    ensures ParseUrl(Compose(scheme, host, port, path))
            == Ok(UrlParts(scheme, host, if port.Some? then port.value else DefaultPort(scheme),
                           if path.Some? then path.value else "/"))
  {
    var remaining := Remainder(host, port, path);
    var url := Compose(scheme, host, port, path);
    FirstScheme(scheme, remaining);
    assert url[..|scheme|] == scheme && url[|scheme| + 3..] == remaining;
    PartsCompose(scheme, host, port, path);
  }

  lemma PartsCompose(scheme: string, host: string, port: Option<string>, path: Option<string>)
    requires ':' !in host && '/' !in host
    requires port.Some? ==> '/' !in port.value
    requires path.Some? ==> |path.value| > 0 && path.value[0] == '/'
    ensures PartsOf(scheme, Remainder(host, port, path))
            == UrlParts(scheme, host, if port.Some? then port.value else DefaultPort(scheme),
                        if path.Some? then path.value else "/")
  {
    assert '/' !in host + PortPart(port);
    TargetOf(host + PortPart(port), path);
    HostOf(host, port);
  }

  /** The first '/' after the host and port is where the path starts. */
  lemma TargetOf(hostPort: string, path: Option<string>)
    requires '/' !in hostPort
    requires path.Some? ==> |path.value| > 0 && path.value[0] == '/'
    ensures var r := hostPort + PathPart(path);
            var f := FindChar(r, '/');
            (f.Some? <==> path.Some?)
            && (if f.Some? then r[..f.value] else r) == hostPort
            && (if f.Some? then r[f.value..] else "/") == (if path.Some? then path.value else "/")
  {
    var r := hostPort + PathPart(path);
    if path.Some? {
      FirstCharAfter(hostPort, path.value, '/');
      assert r[..|hostPort|] == hostPort && r[|hostPort|..] == path.value;
    } else {
      assert r == hostPort;
      NoChar(r, '/');
    }
  }

  /** The first ':' of the host and port is where the port starts. */
  lemma HostOf(host: string, port: Option<string>)
    requires ':' !in host
    ensures var h := host + PortPart(port);
            match FindChar(h, ':')
            case Some(k) => port.Some? && h[..k] == host && h[k + 1..] == port.value
            case None => port.None? && h == host
  {
    var h := host + PortPart(port);
    if port.Some? {
      FirstCharAfter(host, [':'] + port.value, ':');
      assert h[..|host|] == host && h[|host| + 1..] == port.value;
    } else {
      assert h == host;
      NoChar(h, ':');
    }
  }

  /** A character that does not occur is not found. */
  lemma NoChar(s: string, c: char)
    requires c !in s
    ensures FindChar(s, c) == None
  {
  }

  /** A character absent from a and heading b is first found where b starts. */
  lemma FirstCharAfter(a: string, b: string, c: char)
    requires |b| > 0 && b[0] == c && c !in a
    ensures FindChar(a + b, c) == Some(|a|)
  {
    assert (a + b)[..|a|] == a;
    FindCharFirst(a + b, c, |a|);
  }

  /** FindChar returns the first occurrence. */
  lemma {:induction false} FindCharFirst(s: string, c: char, k: nat)
    requires k < |s| && s[k] == c && c !in s[..k]
    ensures FindChar(s, c) == Some(k)
  {
    if k > 0 {
      assert s[0] in s[..k];
      assert s[1..][..k - 1] == s[..k][1..];
      FindCharFirst(s[1..], c, k - 1);
    }
  }

  /** The scheme, whose first "://" parseUrl found, holds no "://" anywhere. */
  lemma NoEarlierScheme(url: string, i: nat)
    requires SeparatorAt(url, i) && forall j: nat :: j < i ==> !SeparatorAt(url, j)
    ensures forall j: nat :: !SeparatorAt(url[..i], j)
  {
    forall j: nat | SeparatorAt(url[..i], j) ensures false {
      assert SeparatorAt(url, j);
    }
  }

  /** FindSeparator returns the first occurrence. */
  lemma {:induction false} FindFirst(s: string, from: nat, k: nat)
    requires from <= k && SeparatorAt(s, k) && forall j: nat :: from <= j < k ==> !SeparatorAt(s, j)
    ensures FindSeparator(s, from) == Some(k)
    decreases k - from
  {
    if from < k {
      assert !SeparatorAt(s, from);
      FindFirst(s, from + 1, k);
    }
  }

  /** The first "://" of scheme + "://" + rest, scheme holding none, is the one after it. */
  lemma FirstScheme(scheme: string, rest: string)
    requires forall j: nat :: !SeparatorAt(scheme, j)
    ensures FindSeparator(scheme + ("://" + rest), 0) == Some(|scheme|)
  {
    var url := scheme + ("://" + rest);
    assert url[|scheme|] == ':' && url[|scheme| + 1] == '/' && url[|scheme| + 2] == '/';
    forall j: nat | j < |scheme| ensures !SeparatorAt(url, j) {
      if j + 3 <= |scheme| {
        assert !SeparatorAt(scheme, j);
        assert url[j] == scheme[j] && url[j + 1] == scheme[j + 1] && url[j + 2] == scheme[j + 2];
      }
    }
    FindFirst(url, 0, |scheme|);
  }

  // get and post

  datatype Verb = GET | POST

  /** The request get or post makes: makeHttpsRequest(host, target, ...),
      which always resolves the host on port "443", or makeHttpRequest(host,
      port, target, ...). */
  datatype Request = Request(secure: bool, host: string, port: string, target: string, verb: Verb, body: string)

  /** get and post after parseUrl: https and http are requested, any other
      scheme throws, and so does a URL parseUrl refuses. */
  function Dispatch(url: string, verb: Verb, body: string): (r: Result<Request>)
  {
    match ParseUrl(url)
    case Err(e) => Err(e)
    case Ok(p) =>
      if p.scheme == "https" then Ok(Request(true, p.host, "443", p.target, verb, body))
      else if p.scheme == "http" then Ok(Request(false, p.host, p.port, p.target, verb, body))
      else Err(UnsupportedScheme)
  }

  /** HttpHandler::get: no body. */
  function Get(url: string): (r: Result<Request>)
    ensures r.Ok? ==> r.value.verb == GET && r.value.body == ""
  {
    Dispatch(url, GET, "")
  }

  /** HttpHandler::post. */
  function Post(url: string, body: string): (r: Result<Request>)
    ensures r.Ok? ==> r.value.verb == POST && r.value.body == body
  {
    Dispatch(url, POST, body)
  }

  /** A request is made exactly for a URL parseUrl accepts whose scheme is
      http or https; it goes to the parsed host and target, over TLS exactly
      for https; an explicit port is used for http and ignored for https. */
  lemma DispatchSchemes(url: string, verb: Verb, body: string)
    ensures var r := Dispatch(url, verb, body);
            (r.Ok? <==> ParseUrl(url).Ok? && ParseUrl(url).value.scheme in {"http", "https"})
            && (ParseUrl(url).Err? ==> r == Err(InvalidArgument))
            && (ParseUrl(url).Ok? && ParseUrl(url).value.scheme !in {"http", "https"} ==> r == Err(UnsupportedScheme))
            && (r.Ok? ==> var p := ParseUrl(url).value;
                          r.value.host == p.host && r.value.target == p.target
                          && r.value.verb == verb && r.value.body == body
                          && (r.value.secure <==> p.scheme == "https")
                          && r.value.port == (if r.value.secure then "443" else p.port))
  {
  }
}
