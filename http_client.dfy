/** parse_url of Networking/examples/07_http_client.c: splitting a URL into
    the host to connect to and the path to request. The sockets, the
    request and the response printing are not part of this model. */
module HttpClient {

  /** The scheme prefix parse_url skips. */
  const Scheme: string := "http://"

  /** strchr: the position of the first c in s, or -1. */
  function FirstIndex(s: string, c: char): (i: int)
    ensures -1 <= i < |s|
    ensures i >= 0 ==> s[i] == c && c !in s[..i]
    ensures i < 0 ==> c !in s
  {
    if s == [] then -1
    else if s[0] == c then 0
    else
      var i := FirstIndex(s[1..], c);
      assert s[1..] == s[1..][..|s| - 1];
      if i < 0 then -1
      else
        assert s[..i + 1] == [s[0]] + s[1..][..i];
        i + 1
  }

  /** The URL after the skipped prefix: strncmp(url, "http://", 7) is 0
      exactly when url starts with those seven characters. */
  function AfterScheme(url: string): (rest: string)
    ensures |url| >= 7 && url[..7] == Scheme ==> rest == url[7..]
    ensures !(|url| >= 7 && url[..7] == Scheme) ==> rest == url
  {
    if |url| >= 7 && url[..7] == Scheme then url[7..] else url
  }

  datatype UrlParts = UrlParts(host: string, path: string)

  /** parse_url: with a '/' after the prefix, the host is the text before
      the first '/' and the path the text from it on, so the two together
      give the text back; without one, the host is the whole text and the
      path is "/". The host never holds a '/' and the path always starts
      with one. */
  function ParseUrl(url: string): (parts: UrlParts)
    ensures var rest := AfterScheme(url);
      && ('/' in rest ==> parts.host + parts.path == rest && |parts.host| < |rest|)
      && ('/' !in rest ==> parts.host == rest && parts.path == "/")
    ensures '/' !in parts.host
    ensures |parts.path| > 0 && parts.path[0] == '/'
  {
    var start := AfterScheme(url);
    var slash := FirstIndex(start, '/');
    if slash >= 0 then
      assert start[..slash] + start[slash..] == start;
      UrlParts(start[..slash], start[slash..])
    else
      UrlParts(start, "/")
  }

  /** A URL put together from a host without '/' and a path that starts
      with '/' parses back into that host and path: with the prefix, or
      without it when host and path do not start with it themselves. */
  lemma ParseUrlRoundTrip(host: string, path: string, withScheme: bool)
    requires '/' !in host && |path| > 0 && path[0] == '/'
    requires !withScheme ==> AfterScheme(host + path) == host + path
    ensures ParseUrl((if withScheme then Scheme else "") + host + path) == UrlParts(host, path)
  {
    var url := (if withScheme then Scheme else "") + host + path;
    var rest := host + path;
    if withScheme {
      assert url[..7] == Scheme && url[7..] == rest;
    } else {
      assert url == "" + host + path;
      assert "" + host == host;
    }
    assert AfterScheme(url) == rest;
    var i := FirstIndex(rest, '/');
    assert rest[|host|] == '/';
    assert rest[..|host|] == host;
    assert i == |host|;
    assert rest[..i] == host && rest[i..] == path;
  }

  /** A bare host after the prefix is requested at "/". */
  lemma ParseUrlHostOnly(host: string)
    requires '/' !in host
    ensures ParseUrl(Scheme + host) == UrlParts(host, "/")
  {
    var url := Scheme + host;
    assert url[..7] == Scheme && url[7..] == host;
  }
}
