/**
 * The two URL steps of `http_client.get`: `extract_url`, which finds the
 * scheme marker and drops everything up to it, and the split of what is left
 * into host, port and path.
 */
module HttpUrl {
  import opened PyStrings

  /** The keys of `http_client.protos`, in their dictionary order. */
  datatype Scheme = Http | Https

  function Name(s: Scheme): string {
    match s
    case Http => "http"
    case Https => "https"
  }

  /** `http_client.protos[s]`. */
  function DefaultPort(s: Scheme): nat {
    match s
    case Http => 80
    case Https => 443
  }

  /** `f"{p}://"`. */
  function Marker(s: Scheme): string {
    Name(s) + "://"
  }

  const Protocols: seq<Scheme> := [Http, Https]

  /**
   * `rest` is what follows the first occurrence of `m` in `url`, wherever
   * in `url` that occurrence is.
   */
  predicate AfterFirst(url: string, m: string, rest: string) {
    var i := |url| - |rest| - |m|;
    0 <= i && OccursAt(url, m, i) && url[i + |m|..] == rest &&
    forall j :: 0 <= j < i ==> !OccursAt(url, m, j)
  }

  /** What the loop of `extract_url` returns when it tries the schemes `ps` in order. */
  function ExtractFrom(url: string, ps: seq<Scheme>): (string, Scheme)
  {
    if ps == [] then (url, Http)
    else
      var m := Marker(ps[0]);
      var found := IndexOf(url, m);
      if found != -1 then (url[found + |m|..], ps[0]) else ExtractFrom(url, ps[1..])
  }

  /**
   * `http_client.extract_url(url)`: `http://` is searched first, then
   * `https://`; a hit anywhere in the string cuts off everything up to the
   * end of the marker, and with no hit the URL is kept whole as `http`.
   */
  method ExtractUrl(url: string) returns (rest: string, scheme: Scheme)
    ensures (rest, scheme) == ExtractFrom(url, Protocols)
  {
    for n := 0 to |Protocols|
      invariant ExtractFrom(url, Protocols[n..]) == ExtractFrom(url, Protocols)
    {
      assert Protocols[n..][0] == Protocols[n] && Protocols[n..][1..] == Protocols[n + 1..];
      var p := Protocols[n];
      var head := Marker(p);
      var found := IndexOf(url, head);
      if found != -1 {
        return url[found + |head|..], p;
      }
    }
    assert Protocols[|Protocols|..] == [];
    return url, Http;
  }

  /** What follows the first occurrence IndexOf finds. */
  lemma MarkerFound(url: string, m: string)
    requires |m| > 0 && Contains(url, m)
    ensures AfterFirst(url, m, url[IndexOf(url, m) + |m|..])
  {
    var i := IndexOf(url, m);
    var rest := url[i + |m|..];
    assert |url| - |rest| - |m| == i;
  }

  /** The three outcomes of `extract_url`. */
  lemma ExtractCases(url: string)
    ensures var (rest, s) := ExtractFrom(url, Protocols);
      && (Contains(url, Marker(Http)) ==> s == Http && AfterFirst(url, Marker(Http), rest))
      && (!Contains(url, Marker(Http)) && Contains(url, Marker(Https)) ==>
            s == Https && AfterFirst(url, Marker(Https), rest))
      && (!Contains(url, Marker(Http)) && !Contains(url, Marker(Https)) ==> rest == url && s == Http)
  {
    assert Protocols[0] == Http && Protocols[1..][0] == Https && Protocols[1..][1..] == [];
    if Contains(url, Marker(Http)) {
      MarkerFound(url, Marker(Http));
    } else if Contains(url, Marker(Https)) {
      MarkerFound(url, Marker(Https));
    } else {
      assert ExtractFrom(url, Protocols[1..][1..]) == (url, Http);
      assert ExtractFrom(url, Protocols[1..]) == (url, Http);
    }
  }

  lemma MarkersDoNotOverlap()
    ensures NoSelfOverlap(Marker(Http)) && NoSelfOverlap(Marker(Https))
  {
    FirstCharUnique(Marker(Http));
    FirstCharUnique(Marker(Https));
  }

  /** `https://` followed by text without `http://` does not contain `http://`. */
  lemma HttpsHidesHttp(rest: string)
    requires !Contains(rest, Marker(Http))
    ensures !Contains(Marker(Https) + rest, Marker(Http))
  {
    var t := Marker(Https) + rest;
    var m := Marker(Http);
    forall j | 0 <= j <= |t| ensures !OccursAt(t, m, j) {
      if j + |m| <= |t| {
        if j == 0 {
          assert t[j..j + |m|][4] == 's';
        } else if j < 8 {
          assert t[j..j + |m|][0] == t[j] != 'h';
        } else {
          assert t[j..j + |m|] == rest[j - 8..j - 8 + |m|];
          assert !OccursAt(rest, m, j - 8);
        }
      }
    }
  }

  /**
   * A URL written as a scheme marker and the text after it comes back apart;
   * for `https` the text must not itself contain `http://`, which is tried first.
   */
  lemma ExtractUrlRoundTrip(s: Scheme, rest: string)
    requires s == Https ==> !Contains(rest, Marker(Http))
    ensures ExtractFrom(Marker(s) + rest, Protocols) == (rest, s)
  {
    var url := Marker(s) + rest;
    MarkersDoNotOverlap();
    assert !Contains("", Marker(s));
    FirstOccurrence("", Marker(s), rest);
    assert "" + Marker(s) + rest == url;
    if s == Https {
      HttpsHidesHttp(rest);
    }
    ExtractCases(url);
    assert url[|Marker(s)|..] == rest;
  }

  /** An address without a marker is kept whole and taken as `http`. */
  lemma ExtractUrlBare(url: string)
    requires ':' !in url
    ensures ExtractFrom(url, Protocols) == (url, Http)
  {
    assert Marker(Http)[4] == ':' && Marker(Https)[5] == ':';
    forall s: Scheme ensures !Contains(url, Marker(s)) {
      forall j | 0 <= j <= |url| ensures !OccursAt(url, Marker(s), j) {
        var c := |Name(s)|;
        if j + |Marker(s)| <= |url| {
          assert url[j..j + |Marker(s)|][c] == url[j + c];
        }
      }
    }
    ExtractCases(url);
  }

  // ---------------------------------------------------------------------
  // host, port and path
  // ---------------------------------------------------------------------

  /** An explicit port is the text after the last ':' of the host part; the default is a number. */
  datatype Port = PortText(text: string) | PortNumber(number: nat)

  datatype Target = Target(host: string, port: Port, path: string)

  /** `url.split('/')[0]`: everything before the first '/'. */
  function HostPart(url: string): (h: string)
    ensures |h| <= |url| && h == url[..|h|] && '/' !in h
    ensures |h| < |url| ==> url[|h|] == '/'
  {
    var r := Partition(url, "/");
    forall i | 0 <= i < |r.0| ensures r.0[i] != '/' {
      assert url[i..i + 1][0] == url[i];
      assert !OccursAt(url, "/", i);
    }
    r.0
  }

  lemma HostPartIsFirstPiece(url: string)
    ensures Split(url, "/")[0] == HostPart(url)
  {
    SplitHead(url, "/");
  }

  /** The host part of `head + rest`, when `head` has no '/' and `rest` is empty or starts at one. */
  lemma HostPartOf(head: string, rest: string)
    requires '/' !in head && (rest == "" || rest[0] == '/')
    ensures HostPart(head + rest) == head
  {
    var url := head + rest;
    var h := HostPart(url);
    assert forall i :: 0 <= i < |head| ==> url[i] == head[i];
    assert rest != "" ==> url[|head|] == '/';
  }

  /**
   * Lines 131-137 of `http_client.get`: the host part is everything before
   * the first '/'; a ':' in it splits off the port at its last ':'; the path
   * is "/" when the host is the whole URL and otherwise the URL after the
   * host, which with an explicit port still starts with ":port".
   */
  function SplitHost(url: string, scheme: Scheme): Target
  {
    var head := HostPart(url);
    if ':' in head then
      var (host, _, port) := RPartition(head, ':');
      var path := if host == url then "/" else url[|host|..];
      Target(host, PortText(port), path)
    else
      var path := if head == url then "/" else url[|head|..];
      Target(head, PortNumber(DefaultPort(scheme)), path)
  }

  /**
   * The host is a prefix of the URL with no '/', and the path is "/" or the
   * rest of the URL; without a ':' in the host part the port is the
   * scheme's default, and with one the port is what follows its last ':'.
   */
  lemma SplitHostShape(url: string, scheme: Scheme)
    ensures var r := SplitHost(url, scheme);
      && |r.host| <= |url| && r.host == url[..|r.host|] && '/' !in r.host
      && (r.path == "/" || r.host + r.path == url)
      && (r.port.PortNumber? <==> ':' !in HostPart(url))
      && (r.port.PortNumber? ==> r.port.number == DefaultPort(scheme) && r.host == HostPart(url))
      && (r.port.PortText? ==> r.host + ":" + r.port.text == HostPart(url) && ':' !in r.port.text)
  {
    if ':' in HostPart(url) {
      WithPortShape(url, scheme);
    } else {
      WithoutPortShape(url, scheme);
    }
  }

  lemma WithPortShape(url: string, scheme: Scheme)
    requires ':' in HostPart(url)
    ensures var r := SplitHost(url, scheme);
      && |r.host| <= |url| && r.host == url[..|r.host|] && '/' !in r.host
      && (r.path == "/" || r.host + r.path == url)
      && r.port.PortText? && r.host + ":" + r.port.text == HostPart(url) && ':' !in r.port.text
  {
    var head := HostPart(url);
    var (host, sep, port) := RPartition(head, ':');
    assert sep == ":";
    assert head == host + ":" + port;
    assert |host| < |head| <= |url|;
    assert SplitHost(url, scheme) == Target(host, PortText(port), url[|host|..]);
    PrefixOfPrefix(url, head, host);
  }

  /** A prefix of a prefix of `url` is a prefix of `url`, and shares its characters. */
  lemma PrefixOfPrefix(url: string, head: string, host: string)
    requires |head| <= |url| && head == url[..|head|]
    requires |host| <= |head| && host == head[..|host|]
    ensures host == url[..|host|] && host + url[|host|..] == url
    ensures forall c :: c in host ==> c in head
  {
    assert url[..|host|] == url[..|head|][..|host|];
  }

  lemma WithoutPortShape(url: string, scheme: Scheme)
    requires ':' !in HostPart(url)
    ensures var r := SplitHost(url, scheme);
      && |r.host| <= |url| && r.host == url[..|r.host|] && '/' !in r.host
      && (r.path == "/" || r.host + r.path == url)
      && r.port == PortNumber(DefaultPort(scheme)) && r.host == HostPart(url)
  {
    var head := HostPart(url);
    assert head + url[|head|..] == url;
  }

  /** Without a port the URL splits into its host and its path, "/" when there is none. */
  lemma SplitHostDefault(host: string, path: string, scheme: Scheme)
    requires '/' !in host && ':' !in host && (path == "" || path[0] == '/')
    ensures SplitHost(host + path, scheme) ==
      Target(host, PortNumber(DefaultPort(scheme)), if path == "" then "/" else path)
  {
    HostPartOf(host, path);
    assert (host + path)[|host|..] == path;
  }

  /** With a port the path is what follows the host, so it keeps the ":port" in front. */
  lemma SplitHostExplicit(host: string, port: string, rest: string, scheme: Scheme)
    requires '/' !in host && '/' !in port && ':' !in port && (rest == "" || rest[0] == '/')
    ensures SplitHost(host + ":" + port + rest, scheme) == Target(host, PortText(port), ":" + port + rest)
  {
    var url := host + ":" + port + rest;
    var head := host + ":" + port;
    ExplicitHead(host, port, rest);
    RPartitionAtLast(host, ':', port);
    ExplicitTarget(url, head, host, port, scheme);
  }

  lemma ExplicitHead(host: string, port: string, rest: string)
    requires '/' !in host && '/' !in port && (rest == "" || rest[0] == '/')
    ensures var head := host + ":" + port; var url := head + rest;
      HostPart(url) == head && ':' in head && |host| < |url| && url[|host|..] == ":" + port + rest
      && host + ":" + port + rest == url
  {
    var head := host + ":" + port;
    HostPartOf(head, rest);
    assert head[|host|] == ':';
  }

  /** `SplitHost` once the host part and its split at the last ':' are known. */
  lemma ExplicitTarget(url: string, head: string, host: string, port: string, scheme: Scheme)
    requires HostPart(url) == head && ':' in head && RPartition(head, ':') == (host, ":", port) && |host| < |url|
    ensures SplitHost(url, scheme) == Target(host, PortText(port), url[|host|..])
  {
  }

  /** The port stays in the path: "example.com:8080/x" asks for ":8080/x". */
  lemma PortStaysInPath()
    ensures SplitHost("example.com:8080/x", Http) == Target("example.com", PortText("8080"), ":8080/x")
  {
    var host, port, rest := "example.com", "8080", "/x";
    assert host + ":" + port + rest == "example.com:8080/x";
    assert ":" + port + rest == ":8080/x";
    assert '/' !in host;
    assert '/' !in port && ':' !in port;
    SplitHostExplicit(host, port, rest, Http);
  }

  /** `extract_url("https://example.com/a")` and `extract_url("example.com/a")`. */
  lemma ExtractExamples()
    ensures ExtractFrom("https://example.com/a", Protocols) == ("example.com/a", Https)
    ensures ExtractFrom("example.com/a", Protocols) == ("example.com/a", Http)
  {
    ExtractMarked();
    ExtractUnmarked();
  }

  lemma ExtractMarked()
    ensures ExtractFrom("https://example.com/a", Protocols) == ("example.com/a", Https)
  {
    var rest := "example.com/a";
    assert ':' !in rest;
    ExtractHttpsPlain(rest);
    assert Marker(Https) + rest == "https://example.com/a";
  }

  /** `https://` and a text without ':' come back apart. */
  lemma ExtractHttpsPlain(rest: string)
    requires ':' !in rest
    ensures ExtractFrom(Marker(Https) + rest, Protocols) == (rest, Https)
  {
    MissingCharOf(rest, Marker(Http), 4);
    ExtractUrlRoundTrip(Https, rest);
  }

  lemma ExtractUnmarked()
    ensures ExtractFrom("example.com/a", Protocols) == ("example.com/a", Http)
  {
    var rest := "example.com/a";
    assert ':' !in rest;
    ExtractUrlBare(rest);
  }

  /** Without a port the scheme's default is used: "example.com/x" goes to port 80 for "/x". */
  lemma DefaultPortExample()
    ensures SplitHost("example.com/x", Http) == Target("example.com", PortNumber(80), "/x")
  {
    var host, path := "example.com", "/x";
    assert host + path == "example.com/x";
    assert '/' !in host && ':' !in host;
    SplitHostDefault(host, path, Http);
  }
}
