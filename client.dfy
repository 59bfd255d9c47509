/**
 * `http_client.get`, without the network: the request it writes for a URL
 * and a user agent, and how it reads the reply that comes back on the
 * connection, from the status line through the header block to the body.
 */
module HttpClient {
  import opened Wrappers
  import opened PyStrings
  import opened HttpHeader
  import opened HeaderNames
  import opened HeaderRoundTrip
  import opened HttpUrl

  newtype byte = x: int | 0 <= x < 256

  const CR: byte := 13
  const LF: byte := 10

  /** The line `b'\r\n'` that ends the header block. */
  const BareCRLF: seq<byte> := [CR, LF]

  // ---------------------------------------------------------------------
  // bytes and text
  // ---------------------------------------------------------------------

  /** A character that fits in one byte. */
  predicate OneByte(c: char) { c as int < 256 }

  predicate OneByteText(s: string) { forall i :: 0 <= i < |s| ==> OneByte(s[i]) }

  /** `got.decode()`, byte by byte (it agrees with UTF-8 on ASCII). */
  function Decode(bs: seq<byte>): (s: string)
    ensures |s| == |bs| && forall i :: 0 <= i < |bs| ==> s[i] as int == bs[i] as int
  {
    if bs == [] then "" else [bs[0] as int as char] + Decode(bs[1..])
  }

  /** The bytes of a text written one byte per character, as the server sends it. */
  function Encode(s: string): (bs: seq<byte>)
    requires OneByteText(s)
    ensures |bs| == |s| && forall i :: 0 <= i < |s| ==> bs[i] as int == s[i] as int
  {
    if s == "" then [] else [s[0] as int as byte] + Encode(s[1..])
  }

  lemma DecodeEncode(s: string)
    requires OneByteText(s)
    ensures Decode(Encode(s)) == s
  {
    var t := Decode(Encode(s));
    assert forall i :: 0 <= i < |s| ==> t[i] == s[i];
  }

  lemma EncodeConcat(a: string, b: string)
    requires OneByteText(a) && OneByteText(b)
    ensures OneByteText(a + b) && Encode(a + b) == Encode(a) + Encode(b)
  {
    var e := Encode(a + b);
    assert forall i :: 0 <= i < |a + b| ==> e[i] == (Encode(a) + Encode(b))[i];
  }

  // ---------------------------------------------------------------------
  // int(header['Content-Length'])
  // ---------------------------------------------------------------------

  predicate IsDigit(c: char) { '0' <= c <= '9' }

  predicate Numeral(s: string) { |s| > 0 && forall i :: 0 <= i < |s| ==> IsDigit(s[i]) }

  /** What `int()` accepts here: an optional sign and at least one decimal digit. */
  predicate IntLiteral(s: string) {
    Numeral(s) || (|s| > 0 && (s[0] == '+' || s[0] == '-') && Numeral(s[1..]))
  }

  /** The value of a string of decimal digits, most significant first. */
  function DigitsValue(s: string): nat
    requires forall i :: 0 <= i < |s| ==> IsDigit(s[i])
  {
    if s == [] then 0
    else
      var last := s[|s| - 1];
      assert IsDigit(last);
      10 * DigitsValue(s[..|s| - 1]) + (last as int - '0' as int)
  }

  /** `int(text)`; `None` stands for the ValueError it raises. */
  function ParseInt(text: string): (r: Option<int>)
    ensures r.Some? <==> IntLiteral(text)
    ensures r.Some? && Numeral(text) ==> r.value >= 0
  {
    if Numeral(text) then Some(DigitsValue(text))
    else if |text| > 0 && (text[0] == '+' || text[0] == '-') && Numeral(text[1..]) then
      var n: int := DigitsValue(text[1..]);
      Some(if text[0] == '-' then -n else n)
    else None
  }

  function DigitChar(d: nat): char
    requires d < 10
  {
    ('0' as int + d) as char
  }

  /** `str(n)` for a natural number. */
  function Decimal(n: nat): (s: string)
    ensures Numeral(s)
  {
    if n < 10 then [DigitChar(n)] else Decimal(n / 10) + [DigitChar(n % 10)]
  }

  /** `int(str(n)) == n`, also with either sign in front. */
  lemma {:induction false} ParseDecimal(n: nat)
    ensures DigitsValue(Decimal(n)) == n
    ensures ParseInt(Decimal(n)) == Some(n)
    ensures ParseInt("+" + Decimal(n)) == Some(n)
    ensures ParseInt("-" + Decimal(n)) == Some(-(n as int))
  {
    var s := Decimal(n);
    if n >= 10 {
      ParseDecimal(n / 10);
      assert s[..|s| - 1] == Decimal(n / 10);
    }
    assert ("+" + s)[1..] == s && ("-" + s)[1..] == s;
    assert ("+" + s)[0] == '+' && ("-" + s)[0] == '-';
  }

  /** Leading zeros do not change the value, as with `int("007")`. */
  lemma {:induction false} LeadingZero(s: string)
    requires forall i :: 0 <= i < |s| ==> IsDigit(s[i])
    ensures DigitsValue("0" + s) == DigitsValue(s)
    decreases |s|
  {
    if s != [] {
      var t := "0" + s;
      assert t[..|t| - 1] == "0" + s[..|s| - 1];
      LeadingZero(s[..|s| - 1]);
    }
  }

  // ---------------------------------------------------------------------
  // reader.readline()
  // ---------------------------------------------------------------------

  /**
   * How many bytes `readline()` takes from `input`: through the first LF,
   * or everything when there is none (no bytes at all at the end of the stream).
   */
  function LineLength(input: seq<byte>): (n: nat)
    ensures n <= |input|
    ensures LF in input ==> 0 < n && input[n - 1] == LF && LF !in input[..n - 1]
    ensures LF !in input ==> n == |input|
  {
    if input == [] then 0
    else if input[0] == LF then 1
    else
      var m := LineLength(input[1..]);
      assert LF in input ==> LF in input[1..];
      assert m > 0 ==> input[..m] == [input[0]] + input[1..][..m - 1];
      1 + m
  }

  /** A line without LF, followed by LF, is read exactly up to that LF. */
  lemma LineOf(line: seq<byte>, rest: seq<byte>)
    requires LF !in line
    ensures LineLength(line + [LF] + rest) == |line| + 1
  {
    var input := line + [LF] + rest;
    assert input[|line|] == LF;
    var n := LineLength(input);
    assert input[..|line|] == line;
    assert forall i :: 0 <= i < |line| ==> input[i] == line[i];
  }

  // ---------------------------------------------------------------------
  // The request
  // ---------------------------------------------------------------------

  /** The `X-Forwarded-For` value the client always sends. */
  const ForwardedFor := "1.2.3.4"

  /** The header entries after the four stores of `get`, in insertion order. */
  function RequestHeaders(host: string, userAgent: string): seq<Entry> {
    [(Host, host), ("User-Agent", userAgent), ("Accept", "*/*"), ("X-Forwarded-For", ForwardedFor)]
  }

  /** The request `get` writes: the request line, the dumped header and the blank line. */
  function RequestText(host: string, path: string, userAgent: string): string {
    "GET " + path + " HTTP/1.1\r\n" + Join(RequestLines(host, userAgent), CRLF) + "\r\n\r\n"
  }

  /**
   * `key` is the '-'-join of accepted segments `segs`, and `name` the join of
   * their capitalised forms `caps`.
   */
  predicate NameParts(key: string, name: string, segs: seq<string>, caps: seq<string>) {
    && |segs| >= 1 && |caps| == |segs|
    && (forall j :: 0 <= j < |segs| ==> '-' !in segs[j] && SegmentOk(segs[j]) && caps[j] == Capitalised(segs[j]))
    && key == Join(segs, "-") && name == Join(caps, "-")
  }

  /** `camel` of the parts of a name. */
  lemma PartsCanonical(key: string, name: string, segs: seq<string>, caps: seq<string>)
    requires NameParts(key, name, segs, caps)
    ensures Canonical(key) == Ok(name)
  {
    CanonicalOfSegments(segs, caps);
  }

  lemma HostParts()
    ensures NameParts("host", Host, ["host"], [Host])
  {
  }

  /** The parts of a two-segment name. */
  lemma PairParts(a: string, b: string, key: string, name: string)
    requires '-' !in a && '-' !in b && SegmentOk(a) && SegmentOk(b)
    requires key == a + "-" + b && name == Capitalised(a) + "-" + Capitalised(b)
    ensures NameParts(key, name, [a, b], [Capitalised(a), Capitalised(b)])
  {
    assert [a, b][1..] == [b];
    assert [Capitalised(a), Capitalised(b)][1..] == [Capitalised(b)];
  }

  lemma UserAgentSegments()
    ensures '-' !in "user" && SegmentOk("user") && Capitalised("user") == "User"
    ensures '-' !in "agent" && SegmentOk("agent") && Capitalised("agent") == "Agent"
  {
  }

  lemma UserAgentJoined()
    ensures "user-agent" == "user" + "-" + "agent" && "User-Agent" == "User" + "-" + "Agent"
  {
  }

  lemma UserAgentParts()
    ensures NameParts("user-agent", "User-Agent", ["user", "agent"], ["User", "Agent"])
  {
    UserAgentSegments();
    UserAgentJoined();
    PairParts("user", "agent", "user-agent", "User-Agent");
  }

  lemma AcceptParts()
    ensures NameParts("Accept", "Accept", ["Accept"], ["Accept"])
  {
  }

  /** The parts of a three-segment name. */
  lemma TripleParts(a: string, b: string, c: string, key: string, name: string)
    requires '-' !in a && '-' !in b && '-' !in c && SegmentOk(a) && SegmentOk(b) && SegmentOk(c)
    requires key == a + "-" + b + "-" + c
    requires name == Capitalised(a) + "-" + Capitalised(b) + "-" + Capitalised(c)
    ensures NameParts(key, name, [a, b, c], [Capitalised(a), Capitalised(b), Capitalised(c)])
  {
    var A, B, C := Capitalised(a), Capitalised(b), Capitalised(c);
    assert [a, b, c][1..] == [b, c] && [b, c][1..] == [c];
    assert [A, B, C][1..] == [B, C] && [B, C][1..] == [C];
    assert Join([b, c], "-") == b + "-" + c;
    assert Join([B, C], "-") == B + "-" + C;
    assert key == Join([a, b, c], "-");
    assert name == Join([A, B, C], "-");
  }

  lemma ForwardedForSegments()
    ensures '-' !in "x" && SegmentOk("x") && Capitalised("x") == "X"
    ensures '-' !in "forwarded" && SegmentOk("forwarded") && Capitalised("forwarded") == "Forwarded"
    ensures '-' !in "for" && SegmentOk("for") && Capitalised("for") == "For"
  {
  }

  lemma ForwardedForJoined()
    ensures "x-forwarded-for" == "x" + "-" + "forwarded" + "-" + "for"
    ensures "X-Forwarded-For" == "X" + "-" + "Forwarded" + "-" + "For"
  {
  }

  lemma ForwardedForParts()
    ensures NameParts("x-forwarded-for", "X-Forwarded-For", ["x", "forwarded", "for"], ["X", "Forwarded", "For"])
  {
    ForwardedForSegments();
    ForwardedForJoined();
    TripleParts("x", "forwarded", "for", "x-forwarded-for", "X-Forwarded-For");
  }

  /** Storing a name not yet present appends it. */
  lemma {:induction false} PutNew(d: seq<Entry>, k: string, v: string)
    requires k !in Keys(d)
    ensures Put(d, k, v) == d + [(k, v)]
  {
    if d != [] {
      assert Keys(d) == [d[0].0] + Keys(d[1..]);
      PutNew(d[1..], k, v);
      assert d == [d[0]] + d[1..];
    }
  }

  lemma StoreNew(d: seq<Entry>, key: string, name: string, val: string)
    requires Canonical(key) == Ok(name) && name !in Keys(d)
    ensures Stored(d, key, val) == d + [(name, val)]
  {
    PutNew(d, name, val);
  }

  /** Entries none of whose names is required all come out of `Others` as they are. */
  lemma {:induction false} OthersAll(d: seq<Entry>)
    requires forall i :: 0 <= i < |d| ==> d[i].0 != Host
    ensures Others(d) == d
  {
    assert Required == [Host];
    if d != [] {
      OthersAll(d[1..]);
      assert d == [d[0]] + d[1..];
    }
  }

  /** `dump()` of a header whose first entry is `Host`: that line, then the rest in order. */
  lemma DumpHostFirst(host: string, rest: seq<Entry>)
    requires forall i :: 0 <= i < |rest| ==> rest[i].0 != Host
    ensures DumpLines([(Host, host)] + rest, true) == [EntryLine((Host, host))] + Lines(rest)
  {
    var d := [(Host, host)] + rest;
    HostLines(d);
    assert Required == [Host];
    assert d[1..] == rest;
    OthersAll(rest);
  }

  /** The request header lines, in the order `dump()` writes them. */
  function RequestLines(host: string, userAgent: string): seq<string> {
    ["Host: " + host, "User-Agent: " + userAgent, "Accept: */*", "X-Forwarded-For: " + ForwardedFor]
  }

  lemma RequestLinesAreEntryLines(host: string, userAgent: string)
    ensures Lines(RequestHeaders(host, userAgent)[1..]) == RequestLines(host, userAgent)[1..]
    ensures EntryLine((Host, host)) == RequestLines(host, userAgent)[0]
  {
    var d := RequestHeaders(host, userAgent)[1..];
    assert EntryLine(d[0]) == "User-Agent: " + userAgent;
    assert EntryLine(d[1]) == "Accept: */*";
    assert EntryLine(d[2]) == "X-Forwarded-For: " + ForwardedFor;
  }

  /** `headers.dump()` of the request header: `Host` first, then the others as stored. */
  lemma RequestDump(host: string, userAgent: string)
    ensures DumpLines(RequestHeaders(host, userAgent), true) == RequestLines(host, userAgent)
  {
    var d := RequestHeaders(host, userAgent);
    var rest := d[1..];
    assert d == [(Host, host)] + rest;
    DumpHostFirst(host, rest);
    RequestLinesAreEntryLines(host, userAgent);
    var ls := RequestLines(host, userAgent);
    assert ls == [ls[0]] + ls[1..];
  }

  /**
   * `headers[key] = val` for a name that is not stored yet, where `key` is
   * the '-'-join of accepted segments `segs` and `name` the join of their
   * capitalised forms: the entry is appended.
   */
  method SetNew(headers: Header, key: string, name: string, val: string, ghost segs: seq<string>, ghost caps: seq<string>)
    requires headers.Valid() && name !in Keys(headers.data)
    requires NameParts(key, name, segs, caps)
    modifies headers
    ensures headers.Valid() && headers.data == old(headers.data) + [(name, val)]
    ensures Keys(headers.data) == Keys(old(headers.data)) + [name]
  {
    PartsCanonical(key, name, segs, caps);
    StoreNew(headers.data, key, name, val);
    var _ := headers.Set(key, val);
    assert Keys(headers.data) == Keys(old(headers.data)) + [name];
  }

  /** Line 142 of `http_client.get`: `Host` into the empty header. */
  method SetHost(headers: Header, host: string)
    requires headers.Valid() && headers.data == []
    modifies headers
    ensures headers.Valid() && headers.data == [(Host, host)]
  {
    HostParts();
    SetNew(headers, "host", Host, host, ["host"], [Host]);
  }

  /** Line 143 of `http_client.get`: `User-Agent` after `Host`. */
  method SetUserAgent(headers: Header, host: string, userAgent: string)
    requires headers.Valid() && headers.data == [(Host, host)]
    modifies headers
    ensures headers.Valid() && headers.data == [(Host, host), ("User-Agent", userAgent)]
  {
    UserAgentParts();
    SetNew(headers, "user-agent", "User-Agent", userAgent, ["user", "agent"], ["User", "Agent"]);
  }

  /** Line 144 of `http_client.get`: `Accept`, any media type. */
  method SetAccept(headers: Header, host: string, userAgent: string)
    requires headers.Valid() && headers.data == [(Host, host), ("User-Agent", userAgent)]
    modifies headers
    ensures headers.Valid() && headers.data == [(Host, host), ("User-Agent", userAgent), ("Accept", "*/*")]
  {
    AcceptParts();
    SetNew(headers, "Accept", "Accept", "*/*", ["Accept"], ["Accept"]);
  }

  /** Line 145 of `http_client.get`: the fixed `X-Forwarded-For`. */
  method SetForwardedFor(headers: Header, host: string, userAgent: string)
    requires headers.Valid() && headers.data == [(Host, host), ("User-Agent", userAgent), ("Accept", "*/*")]
    modifies headers
    ensures headers.Valid() && headers.data == RequestHeaders(host, userAgent)
  {
    ForwardedForParts();
    SetNew(headers, "x-forwarded-for", "X-Forwarded-For", ForwardedFor, ["x", "forwarded", "for"], ["X", "Forwarded", "For"]);
  }

  /** Lines 141-145 of `http_client.get`: a fresh header and the four stores. */
  method RequestHeader(host: string, userAgent: string) returns (headers: Header)
    ensures fresh(headers) && headers.Valid()
    ensures headers.data == RequestHeaders(host, userAgent)
  {
    headers := new Header();
    SetHost(headers, host);
    SetUserAgent(headers, host, userAgent);
    SetAccept(headers, host, userAgent);
    SetForwardedFor(headers, host, userAgent);
  }

  /**
   * Lines 141-147 of `http_client.get`: the request header, dumped with
   * `Host` first and framed by the request line and a blank line.
   */
  method BuildRequest(host: string, path: string, userAgent: string) returns (toSend: string)
    ensures toSend == RequestText(host, path, userAgent)
  {
    var headers := RequestHeader(host, userAgent);
    var dumpHeader := headers.Dump(true);
    RequestDump(host, userAgent);
    toSend := "GET " + path + " HTTP/1.1\r\n" + dumpHeader + "\r\n\r\n";
  }

  // ---------------------------------------------------------------------
  // The reply
  // ---------------------------------------------------------------------

  const ContentLength := "Content-Length"
  const ContentType := "Content-Type"

  /** How one fetch ends, once the request has been written. */
  datatype Response =
      /** The whole body arrived: `Content-Length` bytes, at least zero. */
    | Complete(headers: seq<Entry>, contentType: string, body: seq<byte>)
      /** `Content-Length` or `Content-Type` is missing: the KeyError is caught and `get` returns. */
    | Abandoned(headers: seq<Entry>)
      /** `Content-Length` is not an integer: `int()` raises a ValueError that escapes `get`. */
    | BadLength(headers: seq<Entry>, text: string)
      /** The stream ended inside the body: `readexactly(1)` raises. */
    | Truncated(headers: seq<Entry>, received: seq<byte>)
      /** The stream ended before the bare CRLF: `readline()` keeps returning b'' and the header loop never exits. */
    | Unterminated

  /**
   * The header loop of `get` over the bytes after the status line: each
   * line up to a bare CRLF goes through `parseFrom` into the header;
   * `None` when the stream ends first. On success, the header and the bytes
   * after the bare CRLF.
   */
  function ReadHeaders(d: seq<Entry>, input: seq<byte>): Option<(seq<Entry>, seq<byte>)>
    decreases |input|
  {
    if input == [] then None
    else
      var n := LineLength(input);
      var got := input[..n];
      if got == BareCRLF then Some((d, input[n..]))
      else ReadHeaders(ParseInto(d, Decode(got)), input[n..])
  }

  /** The number of bytes the body loop waits for: none for a negative length. */
  function Wanted(n: int): nat {
    if n < 0 then 0 else n
  }

  /** Lines 170-179 of `get`, once the header block has been read. */
  function Finish(h: seq<Entry>, rest: seq<byte>): Response
  {
    match Fetch(h, ContentLength)
    case Err(_) => Abandoned(h)
    case Ok(text) =>
      match ParseInt(text)
      case None => BadLength(h, text)
      case Some(n) =>
        match Fetch(h, ContentType)
        case Err(_) => Abandoned(h)
        case Ok(ct) =>
          if |rest| < Wanted(n) then Truncated(h, rest) else Complete(h, ct, rest[..Wanted(n)])
  }

  /** What `get` makes of the bytes the server sends back. */
  function ResponseOf(input: seq<byte>): Response
  {
    var afterStatus := input[LineLength(input)..];
    match ReadHeaders([], afterStatus)
    case None => Unterminated
    case Some((h, rest)) => Finish(h, rest)
  }

  /** Lines 163-168 of `get`: the header loop, over the bytes after the status line. */
  method ReadHeaderBlock(input: seq<byte>) returns (ended: bool, header: Header, rest: seq<byte>)
    ensures fresh(header) && header.Valid()
    ensures ReadHeaders([], input) == if ended then Some((header.data, rest)) else None
  {
    header := new Header();
    rest := input;
    while true
      invariant fresh(header) && header.Valid()
      invariant ReadHeaders(header.data, rest) == ReadHeaders([], input)
      decreases |rest|
    {
      if rest == [] {
        return false, header, rest;
      }
      var n := LineLength(rest);
      var got := rest[..n];
      rest := rest[n..];
      if got == BareCRLF {
        return true, header, rest;
      }
      ParseFrom(Decode(got), header);
    }
  }

  /**
   * Lines 177-179 of `get`: one byte at a time until the body holds `n`
   * bytes; `complete` is false when the stream ends first.
   */
  method ReadBody(rest: seq<byte>, n: int) returns (complete: bool, body: seq<byte>)
    ensures complete <==> Wanted(n) <= |rest|
    ensures complete ==> body == rest[..Wanted(n)]
    ensures !complete ==> body == rest
  {
    body := [];
    while |body| < n
      invariant |body| <= Wanted(n) && |body| <= |rest|
      invariant body == rest[..|body|]
      decreases n - |body|
    {
      if |body| == |rest| {
        return false, body;
      }
      body := body + [rest[|body|]];
    }
    return true, body;
  }

  /**
   * Lines 156-179 of `http_client.get`: read and ignore the status line,
   * feed every line to `parseFrom` until a bare CRLF, look up
   * `Content-Length` and `Content-Type`, and read the body.
   */
  method ReadResponse(input: seq<byte>) returns (r: Response)
    ensures r == ResponseOf(input)
  {
    var statusLength := LineLength(input);
    var ended, header, rest := ReadHeaderBlock(input[statusLength..]);
    if !ended {
      return Unterminated;
    }
    var length := header.Get(ContentLength);
    if length.Err? {
      return Abandoned(header.data);
    }
    var n := ParseInt(length.value);
    if n.None? {
      return BadLength(header.data, length.value);
    }
    var contentType := header.Get(ContentType);
    if contentType.Err? {
      return Abandoned(header.data);
    }
    var complete, body := ReadBody(rest, n.value);
    if !complete {
      return Truncated(header.data, body);
    }
    return Complete(header.data, contentType.value, body);
  }

  // ---------------------------------------------------------------------
  // What the reader makes of a reply
  // ---------------------------------------------------------------------

  lemma ContentLengthName()
    ensures Canonical(ContentLength) == Ok(ContentLength)
  {
    CanonicalPair("Content", "Length", ContentLength, ContentLength);
  }

  lemma ContentTypeName()
    ensures Canonical(ContentType) == Ok(ContentType)
  {
    ContentTypeAsIs();
  }

  /**
   * The reply is complete exactly when both headers are there, the length
   * is an integer and at least that many bytes follow the header block; the
   * body is then exactly the first `Content-Length` bytes (none for a
   * negative length).
   */
  lemma FinishComplete(h: seq<Entry>, rest: seq<byte>)
    ensures Finish(h, rest).Complete? <==>
      && Lookup(h, ContentLength).Some? && IntLiteral(Lookup(h, ContentLength).value)
      && Lookup(h, ContentType).Some?
      && Wanted(ParseInt(Lookup(h, ContentLength).value).value) <= |rest|
    ensures Finish(h, rest).Complete? ==>
      var n := Wanted(ParseInt(Lookup(h, ContentLength).value).value);
      && Finish(h, rest).contentType == Lookup(h, ContentType).value
      && |Finish(h, rest).body| == n && Finish(h, rest).body == rest[..n]
  {
    ContentLengthName();
    ContentTypeName();
  }

  /** Without `Content-Length` the fetch is abandoned, whatever follows. */
  lemma MissingLengthAbandons(h: seq<Entry>, rest: seq<byte>)
    requires Lookup(h, ContentLength) == None
    ensures Finish(h, rest) == Abandoned(h)
  {
    ContentLengthName();
  }

  /** With an integer `Content-Length` but no `Content-Type` the fetch is abandoned too. */
  lemma MissingTypeAbandons(h: seq<Entry>, rest: seq<byte>)
    requires Lookup(h, ContentLength).Some? && IntLiteral(Lookup(h, ContentLength).value)
    requires Lookup(h, ContentType) == None
    ensures Finish(h, rest) == Abandoned(h)
  {
    ContentLengthName();
    ContentTypeName();
  }

  /** A `Content-Length` that is not an integer escapes as an error, before `Content-Type` is looked at. */
  lemma BadLengthEscapes(h: seq<Entry>, rest: seq<byte>)
    requires Lookup(h, ContentLength).Some? && !IntLiteral(Lookup(h, ContentLength).value)
    ensures Finish(h, rest) == BadLength(h, Lookup(h, ContentLength).value)
  {
    ContentLengthName();
  }

  /** The reader stops at `Content-Length`: bytes after the body change nothing. */
  lemma ExtraBytesIgnored(h: seq<Entry>, rest: seq<byte>, extra: seq<byte>)
    requires Finish(h, rest).Complete?
    ensures Finish(h, rest + extra) == Finish(h, rest)
  {
    assert Fetch(h, ContentLength).Ok?;
    var text := Fetch(h, ContentLength).value;
    assert ParseInt(text).Some? && Fetch(h, ContentType).Ok?;
    var n := Wanted(ParseInt(text).value);
    assert n <= |rest| && (rest + extra)[..n] == rest[..n];
  }

  /** The status line is read and never examined. */
  lemma StatusLineIgnored(s1: seq<byte>, s2: seq<byte>, rest: seq<byte>)
    requires LF !in s1 && LF !in s2
    ensures ResponseOf(s1 + [LF] + rest) == ResponseOf(s2 + [LF] + rest)
  {
    LineOf(s1, rest);
    LineOf(s2, rest);
    assert (s1 + [LF] + rest)[|s1| + 1..] == rest;
    assert (s2 + [LF] + rest)[|s2| + 1..] == rest;
  }

  // ---------------------------------------------------------------------
  // A header block as the server writes it
  // ---------------------------------------------------------------------

  /** A header line a server can send: one byte per character, no LF, not empty. */
  predicate HeaderLine(l: string) {
    OneByteText(l) && '\n' !in l && l != ""
  }

  /** The lines, each followed by CRLF, as bytes. */
  function Frame(ls: seq<string>): seq<byte>
    requires forall i :: 0 <= i < |ls| ==> HeaderLine(ls[i])
  {
    if ls == [] then [] else assert HeaderLine(ls[0]); Encode(ls[0]) + BareCRLF + Frame(ls[1..])
  }

  lemma DecodeLine(l: string)
    requires OneByteText(l)
    ensures Decode(Encode(l) + BareCRLF) == l + CRLF
  {
    var t := Decode(Encode(l) + BareCRLF);
    assert forall i :: 0 <= i < |l| ==> t[i] == l[i];
  }

  lemma SplitOneLine(l: string)
    requires '\n' !in l
    ensures Split(l + CRLF, CRLF) == [l, ""]
  {
    MissingCharOf(l, CRLF, 1);
    MissingFirstChar("", CRLF);
    SeparatorsDoNotOverlap();
    var parts := [l, ""];
    assert forall j :: 0 <= j < |parts| ==> !Contains(parts[j], CRLF);
    SplitJoin(parts, CRLF);
    assert Join(parts, CRLF) == l + CRLF + Join([""], CRLF);
    assert l + CRLF + "" == l + CRLF;
  }

  /** `parseFrom` of one line with its CRLF does what the piece before the CRLF says. */
  lemma ParseOneLine(d: seq<Entry>, l: string)
    requires '\n' !in l
    ensures ParseInto(d, l + CRLF) == Step(d, l)
  {
    SplitOneLine(l);
    ParseLineEmpty();
    var d' := Step(d, l);
    assert ParsePieces(d', [""]) == d';
    assert [l, ""][1..] == [""];
  }

  /** One framed line is read whole and handed to `parseFrom`. */
  lemma ReadOneLine(d: seq<Entry>, l: string, tail: seq<byte>)
    requires HeaderLine(l)
    ensures ReadHeaders(d, Encode(l) + BareCRLF + tail) == ReadHeaders(Step(d, l), tail)
  {
    var e := Encode(l);
    var input := e + BareCRLF + tail;
    assert LF !in e + [CR] by {
      forall i | 0 <= i < |e| ensures e[i] != LF {
        assert l[i] != '\n';
      }
    }
    assert input == (e + [CR]) + [LF] + tail;
    LineOf(e + [CR], tail);
    assert input[..|e| + 2] == e + BareCRLF;
    assert input[|e| + 2..] == tail;
    DecodeLine(l);
    ParseOneLine(d, l);
  }

  /**
   * A block of header lines ended by a bare CRLF is read up to that CRLF,
   * and each line is parsed in order as a piece of its own.
   */
  lemma {:induction false} ReadFramed(d: seq<Entry>, ls: seq<string>, rest: seq<byte>)
    requires forall i :: 0 <= i < |ls| ==> HeaderLine(ls[i])
    ensures ReadHeaders(d, Frame(ls) + BareCRLF + rest) == Some((ParsePieces(d, ls), rest))
    decreases |ls|
  {
    if ls == [] {
      LineOf([CR], rest);
      assert Frame(ls) + BareCRLF + rest == [CR] + [LF] + rest;
      assert (BareCRLF + rest)[2..] == rest;
    } else {
      var tail := Frame(ls[1..]) + BareCRLF + rest;
      assert Frame(ls) + BareCRLF + rest == Encode(ls[0]) + BareCRLF + tail;
      ReadOneLine(d, ls[0], tail);
      ReadFramed(Step(d, ls[0]), ls[1..], rest);
    }
  }

  // ---------------------------------------------------------------------
  // A whole reply
  // ---------------------------------------------------------------------

  /** An entry a server can send on one line and that reads back as itself. */
  predicate Sendable(e: Entry) {
    EntrySafe(e) && OneByteText(e.1) && '\n' !in e.1
  }

  predicate AllSendable(es: seq<Entry>) {
    forall i :: 0 <= i < |es| ==> Sendable(es[i])
  }

  lemma EntryLineSendable(e: Entry)
    requires Sendable(e)
    ensures HeaderLine(EntryLine(e))
  {
    CanonicalChars(e.0);
    var l := EntryLine(e);
    assert l == e.0 + ": " + e.1;
    forall i | 0 <= i < |l| ensures OneByte(l[i]) && l[i] != '\n' {
      if i < |e.0| {
        assert l[i] == e.0[i];
      } else if i >= |e.0| + 2 {
        assert l[i] == e.1[i - |e.0| - 2];
      }
    }
  }

  lemma LinesSendable(es: seq<Entry>)
    requires AllSendable(es)
    ensures forall i :: 0 <= i < |Lines(es)| ==> HeaderLine(Lines(es)[i])
  {
    forall i | 0 <= i < |Lines(es)| ensures HeaderLine(Lines(es)[i]) {
      EntryLineSendable(es[i]);
    }
  }

  lemma SendableSafe(es: seq<Entry>)
    requires AllSendable(es)
    ensures AllSafe(es)
  {
  }

  predicate StatusLine(status: string) {
    OneByteText(status) && '\n' !in status
  }

  /** One `Name: value` line per entry, each ended by CRLF, as bytes. */
  function Block(es: seq<Entry>): seq<byte>
    requires AllSendable(es)
  {
    LinesSendable(es);
    Frame(Lines(es))
  }

  /** The bytes of a reply: the status line, one line per entry, a bare CRLF, the body. */
  function Reply(status: string, es: seq<Entry>, body: seq<byte>): seq<byte>
    requires StatusLine(status) && AllSendable(es)
  {
    Encode(status) + BareCRLF + Block(es) + BareCRLF + body
  }

  /** In distinct entries `a + b`, the first name of `b` is not a name of `a`. */
  lemma {:induction false} DistinctHead(a: seq<Entry>, b: seq<Entry>)
    requires b != [] && Distinct(a + b)
    ensures b[0].0 !in Keys(a)
  {
    if a != [] {
      var ab := a + b;
      assert ab[0] == a[0] && ab[1..] == a[1..] + b;
      DistinctHead(a[1..], b);
      assert Keys(ab[1..])[|a| - 1] == b[0].0;
      assert Keys(a) == [a[0].0] + Keys(a[1..]);
    }
  }

  /** Storing the names of `es` after those of `acc`, all distinct, appends them in order. */
  lemma {:induction false} PutAllFresh(acc: seq<Entry>, es: seq<Entry>)
    requires Distinct(acc + es)
    ensures PutAll(acc, es) == acc + es
    decreases |es|
  {
    if es != [] {
      DistinctHead(acc, es);
      PutAllStep(acc, es);
      MoveFirst(acc, es);
      PutAllFresh(acc + [es[0]], es[1..]);
    }
  }

  /** A first name that is new is appended. */
  lemma PutAllStep(acc: seq<Entry>, es: seq<Entry>)
    requires es != [] && es[0].0 !in Keys(acc)
    ensures PutAll(acc, es) == PutAll(acc + [es[0]], es[1..])
  {
    PutNew(acc, es[0].0, es[0].1);
  }

  lemma MoveFirst(acc: seq<Entry>, es: seq<Entry>)
    requires es != []
    ensures (acc + [es[0]]) + es[1..] == acc + es
  {
    assert es == [es[0]] + es[1..];
  }

  /** The bytes after the status line are where the header loop starts. */
  lemma AfterStatus(status: string, after: seq<byte>)
    requires StatusLine(status)
    ensures var input := Encode(status) + BareCRLF + after; input[LineLength(input)..] == after
  {
    var e := Encode(status);
    var input := e + BareCRLF + after;
    assert LF !in e + [CR] by {
      forall i | 0 <= i < |e| ensures e[i] != LF {
        assert status[i] != '\n';
      }
    }
    assert input == (e + [CR]) + [LF] + after;
    LineOf(e + [CR], after);
    assert input[|e| + 2..] == after;
  }

  /** Parsing the lines of distinct safe entries, one by one, gives those entries. */
  lemma ParsedSent(es: seq<Entry>)
    requires AllSafe(es) && Distinct(es)
    ensures ParsePieces([], Lines(es)) == es
  {
    ParseLinesThen([], es, []);
    assert Lines(es) + [] == Lines(es);
    assert [] + es == es;
    PutAllFresh([], es);
  }

  /** The header block of a reply reads back as exactly the entries that were sent. */
  lemma ReadSentHeaders(es: seq<Entry>, body: seq<byte>)
    requires AllSendable(es) && Distinct(es)
    ensures ReadHeaders([], Block(es) + BareCRLF + body) == Some((es, body))
  {
    LinesSendable(es);
    ReadFramed([], Lines(es), body);
    SendableSafe(es);
    ParsedSent(es);
  }

  /** What the reader makes of a reply is decided by the entries sent and the body alone. */
  lemma ReadReply(status: string, es: seq<Entry>, body: seq<byte>)
    requires StatusLine(status) && AllSendable(es) && Distinct(es)
    ensures ResponseOf(Reply(status, es, body)) == Finish(es, body)
  {
    var afterStatus := Block(es) + BareCRLF + body;
    var input := Reply(status, es, body);
    assert input == Encode(status) + BareCRLF + afterStatus;
    AfterStatus(status, afterStatus);
    ReadSentHeaders(es, body);
    HeaderBlockRead(input, es, body);
  }

  lemma HeaderBlockRead(input: seq<byte>, h: seq<Entry>, rest: seq<byte>)
    requires ReadHeaders([], input[LineLength(input)..]) == Some((h, rest))
    ensures ResponseOf(input) == Finish(h, rest)
  {
  }

  /**
   * A reply that sends `Content-Type` and a `Content-Length` equal to the
   * length of its body is read completely: the headers as sent, the
   * content type, and exactly the body.
   */
  lemma WellFormedReply(status: string, es: seq<Entry>, contentType: string, body: seq<byte>)
    requires StatusLine(status) && AllSendable(es) && Distinct(es)
    requires Lookup(es, ContentLength) == Some(Decimal(|body|))
    requires Lookup(es, ContentType) == Some(contentType)
    ensures ResponseOf(Reply(status, es, body)) == Complete(es, contentType, body)
  {
    ReadReply(status, es, body);
    ParseDecimal(|body|);
    FinishComplete(es, body);
  }

  /** A reply without `Content-Length` is abandoned, whatever its body. */
  lemma ReplyWithoutLength(status: string, es: seq<Entry>, body: seq<byte>)
    requires StatusLine(status) && AllSendable(es) && Distinct(es)
    requires Lookup(es, ContentLength) == None
    ensures ResponseOf(Reply(status, es, body)) == Abandoned(es)
  {
    ReadReply(status, es, body);
    MissingLengthAbandons(es, body);
  }

  /** A reply with a length but no `Content-Type` is abandoned as well. */
  lemma ReplyWithoutType(status: string, es: seq<Entry>, body: seq<byte>)
    requires StatusLine(status) && AllSendable(es) && Distinct(es)
    requires Lookup(es, ContentLength) == Some(Decimal(|body|))
    requires Lookup(es, ContentType) == None
    ensures ResponseOf(Reply(status, es, body)) == Abandoned(es)
  {
    ReadReply(status, es, body);
    ParseDecimal(|body|);
    MissingTypeAbandons(es, body);
  }

  /** A reply whose body is shorter than its `Content-Length` ends with the bytes there were. */
  lemma ShortReply(status: string, es: seq<Entry>, contentType: string, body: seq<byte>, n: nat)
    requires StatusLine(status) && AllSendable(es) && Distinct(es)
    requires Lookup(es, ContentLength) == Some(Decimal(n))
    requires Lookup(es, ContentType) == Some(contentType)
    requires |body| < n
    ensures ResponseOf(Reply(status, es, body)) == Truncated(es, body)
  {
    ReadReply(status, es, body);
    ParseDecimal(n);
    ContentLengthName();
    ContentTypeName();
  }

  /** Header lines as text, each followed by CRLF. */
  function TextFrame(ls: seq<string>): string {
    if ls == [] then "" else ls[0] + CRLF + TextFrame(ls[1..])
  }

  lemma {:induction false} EncodeFrame(ls: seq<string>)
    requires forall i :: 0 <= i < |ls| ==> HeaderLine(ls[i])
    ensures OneByteText(TextFrame(ls)) && Encode(TextFrame(ls)) == Frame(ls)
    decreases |ls|
  {
    if ls != [] {
      assert HeaderLine(ls[0]);
      EncodeFrame(ls[1..]);
      EncodeConcat(ls[0], CRLF);
      EncodeConcat(ls[0] + CRLF, TextFrame(ls[1..]));
      assert Encode(CRLF) == BareCRLF;
    }
  }

  /** A reply written out as text is, byte for byte, the reply built from its parts. */
  lemma EncodeReply(status: string, es: seq<Entry>, body: string)
    requires StatusLine(status) && AllSendable(es) && OneByteText(body)
    ensures OneByteText(status + CRLF + TextFrame(Lines(es)) + CRLF + body)
    ensures Encode(status + CRLF + TextFrame(Lines(es)) + CRLF + body) == Reply(status, es, Encode(body))
  {
    LinesSendable(es);
    EncodeFrame(Lines(es));
    var f := TextFrame(Lines(es));
    assert Encode(CRLF) == BareCRLF;
    EncodeConcat(status, CRLF);
    EncodeConcat(status + CRLF, f);
    EncodeConcat(status + CRLF + f, CRLF);
    EncodeConcat(status + CRLF + f + CRLF, body);
  }

  /** A well-formed reply written out as text is read completely. */
  lemma TextReply(status: string, es: seq<Entry>, contentType: string, body: string, text: string)
    requires StatusLine(status) && AllSendable(es) && Distinct(es) && OneByteText(body)
    requires Lookup(es, ContentLength) == Some(Decimal(|Encode(body)|))
    requires Lookup(es, ContentType) == Some(contentType)
    requires text == status + CRLF + TextFrame(Lines(es)) + CRLF + body
    ensures OneByteText(text)
    ensures ResponseOf(Encode(text)) == Complete(es, contentType, Encode(body))
  {
    EncodeReply(status, es, body);
    WellFormedReply(status, es, contentType, Encode(body));
  }

  /**
   * `get` up to the body: the URL gives the target and whether TLS is used,
   * the target gives the request, and `reply` (the bytes the server sends
   * back) gives the response. The user agent is the one drawn at random.
   */
  method Get(url: string, userAgent: string, reply: seq<byte>)
    returns (target: Target, secure: bool, request: string, response: Response)
    ensures var (rest, scheme) := ExtractFrom(url, Protocols);
      target == SplitHost(rest, scheme) && secure == (scheme == Https)
    ensures request == RequestText(target.host, target.path, userAgent)
    ensures response == ResponseOf(reply)
  {
    var rest, scheme := ExtractUrl(url);
    target := SplitHost(rest, scheme);
    request := BuildRequest(target.host, target.path, userAgent);
    secure := scheme == Https;
    response := ReadResponse(reply);
  }
}
