# getimg.py HTTP client, modelled in Dafny

getimg.py downloads images with a minimal HTTP/1.1 GET client of its own.
This project models the core of that client and proves what it does:

- `http_header`, the header container: name canonicalisation (`camel`,
  `validate`, `upper_first`), storing and reading (`__setitem__`,
  `__getitem__`), lenient parsing of CRLF-separated text (`parseFrom`) and
  serialisation with `Host` first (`dump`) — modules `HttpHeader`,
  `HeaderNames` and `HeaderRoundTrip`;
- `http_client.extract_url` and the host/port/path split of
  `http_client.get` — module `HttpUrl`;
- the request `get` builds, and how it reads the reply: the status line,
  the header lines up to a bare CRLF, the `Content-Length` and
  `Content-Type` lookups and the body loop — module `HttpClient`;
- the Python string built-ins these rely on (`find`, `split`, `join`,
  `partition`, `rpartition`, `strip`) — module `PyStrings`, on top of the
  `Option`/`Result`/`Outcome` types of `Wrappers`.

The header container is a class whose methods update its `data` field (a
sequence of entries in insertion order, standing for the Python dict), as
in the source. The loops of `camel`, `parseFrom`, `dump`, `extract_url`,
the header loop and the body loop are methods with loop invariants, each
proved equal to a function; the properties are lemmas about those
functions.

Where the behaviour of the code differs from what a reader might expect
of it, the model follows the code:

- a name is canonicalised by upper-casing the first character of each
  '-'-separated segment only, so `CONTENT-TYPE` and `Content-Type` are
  different keys (`HeaderNames.CaseFolding`);
- the range test of `upper_first` leaves out 'Z', so a segment starting
  with 'Z' gets ':' instead, and canonicalising is idempotent only for
  names without a segment starting with 'z' or 'Z'
  (`HeaderNames.ZQuirk`, `HeaderNames.CanonicalIdempotent`);
- `parseFrom` strips every space at both ends of a value, and a piece
  without ": " is stored whole as the name, with the empty value, when
  that name is accepted (`HeaderRoundTrip.ParseLineWithoutSeparator`);
- with an explicit port the path keeps the ":port" in front, so
  "example.com:8080/x" asks for ":8080/x" (`HttpUrl.PortStaysInPath`);
- `extract_url` tries `http://` before `https://` and finds either one
  anywhere in the URL, not only at its start;
- a `Content-Length` that is not an integer raises a ValueError that
  `get` does not catch (`HttpClient.BadLengthEscapes`), while a missing
  `Content-Length` or `Content-Type` ends the fetch quietly.

## Model

| member | source | states |
|---|---|---|
| PyStrings.IndexOf | getimg.py:121 | `find`: -1 exactly when the marker does not occur, otherwise its first occurrence |
| PyStrings.Split | getimg.py:48 | `split`: at least one piece, the pieces joined back give the string, no piece contains the separator |
| PyStrings.Partition | getimg.py:87 | `partition`: the three parts rebuild the string, the middle is the separator when it occurs and the tail is empty otherwise, the head holds no occurrence |
| PyStrings.RPartition | getimg.py:133-134 | `rpartition` of one character: the parts rebuild the string, the tail holds no such character, and without the character the result is `("", "", s)` |
| PyStrings.Strip | getimg.py:88 | `strip(' ')`: the result is `s` with only spaces cut off its two ends, it has no space at either end, and a value without outer spaces is kept |
| PyStrings.SplitJoin | getimg.py:84 | splitting a join on a non-overlapping separator gives back the parts, when no part contains it |
| PyStrings.Join | getimg.py:59 | `sep.join(parts)`; `SplitJoin` proves that `split` undoes it for the separators used here |
| HttpHeader.UpperChar | getimg.py:69-72 | a lower-case letter becomes its upper-case letter, 'A'..'Y' are kept, 'Z' becomes ':' |
| HttpHeader.Validate | getimg.py:62-65 | a segment is accepted exactly when every character is in [A-Za-z0-9] and a non-empty segment starts with a letter; a refused one raises KeyError |
| HttpHeader.UpperFirst | getimg.py:68-73 | IndexError exactly for the empty segment; otherwise only the first character is rewritten |
| HttpHeader.ConvertSegment | getimg.py:50-54 | `upper_first(validate(seg))` succeeds exactly for an accepted segment, and fails with that segment's error |
| HttpHeader.CanonSegments | getimg.py:55-57 | every segment converted in order; ok exactly when all are accepted, otherwise the error of the first refused segment |
| HttpHeader.Camel | getimg.py:46-59 | the loop of `camel` computes the canonical name or the first segment's error |
| HttpHeader.Canonical | getimg.py:46-59 | `camel` as a value: accepted exactly when every '-'-separated segment is accepted; `HeaderNames` characterises it character by character |
| HttpHeader.Lookup | getimg.py:79 | a value is found exactly when the name is stored, and it is a value stored under that name |
| HttpHeader.LookupDistinct | getimg.py:79 | with no name stored twice, every stored entry is what its name reads |
| HttpHeader.Put | getimg.py:76 | the dict store: the new entry is present, and the store grows by one exactly when the name was new (`KeysPut`, `LookupPut` and `PutPut` say where and what the other names read) |
| HttpHeader.LookupPut | getimg.py:76 | after a store, that name reads the new value and every other name reads as before |
| HttpHeader.KeysPut | getimg.py:76 | a store keeps the order of names; a new name goes last |
| HttpHeader.PutDistinct | getimg.py:76 | stores keep names distinct |
| HttpHeader.PutPut | getimg.py:76 | a second store under a name replaces the first |
| HttpHeader.SetThenGet | getimg.py:75-79 | a value stored under one spelling is read back under any spelling with the same canonical name |
| HttpHeader.SetOther | getimg.py:75-79 | storing under one name leaves the reads of every other canonical name unchanged |
| HttpHeader.SetTwice | getimg.py:75-76 | a later store under the same canonical name overwrites in place |
| HttpHeader.Header.constructor | getimg.py:83 | a new header is empty |
| HttpHeader.Header.Set | getimg.py:75-76 | the entries become the stored ones, the names stay distinct, and a refused name raises its error and stores nothing |
| HttpHeader.Stored | getimg.py:75-76 | the entries after `__setitem__`: the dict store under the canonical name, or no change for a refused name; `SetThenGet`, `SetOther` and `SetTwice` state what it reads back |
| HttpHeader.Header.Get | getimg.py:78-79 | the value of the canonical name; ok exactly when the name is accepted and stored, KeyError for a missing one |
| HttpHeader.Fetch | getimg.py:78-79 | `__getitem__` as a value: the canonicalisation error, KeyError for a missing name, or the stored value; `SetThenGet` and `SetOther` relate it to `Stored` |
| HttpHeader.Header.Dump | getimg.py:93-105 | `Host` first when asked for and stored, then every other entry in insertion order, as `Name: value` lines joined by CRLF |
| HttpHeader.DumpLines | getimg.py:93-105 | the lines `dump` joins; `HostLines` and `DumpedEntries` give their `Host`-first shape and `DumpParseRoundTrip` proves `parseFrom` inverts them |
| HttpHeader.ParseFrom | getimg.py:82-91 | every CRLF-separated piece is split at its first ": " and stored with its stripped value; a refused name is skipped |
| HttpHeader.Step | getimg.py:86-90 | one iteration of the `parseFrom` loop: store the piece's entry or skip it; `ParseOneLine` relates it to one framed line |
| HttpHeader.ParsePieces | getimg.py:85-90 | the loop over the pieces in order; `ParsePiecesKeeps`, `ParsePiecesKeysPrefix`, `ParsePiecesDistinct` and `ParseLinesThen` characterise it |
| HttpHeader.ParseInto | getimg.py:82-91 | `parseFrom(content, header)` as a value; `ParseIntoKeeps`, `EmptyDump`, `ParseDumped` and `DumpParseRoundTrip` are stated about it |
| HttpHeader.ParseFromNew | getimg.py:82-83 | without a header given, a new one is filled |
| HeaderNames.SingleSegment | getimg.py:62-73 | a segment without '-' is accepted exactly when it is a well-formed name |
| HeaderNames.JoinedSegments | getimg.py:48-59 | a '-'-joined name is well formed exactly when all its segments are accepted |
| HeaderNames.CanonicalAccepts | getimg.py:46-73 | `camel` accepts exactly the names made of [A-Za-z0-9-] with a letter at the start and after every '-'; a refused name raises the error of its first refused segment |
| HeaderNames.CanonicalShape | getimg.py:46-73 | the canonical name has the original's length, and its segments are the capitalised segments of the original |
| HeaderNames.CanonicalIdempotent | getimg.py:46-73 | canonicalising a canonical name again changes nothing when no segment started with 'z' or 'Z' |
| HeaderNames.CanonicalOfSegments | getimg.py:46-59 | the canonical form of a name joined from accepted segments is the join of their capitalised forms |
| HeaderNames.EmptyName | getimg.py:69 | the empty name raises IndexError |
| HeaderNames.CaseFolding | getimg.py:46-73 | `content-type` and `Content-Type` are the same key, `CONTENT-TYPE` is another |
| HeaderNames.ZQuirk | getimg.py:70-72 | `zone` becomes `Zone`, `Zone` becomes `:one`, a name `camel` refuses |
| HeaderRoundTrip.ParseLineAtSeparator | getimg.py:87-88 | a piece is split at its first ": " and the value is stripped |
| HttpHeader.ParseLine | getimg.py:87-88 | one piece of `parseFrom`: the entry it stores, or none when the name is refused; `ParseLineAtSeparator`, `ParseLineWithoutSeparator`, `ParseLineEmpty` and `EntryLineParses` pin it down |
| HeaderRoundTrip.ParseLineWithoutSeparator | getimg.py:87-88 | a piece without ": " is the name, stored with the empty value |
| HeaderRoundTrip.ParseLineEmpty | getimg.py:84-90 | the empty piece after a trailing CRLF is skipped |
| HeaderRoundTrip.ParsePiecesKeeps | getimg.py:85-90 | pieces that do not produce a name leave its value as it was |
| HeaderRoundTrip.ParsePiecesKeysPrefix | getimg.py:85-90 | parsing never removes or reorders stored names |
| HeaderRoundTrip.ParsePiecesDistinct | getimg.py:85-90 | parsing keeps the names distinct |
| HeaderRoundTrip.ParseIntoKeeps | getimg.py:82-91 | `parseFrom` into a header keeps every entry no piece overwrites, and every name's position |
| HeaderRoundTrip.EntryLineParses | getimg.py:87-88 | a line `dump` writes for an entry with a canonical name and a value without outer spaces or CRLF parses back to that entry |
| HeaderRoundTrip.ParseLinesThen | getimg.py:84-90 | parsing the lines of such entries stores exactly those entries, in order |
| HeaderRoundTrip.OthersLookup | getimg.py:102-104 | the entries dumped after the required ones hold every name except `Host`, with its value |
| HeaderRoundTrip.OthersFrom | getimg.py:102-104 | those entries come from the header, without required names, and stay distinct |
| HeaderRoundTrip.HostLines | getimg.py:95-101 | the required part of `dump(True)` is the `Host` line when `Host` is stored and nothing otherwise |
| HeaderRoundTrip.LinesSurviveFraming | getimg.py:84 | lines without CRLF come back from joining and splitting on CRLF |
| HeaderRoundTrip.EmptyDump | getimg.py:84-105 | an empty dump parses to an empty header |
| HeaderRoundTrip.DumpedEntries | getimg.py:93-105 | the dumped lines are the lines of `Host` (when asked for and stored) followed by the lines of the other entries |
| HeaderRoundTrip.ParseDumped | getimg.py:82-105 | parsing a dump stores the dumped entries in the order they were dumped |
| HeaderRoundTrip.DumpParseRoundTrip | getimg.py:82-105 | `parseFrom(dump(req))` reads every name as the dumped header does, except `Host` after `dump(False)` |
| HttpUrl.ExtractUrl | getimg.py:117-124 | the loop over `protos` returns the text after the first scheme marker found, trying `http` then `https`, or the URL and `http` |
| HttpUrl.ExtractFrom | getimg.py:117-124 | `extract_url` as a value, trying the schemes in order; `ExtractCases` gives its three outcomes and `ExtractUrlRoundTrip`/`ExtractUrlBare` its inverse and its fallback |
| HttpUrl.ExtractCases | getimg.py:117-124 | the three outcomes: after the first `http://`; else after the first `https://`; else the whole URL as `http` |
| HttpUrl.HttpsHidesHttp | getimg.py:118-121 | `https://` followed by text without `http://` contains no `http://` |
| HttpUrl.ExtractUrlRoundTrip | getimg.py:117-124 | a marker put in front of a remainder is taken off again, with its scheme |
| HttpUrl.ExtractUrlBare | getimg.py:124 | an address without ':' is kept whole and taken as `http` |
| HttpUrl.HostPart | getimg.py:131 | `url.split('/')[0]` is the longest prefix without '/' |
| HttpUrl.HostPartIsFirstPiece | getimg.py:131 | that prefix is the first piece of the split |
| HttpUrl.SplitHostShape | getimg.py:131-137 | the host is a prefix of the URL without '/'; the path is "/" or the rest of the URL; the default port exactly when the host part has no ':'; otherwise the port is the text after its last ':' |
| HttpUrl.SplitHost | getimg.py:131-137 | host, port and path from what `extract_url` left; `SplitHostShape`, `SplitHostDefault` and `SplitHostExplicit` give its shape and closed forms |
| HttpUrl.SplitHostDefault | getimg.py:131-137 | without a port, host and path are the URL's two halves and the port is the scheme's default |
| HttpUrl.SplitHostExplicit | getimg.py:131-137 | with a port, the port is its text and the path starts with ":port" |
| HttpUrl.PortStaysInPath | getimg.py:131-137 | "example.com:8080/x" gives host "example.com", port "8080" and path ":8080/x" |
| HttpUrl.ExtractExamples | getimg.py:117-124 | "https://example.com/a" gives ("example.com/a", https); "example.com/a" gives ("example.com/a", http) |
| HttpUrl.DefaultPortExample | getimg.py:131-137 | "example.com/x" goes to port 80 for "/x" |
| HttpClient.Decode | getimg.py:168 | `got.decode()` keeps the length and maps each byte to the character of that code |
| HttpClient.DecodeEncode | getimg.py:168 | decoding what was written one byte per character gives the text back |
| HttpClient.ParseInt | getimg.py:171 | `int()` succeeds exactly on an optional sign followed by digits; digits alone give a non-negative number |
| HttpClient.ParseDecimal | getimg.py:171 | `int(str(n))` is n, also with a '+' in front, and '-' gives -n |
| HttpClient.LeadingZero | getimg.py:171 | leading zeros do not change the value |
| HttpClient.LineLength | getimg.py:160-164 | `readline()` takes everything through the first LF, or the rest of the stream when there is none |
| HttpClient.SetNew | getimg.py:142-145 | storing a name not yet present, given as its accepted segments, appends exactly the entry under the capitalised name and nothing else |
| HttpClient.PartsCanonical | getimg.py:142-145 | a name joined from accepted segments canonicalises to the join of their capitalised forms |
| HttpClient.SetHost | getimg.py:142 | `headers['host'] = host` on the empty header gives exactly the entry `Host` |
| HttpClient.SetUserAgent | getimg.py:143 | `headers['user-agent'] = ua` appends `User-Agent` after `Host` |
| HttpClient.SetAccept | getimg.py:144 | `headers['Accept'] = '*/*'` appends `Accept` |
| HttpClient.SetForwardedFor | getimg.py:145 | `headers['x-forwarded-for'] = "1.2.3.4"` appends `X-Forwarded-For`, completing the four entries in insertion order |
| HttpClient.RequestHeader | getimg.py:141-145 | a fresh header with the four stores holds `Host`, `User-Agent`, `Accept` and `X-Forwarded-For`, in that order |
| HttpClient.RequestDump | getimg.py:141-146 | the request header dumps as the `Host`, `User-Agent`, `Accept` and `X-Forwarded-For` lines, in that order |
| HttpClient.BuildRequest | getimg.py:140-147 | the request is `GET path HTTP/1.1`, CRLF, those four header lines joined by CRLF, and a blank line |
| HttpClient.RequestText | getimg.py:147 | the request text: `"GET " + path + " HTTP/1.1\r\n"`, the header lines joined by CRLF (the `Host`, `User-Agent`, `Accept`, `X-Forwarded-For` entries in dump order), then `"\r\n\r\n"`; `BuildRequest` produces it and `RequestDump` fixes the header lines in it |
| HttpClient.ReadHeaderBlock | getimg.py:163-168 | the header loop feeds each line to `parseFrom` until a bare CRLF, and hands back the bytes after it; it reports a stream that ends first |
| HttpClient.ReadHeaders | getimg.py:163-168 | the header loop as a value; `ReadFramed` and `ReadSentHeaders` give what it reads from a framed block |
| HttpClient.ReadBody | getimg.py:177-179 | the body is complete exactly when the stream holds the wanted bytes, and is then exactly that many bytes; otherwise all there was |
| HttpClient.ReadResponse | getimg.py:156-179 | status line, header loop, the two lookups and the body loop, computing `ResponseOf` |
| HttpClient.ResponseOf | getimg.py:156-179 | the outcome of `get` for the bytes the server sends; `ReadReply`, `WellFormedReply`, `ShortReply` and the abandon lemmas state it for every kind of reply |
| HttpClient.Finish | getimg.py:170-179 | the two lookups and the body loop once the header is read; `FinishComplete` gives exactly when it completes and with which body |
| HttpClient.FinishComplete | getimg.py:170-179 | the fetch completes exactly when both headers are stored, the length is an integer and that many bytes follow; the body is then exactly those bytes and the content type the stored one |
| HttpClient.MissingLengthAbandons | getimg.py:170-174 | without `Content-Length` the fetch is abandoned |
| HttpClient.MissingTypeAbandons | getimg.py:170-174 | with an integer length but no `Content-Type` the fetch is abandoned |
| HttpClient.BadLengthEscapes | getimg.py:171 | a length that is not an integer raises, before `Content-Type` is looked at |
| HttpClient.ExtraBytesIgnored | getimg.py:177-179 | bytes after the body change nothing |
| HttpClient.StatusLineIgnored | getimg.py:160 | the status line is read and never examined |
| HttpClient.ParseOneLine | getimg.py:168 | `parseFrom` of one line with its CRLF does what the line says |
| HttpClient.ReadFramed | getimg.py:163-168 | a block of lines ended by a bare CRLF is read up to that CRLF, each line parsed in order |
| HttpClient.ReadSentHeaders | getimg.py:163-168 | the header block a server sends for distinct, readable entries reads back as exactly those entries |
| HttpClient.ReadReply | getimg.py:156-179 | what the reader makes of a reply depends only on the entries sent and the body |
| HttpClient.HeaderBlockRead | getimg.py:156-179 | once the header block is read, the lookups and the body loop decide the outcome |
| HttpClient.WellFormedReply | getimg.py:156-179 | a reply with `Content-Type` and a `Content-Length` equal to its body's length is read completely: the headers as sent, that content type, exactly the body |
| HttpClient.ReplyWithoutLength | getimg.py:170-174 | a reply without `Content-Length` is abandoned |
| HttpClient.ReplyWithoutType | getimg.py:170-174 | a reply with a length but no `Content-Type` is abandoned |
| HttpClient.ShortReply | getimg.py:177-179 | a reply whose body is shorter than its length ends truncated, with the bytes there were |
| HttpClient.EncodeReply | getimg.py:156-179 | a reply written out as text is, byte for byte, the reply built from its parts |
| HttpClient.TextReply | getimg.py:156-179 | a well-formed reply written out as text is read completely |
| HttpClient.Get | getimg.py:127-179 | `get` parses the URL, builds the request for its host and path, uses TLS exactly for `https`, and reads the reply |

## Left out

- Networking: opening the connection, TLS, writing the request and the 10-second timeouts are not modelled; the reply is given as the sequence of bytes the server sends, and `Get` returns whether TLS would be used.
- The user agent is drawn at random from a fixed list; here it is a parameter.
- Processing the response afterwards (the extension lookup through `mimetypes` and writing the body to a file, lines 183-190) is not modelled.
- `loop_get` is not modelled: it calls `get` once per output name `prefix_0` … `prefix_{loop-1}` and sleeps between calls.
- The command line and `print_v` output are not modelled.
- HttpClient.ParseInt: accepts only an optional sign and decimal digits; the surrounding whitespace and underscores `int()` also accepts are not modelled.
- HttpClient.Decode: bytes are decoded one character per byte, which agrees with UTF-8 only on ASCII; a multi-byte sequence is not decoded and an invalid one does not raise.
- When the stream ends before the bare CRLF, `readline()` keeps returning an empty line and the source loops forever; the model reports this as `Unterminated` instead.
- HttpHeader.UpperFirst: modelled only on segments that passed `validate`, its only caller; what `chr` would make of other characters is not modelled.
- Requests are text; encoding characters beyond one byte (`to_send.encode()`) is not modelled.
