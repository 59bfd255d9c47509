/**
 * The header container `http_header` of getimg.py: name canonicalisation
 * (`camel`, `validate`, `upper_first`), an insertion-ordered store of
 * (name, value) entries (`__setitem__`, `__getitem__`), lenient parsing of
 * CRLF-separated `Name: value` text (`parseFrom`) and serialisation with
 * `Host` first (`dump`).
 */
module HttpHeader {
  import opened Wrappers
  import opened PyStrings

  const CRLF := "\r\n"
  const Host := "Host"

  /** `http_header.required_headers`: the names `dump` emits first on a request. */
  const Required: seq<string> := [Host]

  /** Why a name could not be canonicalised or looked up. */
  datatype HeaderError =
    | InvalidName   // `validate` raises KeyError
    | EmptySegment  // `upper_first` indexes an empty segment: IndexError
    | MissingKey    // the canonical name is not stored: KeyError

  /** One stored header: canonical name and value. */
  type Entry = (string, string)

  predicate IsLetter(c: char) { 'a' <= c <= 'z' || 'A' <= c <= 'Z' }

  predicate IsAlnum(c: char) { IsLetter(c) || '0' <= c <= '9' }

  // ---------------------------------------------------------------------
  // Canonicalisation
  // ---------------------------------------------------------------------

  /**
   * The first-character rewrite of `upper_first`. Its range test
   * `range(ord('A'), ord('Z'))` leaves out 'Z', so 'Z' is shifted like a
   * lower-case letter and becomes ':'.
   */
  function UpperChar(c: char): (u: char)
    requires IsLetter(c)
    ensures 'a' <= c <= 'z' ==> 'A' <= u <= 'Z' && u as int - 'A' as int == c as int - 'a' as int
    ensures 'A' <= c <= 'Y' ==> u == c
    ensures c == 'Z' ==> u == ':'
  {
    if 'A' <= c < 'Z' then c else (c as int - 32) as char
  }

  /** Every character is one of [A-Za-z0-9]. */
  predicate AlnumOnly(seg: string) {
    forall i :: 0 <= i < |seg| ==> IsAlnum(seg[i])
  }

  /**
   * `validate`: a segment is refused when it holds a character outside
   * [A-Za-z0-9] or when its first character is not a letter; the empty
   * segment passes.
   */
  function Validate(seg: string): (r: Result<string, HeaderError>)
    ensures r.Ok? <==> AlnumOnly(seg) && (|seg| > 0 ==> IsLetter(seg[0]))
    ensures r.Ok? ==> r.value == seg
    ensures r.Err? ==> r.error == InvalidName
  {
    if exists i :: 0 <= i < |seg| && !IsAlnum(seg[i]) then Err(InvalidName)
    else if |seg| > 0 && !IsLetter(seg[0]) then Err(InvalidName)
    else Ok(seg)
  }

  /**
   * `upper_first` on a segment that passed `validate` (its only caller
   * composes the two): the empty segment raises IndexError, otherwise the
   * first character is rewritten by `UpperChar` and the rest is kept.
   */
  function UpperFirst(seg: string): (r: Result<string, HeaderError>)
    requires Validate(seg).Ok?
    ensures r.Err? <==> seg == []
    ensures r.Err? ==> r.error == EmptySegment
    ensures r.Ok? ==> |r.value| == |seg| && r.value[0] == UpperChar(seg[0]) && r.value[1..] == seg[1..]
  {
    if |seg| == 0 then Err(EmptySegment)
    else Ok([UpperChar(seg[0])] + seg[1..])
  }

  /** A segment that survives both `validate` and `upper_first`. */
  predicate SegmentOk(seg: string) {
    |seg| > 0 && IsLetter(seg[0]) && AlnumOnly(seg)
  }

  /** What `upper_first` makes of an accepted segment. */
  function Capitalised(seg: string): string
    requires SegmentOk(seg)
  {
    [UpperChar(seg[0])] + seg[1..]
  }

  /** The error a refused segment raises. */
  function SegmentError(seg: string): HeaderError {
    if seg == [] then EmptySegment else InvalidName
  }

  /** Segment `j` is the first one that is refused. */
  predicate FirstRefused(segs: seq<string>, j: int) {
    0 <= j < |segs| && !SegmentOk(segs[j]) && forall i :: 0 <= i < j ==> SegmentOk(segs[i])
  }

  /** The inner `app` of `camel`: `upper_first(validate(seg))`. */
  function ConvertSegment(seg: string): (r: Result<string, HeaderError>)
    ensures r.Ok? <==> SegmentOk(seg)
    ensures r.Ok? ==> SegmentOk(seg) && r.value == Capitalised(seg)
    ensures r.Err? ==> r.error == SegmentError(seg)
  {
    match Validate(seg)
    case Err(e) => Err(e)
    case Ok(v) => UpperFirst(v)
  }

  /**
   * `camel`'s loop over the segments, as a function: every segment is
   * converted in order and the first refused one decides the error.
   */
  function CanonSegments(segs: seq<string>): (r: Result<seq<string>, HeaderError>)
    ensures r.Ok? <==> forall j :: 0 <= j < |segs| ==> SegmentOk(segs[j])
    ensures r.Ok? ==> (|r.value| == |segs| &&
      forall j :: 0 <= j < |segs| ==> SegmentOk(segs[j]) && r.value[j] == Capitalised(segs[j]))
    ensures r.Err? ==> exists j :: FirstRefused(segs, j) && r.error == SegmentError(segs[j])
  {
    if |segs| == 0 then Ok([])
    else
      match ConvertSegment(segs[0])
      case Err(e) =>
        assert FirstRefused(segs, 0);
        Err(e)
      case Ok(c) =>
        match CanonSegments(segs[1..])
        case Err(e) =>
          var j :| FirstRefused(segs[1..], j) && e == SegmentError(segs[1..][j]);
          assert FirstRefused(segs, j + 1);
          Err(e)
        case Ok(cs) => Ok([c] + cs)
  }

  /** `camel(key)` as a value: split on '-', convert each segment, rejoin with '-'. */
  function Canonical(key: string): Result<string, HeaderError>
  {
    match CanonSegments(Split(key, "-"))
    case Ok(cs) => Ok(Join(cs, "-"))
    case Err(e) => Err(e)
  }

  /** Prepends `out` to a successful result and passes errors through. */
  function Prefixed(out: seq<string>, r: Result<seq<string>, HeaderError>): Result<seq<string>, HeaderError>
  {
    match r
    case Ok(x) => Ok(out + x)
    case Err(e) => Err(e)
  }

  /** Prefixing twice is prefixing once with both. */
  lemma PrefixedTwice(a: seq<string>, b: seq<string>, r: Result<seq<string>, HeaderError>)
    ensures Prefixed(a, Prefixed(b, r)) == Prefixed(a + b, r)
  {
    if r.Ok? {
      assert a + (b + r.value) == (a + b) + r.value;
    }
  }

  /** One more converted segment moves from the remaining work to the output. */
  lemma CanonStep(segs: seq<string>, i: nat, output: seq<string>, u: string)
    requires i < |segs| && ConvertSegment(segs[i]) == Ok(u)
    requires CanonSegments(segs) == Prefixed(output, CanonSegments(segs[i..]))
    ensures CanonSegments(segs) == Prefixed(output + [u], CanonSegments(segs[i + 1..]))
  {
    var t := segs[i..];
    assert t[0] == segs[i] && t[1..] == segs[i + 1..];
    assert CanonSegments(t) == Prefixed([u], CanonSegments(t[1..]));
    PrefixedTwice(output, [u], CanonSegments(t[1..]));
  }

  /** A refused segment decides the error of the whole name. */
  lemma CanonStop(segs: seq<string>, i: nat, output: seq<string>, e: HeaderError)
    requires i < |segs| && ConvertSegment(segs[i]) == Err(e)
    requires CanonSegments(segs) == Prefixed(output, CanonSegments(segs[i..]))
    ensures CanonSegments(segs) == Err(e)
  {
    assert segs[i..][0] == segs[i];
  }

  /** Before the loop nothing is converted yet. */
  lemma CanonStart(segs: seq<string>)
    ensures CanonSegments(segs) == Prefixed([], CanonSegments(segs[0..]))
  {
    assert segs[0..] == segs;
    match CanonSegments(segs) {
      case Ok(x) => assert [] + x == x;
      case Err(_) =>
    }
  }

  /** After the loop every segment is converted. */
  lemma CanonDone(segs: seq<string>, output: seq<string>)
    requires CanonSegments(segs) == Prefixed(output, CanonSegments(segs[|segs|..]))
    ensures CanonSegments(segs) == Ok(output)
  {
    assert segs[|segs|..] == [];
    assert output + [] == output;
  }

  /** `http_header.camel`: builds the list of converted segments in a loop. */
  method Camel(key: string) returns (r: Result<string, HeaderError>)
    ensures r == Canonical(key)
  {
    var segs := Split(key, "-");
    var output: seq<string> := [];
    var i := 0;
    CanonStart(segs);
    while i < |segs|
      invariant 0 <= i <= |segs|
      invariant CanonSegments(segs) == Prefixed(output, CanonSegments(segs[i..]))
    {
      var v := Validate(segs[i]);
      if v.Err? {
        CanonStop(segs, i, output, v.error);
        return Err(v.error);
      }
      var u := UpperFirst(v.value);
      if u.Err? {
        CanonStop(segs, i, output, u.error);
        return Err(u.error);
      }
      CanonStep(segs, i, output, u.value);
      output := output + [u.value];
      i := i + 1;
    }
    CanonDone(segs, output);
    r := Ok(Join(output, "-"));
  }

  // ---------------------------------------------------------------------
  // The insertion-ordered store (a Python dict)
  // ---------------------------------------------------------------------

  /** The stored names, in insertion order. */
  function Keys(d: seq<Entry>): (ks: seq<string>)
    ensures |ks| == |d| && forall i :: 0 <= i < |d| ==> ks[i] == d[i].0
  {
    if d == [] then [] else [d[0].0] + Keys(d[1..])
  }

  /** No name is stored twice. */
  predicate Distinct(d: seq<Entry>) {
    d == [] || (d[0].0 !in Keys(d[1..]) && Distinct(d[1..]))
  }

  /** `self.data[k]`: the value stored under exactly the name `k`. */
  function Lookup(d: seq<Entry>, k: string): (r: Option<string>)
    ensures r.Some? <==> k in Keys(d)
    ensures r.Some? ==> (k, r.value) in d
  {
    if d == [] then None
    else if d[0].0 == k then Some(d[0].1)
    else Lookup(d[1..], k)
  }

  /** In a store without repeated names, the value of an entry is what its name reads. */
  lemma {:induction false} LookupDistinct(d: seq<Entry>, k: string, v: string)
    requires Distinct(d) && (k, v) in d
    ensures Lookup(d, k) == Some(v)
  {
    if d[0] != (k, v) {
      assert (k, v) in d[1..];
      LookupDistinct(d[1..], k, v);
    }
  }

  /**
   * `self.data[k] = v`: an existing name keeps its position and gets the
   * new value; a new name is appended.
   */
  function Put(d: seq<Entry>, k: string, v: string): (r: seq<Entry>)
    ensures (k, v) in r
    ensures |r| == if k in Keys(d) then |d| else |d| + 1
  {
    if d == [] then [(k, v)]
    else if d[0].0 == k then [(k, v)] + d[1..]
    else [d[0]] + Put(d[1..], k, v)
  }

  /** The entries after `header[key] = val`: unchanged when `key` is refused. */
  function Stored(d: seq<Entry>, key: string, val: string): seq<Entry>
  {
    match Canonical(key)
    case Ok(k) => Put(d, k, val)
    case Err(_) => d
  }

  /** The value of `header[key]`, or the error it raises. */
  function Fetch(d: seq<Entry>, key: string): Result<string, HeaderError>
  {
    match Canonical(key)
    case Err(e) => Err(e)
    case Ok(k) =>
      match Lookup(d, k)
      case Some(v) => Ok(v)
      case None => Err(MissingKey)
  }

  lemma {:induction false} LookupPut(d: seq<Entry>, k: string, v: string, k': string)
    ensures Lookup(Put(d, k, v), k') == if k' == k then Some(v) else Lookup(d, k')
  {
    if d != [] && d[0].0 != k {
      LookupPut(d[1..], k, v, k');
    }
  }

  /** Overwriting keeps the insertion order; a new name goes last. */
  lemma {:induction false} KeysPut(d: seq<Entry>, k: string, v: string)
    ensures Keys(Put(d, k, v)) == if k in Keys(d) then Keys(d) else Keys(d) + [k]
  {
    if d != [] && d[0].0 != k {
      KeysPut(d[1..], k, v);
      assert Keys(d) == [d[0].0] + Keys(d[1..]);
    }
  }

  lemma PutDistinct(d: seq<Entry>, k: string, v: string)
    requires Distinct(d)
    ensures Distinct(Put(d, k, v))
  {
    if d != [] && d[0].0 != k {
      PutDistinct(d[1..], k, v);
      KeysPut(d[1..], k, v);
    }
  }

  /** A second store under the same name replaces the value in place. */
  lemma {:induction false} PutPut(d: seq<Entry>, k: string, v1: string, v2: string)
    ensures Put(Put(d, k, v1), k, v2) == Put(d, k, v2)
  {
    if d != [] && d[0].0 != k {
      PutPut(d[1..], k, v1, v2);
    }
  }

  /** Storing under one spelling and reading under another with the same canonical form gives the value back. */
  lemma SetThenGet(d: seq<Entry>, k1: string, k2: string, v: string)
    requires Canonical(k1).Ok? && Canonical(k2) == Canonical(k1)
    ensures Fetch(Stored(d, k1, v), k2) == Ok(v)
  {
    LookupPut(d, Canonical(k1).value, v, Canonical(k1).value);
  }

  /** Storing under one name leaves every other canonical name as it was. */
  lemma SetOther(d: seq<Entry>, k1: string, k2: string, v: string)
    requires Canonical(k1).Ok? && Canonical(k2).Ok? && Canonical(k2) != Canonical(k1)
    ensures Fetch(Stored(d, k1, v), k2) == Fetch(d, k2)
  {
    LookupPut(d, Canonical(k1).value, v, Canonical(k2).value);
  }

  /** A later store under the same canonical name overwrites the value and keeps the position. */
  lemma SetTwice(d: seq<Entry>, k1: string, k2: string, v1: string, v2: string)
    requires Canonical(k1).Ok? && Canonical(k2) == Canonical(k1)
    ensures Stored(Stored(d, k1, v1), k2, v2) == Stored(d, k1, v2)
    ensures Keys(Stored(Stored(d, k1, v1), k2, v2)) == Keys(Stored(d, k1, v1))
  {
    var k := Canonical(k1).value;
    PutPut(d, k, v1, v2);
    KeysPut(d, k, v1);
    KeysPut(d, k, v2);
  }

  // ---------------------------------------------------------------------
  // parseFrom and dump, as functions
  // ---------------------------------------------------------------------

  /**
   * The body of `parseFrom`'s loop for one piece: split at the first ": ",
   * strip spaces from the value, and skip the piece when its name is refused.
   */
  function ParseLine(piece: string): Option<Entry>
  {
    var (key, _, val) := Partition(piece, ": ");
    match Canonical(key)
    case Ok(k) => Some((k, Strip(val)))
    case Err(_) => None
  }

  function Step(d: seq<Entry>, piece: string): seq<Entry>
  {
    match ParseLine(piece)
    case Some(e) => Put(d, e.0, e.1)
    case None => d
  }

  /** The pieces applied in order, left to right. */
  function ParsePieces(d: seq<Entry>, pieces: seq<string>): seq<Entry>
    decreases |pieces|
  {
    if pieces == [] then d else ParsePieces(Step(d, pieces[0]), pieces[1..])
  }

  /** What `parseFrom(content, header)` leaves in a header that held `d`. */
  function ParseInto(d: seq<Entry>, content: string): seq<Entry>
  {
    ParsePieces(d, Split(content, CRLF))
  }

  function EntryLine(e: Entry): string { e.0 + ": " + e.1 }

  /** One `Name: value` line per entry. */
  function Lines(es: seq<Entry>): (ls: seq<string>)
    ensures |ls| == |es| && forall i :: 0 <= i < |es| ==> ls[i] == EntryLine(es[i])
  {
    if es == [] then [] else [EntryLine(es[0])] + Lines(es[1..])
  }

  /** The entries whose names are not in `Required`, in order. */
  function Others(d: seq<Entry>): seq<Entry>
  {
    if d == [] then []
    else if d[0].0 !in Required then [d[0]] + Others(d[1..])
    else Others(d[1..])
  }

  /** The required names that are stored, each as a line, in the order of `hs`. */
  function RequiredLines(d: seq<Entry>, hs: seq<string>): seq<string>
  {
    if hs == [] then []
    else
      (match Lookup(d, hs[0]) case Some(v) => [EntryLine((hs[0], v))] case None => [])
      + RequiredLines(d, hs[1..])
  }

  /** The lines `dump(req)` joins with CRLF. */
  function DumpLines(d: seq<Entry>, req: bool): seq<string>
  {
    (if req then RequiredLines(d, Required) else []) + Lines(Others(d))
  }

  // ---------------------------------------------------------------------
  // The container object
  // ---------------------------------------------------------------------

  /** `http_header`: a dict from canonical names to values, in insertion order. */
  class Header {
    var data: seq<Entry>

    ghost predicate Valid()
      reads this
    {
      Distinct(data)
    }

    constructor ()
      ensures Valid() && data == []
    {
      data := [];
    }

    /** `__setitem__`: canonicalise the name, then store; a refused name raises and stores nothing. */
    method Set(key: string, val: string) returns (r: Outcome<HeaderError>)
      requires Valid()
      modifies this
      ensures Valid()
      ensures data == Stored(old(data), key, val)
      ensures r == match Canonical(key) case Ok(_) => Pass case Err(e) => Fail(e)
    {
      var k := Camel(key);
      match k
      case Ok(name) =>
        PutDistinct(data, name, val);
        data := Put(data, name, val);
        r := Pass;
      case Err(e) =>
        r := Fail(e);
    }

    /** `__getitem__`: canonicalise the name, then look it up. */
    method Get(key: string) returns (r: Result<string, HeaderError>)
      ensures r == Fetch(data, key)
      ensures r.Ok? <==> Canonical(key).Ok? && Canonical(key).value in Keys(data)
      ensures r.Err? && Canonical(key).Ok? ==> r.error == MissingKey
    {
      var k := Camel(key);
      match k
      case Err(e) =>
        r := Err(e);
      case Ok(name) =>
        var v := Lookup(data, name);
        r := if v.Some? then Ok(v.value) else Err(MissingKey);
    }

    /**
     * `dump(req)`: with `req`, the required names first (those present),
     * then every other entry in insertion order, joined by CRLF with no
     * trailing CRLF.
     */
    method Dump(req: bool) returns (s: string)
      ensures s == Join(DumpLines(data, req), CRLF)
    {
      var output: seq<string> := [];
      if req {
        var j := 0;
        while j < |Required|
          invariant 0 <= j <= |Required|
          invariant output + RequiredLines(data, Required[j..]) == RequiredLines(data, Required)
        {
          assert Required[j..][0] == Required[j] && Required[j..][1..] == Required[j + 1..];
          var h := Required[j];
          var v := Lookup(data, h);
          if v.Some? {
            output := output + [EntryLine((h, v.value))];
          }
          j := j + 1;
        }
        assert Required[j..] == [];
      }
      assert output == if req then RequiredLines(data, Required) else [];
      var i := 0;
      while i < |data|
        invariant 0 <= i <= |data|
        invariant output + Lines(Others(data[i..])) == DumpLines(data, req)
      {
        assert data[i..][0] == data[i] && data[i..][1..] == data[i + 1..];
        var (k, v) := data[i];
        if k !in Required {
          output := output + [EntryLine((k, v))];
        }
        i := i + 1;
      }
      assert data[i..] == [];
      assert output + [] == output;
      s := Join(output, CRLF);
    }
  }

  /**
   * `http_header.parseFrom(content, header)`: every CRLF-separated piece is
   * split at its first ": " and stored with its value stripped of spaces;
   * any error raised for a piece is swallowed.
   */
  method ParseFrom(content: string, header: Header)
    requires header.Valid()
    modifies header
    ensures header.Valid()
    ensures header.data == ParseInto(old(header.data), content)
  {
    var datas := Split(content, CRLF);
    var i := 0;
    while i < |datas|
      invariant 0 <= i <= |datas|
      invariant header.Valid()
      invariant ParsePieces(header.data, datas[i..]) == ParseInto(old(header.data), content)
    {
      assert datas[i..][0] == datas[i] && datas[i..][1..] == datas[i + 1..];
      var (key, _, val) := Partition(datas[i], ": ");
      var _ := header.Set(key, Strip(val));
      i := i + 1;
    }
    assert datas[i..] == [];
  }

  /** `http_header.parseFrom(content)` with no header given: a fresh one is filled. */
  method ParseFromNew(content: string) returns (header: Header)
    ensures fresh(header) && header.Valid()
    ensures header.data == ParseInto([], content)
  {
    header := new Header();
    ParseFrom(content, header);
  }
}
