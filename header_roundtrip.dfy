/**
 * What `parseFrom` does with each piece, what it keeps, and that it reads
 * back what `dump` writes.
 */
module HeaderRoundTrip {
  import opened Wrappers
  import opened PyStrings
  import opened HttpHeader
  import opened HeaderNames

  // ---------------------------------------------------------------------
  // parseFrom, piece by piece
  // ---------------------------------------------------------------------

  /** A piece with a ": " is split at its first one and the value is stripped of spaces. */
  lemma ParseLineAtSeparator(name: string, raw: string)
    requires !Contains(name, ": ")
    ensures ParseLine(name + ": " + raw) ==
      match Canonical(name) case Ok(k) => Some((k, Strip(raw))) case Err(_) => None
  {
    var t := name + ": " + raw;
    SeparatorsDoNotOverlap();
    FirstOccurrence(name, ": ", raw);
    assert t[..|name|] == name && t[|name| + 2..] == raw;
  }

  /** A piece without ": " is taken whole as the name and stored with the empty value. */
  lemma ParseLineWithoutSeparator(piece: string)
    requires !Contains(piece, ": ")
    ensures ParseLine(piece) ==
      match Canonical(piece) case Ok(k) => Some((k, "")) case Err(_) => None
  {
  }

  /** The empty piece (what follows a trailing CRLF) is skipped. */
  lemma ParseLineEmpty()
    ensures ParseLine("") == None
  {
    EmptyName();
  }

  lemma StepKeeps(d: seq<Entry>, piece: string, k: string)
    requires ParseLine(piece).Some? ==> ParseLine(piece).value.0 != k
    ensures Lookup(Step(d, piece), k) == Lookup(d, k)
  {
    match ParseLine(piece) {
      case Some(e) => LookupPut(d, e.0, e.1, k);
      case None =>
    }
  }

  lemma StepKeys(d: seq<Entry>, piece: string)
    ensures Keys(d) <= Keys(Step(d, piece))
  {
    match ParseLine(piece) {
      case Some(e) => KeysPut(d, e.0, e.1);
      case None =>
    }
  }

  lemma StepDistinct(d: seq<Entry>, piece: string)
    requires Distinct(d)
    ensures Distinct(Step(d, piece))
  {
    match ParseLine(piece) {
      case Some(e) => PutDistinct(d, e.0, e.1);
      case None =>
    }
  }

  /** Pieces that do not produce the name `k` leave its entry as it was. */
  lemma {:induction false} ParsePiecesKeeps(d: seq<Entry>, pieces: seq<string>, k: string)
    requires forall i :: 0 <= i < |pieces| && ParseLine(pieces[i]).Some? ==> ParseLine(pieces[i]).value.0 != k
    ensures Lookup(ParsePieces(d, pieces), k) == Lookup(d, k)
    decreases |pieces|
  {
    if pieces != [] {
      var d' := Step(d, pieces[0]);
      StepKeeps(d, pieces[0], k);
      assert forall i :: 0 <= i < |pieces[1..]| ==> pieces[1..][i] == pieces[i + 1];
      ParsePiecesKeeps(d', pieces[1..], k);
    }
  }

  /** Parsing never removes or reorders the names already stored. */
  lemma {:induction false} ParsePiecesKeysPrefix(d: seq<Entry>, pieces: seq<string>)
    ensures Keys(d) <= Keys(ParsePieces(d, pieces))
    decreases |pieces|
  {
    if pieces != [] {
      var d' := Step(d, pieces[0]);
      StepKeys(d, pieces[0]);
      ParsePiecesKeysPrefix(d', pieces[1..]);
    }
  }

  /** Parsing keeps the names distinct. */
  lemma {:induction false} ParsePiecesDistinct(d: seq<Entry>, pieces: seq<string>)
    requires Distinct(d)
    ensures Distinct(ParsePieces(d, pieces))
    decreases |pieces|
  {
    if pieces != [] {
      var d' := Step(d, pieces[0]);
      StepDistinct(d, pieces[0]);
      ParsePiecesDistinct(d', pieces[1..]);
    }
  }

  /**
   * `parseFrom(content, header)` keeps every entry of `header` that no piece
   * of `content` overwrites, and every name keeps its position.
   */
  lemma ParseIntoKeeps(d: seq<Entry>, content: string, k: string)
    requires forall i :: 0 <= i < |Split(content, CRLF)| && ParseLine(Split(content, CRLF)[i]).Some? ==>
      ParseLine(Split(content, CRLF)[i]).value.0 != k
    ensures Lookup(ParseInto(d, content), k) == Lookup(d, k)
    ensures Keys(d) <= Keys(ParseInto(d, content))
  {
    ParsePiecesKeeps(d, Split(content, CRLF), k);
    ParsePiecesKeysPrefix(d, Split(content, CRLF));
  }

  // ---------------------------------------------------------------------
  // dump, then parseFrom
  // ---------------------------------------------------------------------

  /**
   * An entry `dump` writes and `parseFrom` reads back unchanged: its name is
   * its own canonical form, and its value has no outer spaces and no CRLF.
   */
  predicate EntrySafe(e: Entry) {
    Canonical(e.0) == Ok(e.0) && NoOuterSpaces(e.1) && !Contains(e.1, CRLF)
  }

  predicate AllSafe(d: seq<Entry>) {
    forall i :: 0 <= i < |d| ==> EntrySafe(d[i])
  }

  /** A canonical name holds only [A-Za-z0-9-]. */
  lemma CanonicalChars(k: string)
    requires Canonical(k).Ok?
    ensures forall i :: 0 <= i < |k| ==> IsAlnum(k[i]) || k[i] == '-'
  {
    CanonicalAccepts(k);
  }

  lemma EntryLineParses(e: Entry)
    requires EntrySafe(e)
    ensures ParseLine(EntryLine(e)) == Some(e)
  {
    CanonicalChars(e.0);
    MissingFirstChar(e.0, ": ");
    ParseLineAtSeparator(e.0, e.1);
  }

  lemma EntryLineHasNoCRLF(e: Entry)
    requires EntrySafe(e)
    ensures !Contains(EntryLine(e), CRLF)
  {
    CanonicalChars(e.0);
    var t := EntryLine(e);
    var n := |e.0| + 2;
    assert t == e.0 + ": " + e.1;
    forall m | 0 <= m <= |t| ensures !OccursAt(t, CRLF, m) {
      if m + 2 <= |t| {
        if m < n {
          assert t[m..m + 2][0] == t[m];
          assert t[m] != '\r';
        } else {
          assert t[m..m + 2] == e.1[m - n..m - n + 2];
          assert !OccursAt(e.1, CRLF, m - n);
        }
      }
    }
  }

  lemma AllSafeTail(d: seq<Entry>)
    requires d != [] && AllSafe(d)
    ensures EntrySafe(d[0]) && AllSafe(d[1..])
  {
    forall i | 0 <= i < |d[1..]| ensures EntrySafe(d[1..][i]) {
      assert d[1..][i] == d[i + 1];
    }
  }

  /** The entries stored one after the other, as `__setitem__` would. */
  function PutAll(acc: seq<Entry>, es: seq<Entry>): seq<Entry>
    decreases |es|
  {
    if es == [] then acc else PutAll(Put(acc, es[0].0, es[0].1), es[1..])
  }

  lemma {:induction false} PutAllLookup(acc: seq<Entry>, es: seq<Entry>, k: string)
    requires Distinct(es)
    ensures Lookup(PutAll(acc, es), k) == if k in Keys(es) then Lookup(es, k) else Lookup(acc, k)
    decreases |es|
  {
    if es != [] {
      PutAllLookup(Put(acc, es[0].0, es[0].1), es[1..], k);
      LookupPut(acc, es[0].0, es[0].1, k);
      assert Keys(es) == [es[0].0] + Keys(es[1..]);
    }
  }

  lemma ConsAppend(x: string, a: seq<string>, b: seq<string>)
    ensures ([x] + a) + b == [x] + (a + b)
  {
  }

  lemma ParsePiecesCons(acc: seq<Entry>, piece: string, pieces: seq<string>)
    ensures ParsePieces(acc, [piece] + pieces) == ParsePieces(Step(acc, piece), pieces)
  {
    assert ([piece] + pieces)[1..] == pieces;
  }

  lemma StepParsed(acc: seq<Entry>, piece: string, e: Entry)
    requires ParseLine(piece) == Some(e)
    ensures Step(acc, piece) == Put(acc, e.0, e.1)
  {
  }

  /** A first line that parses back to its entry stores exactly that entry. */
  lemma LinesHead(acc: seq<Entry>, es: seq<Entry>, rest: seq<string>)
    requires es != [] && ParseLine(EntryLine(es[0])) == Some(es[0])
    ensures ParsePieces(acc, Lines(es) + rest) ==
      ParsePieces(Put(acc, es[0].0, es[0].1), Lines(es[1..]) + rest)
  {
    var l := EntryLine(es[0]);
    var tail := Lines(es[1..]);
    assert Lines(es) == [l] + tail;
    ConsAppend(l, tail, rest);
    ParsePiecesCons(acc, l, tail + rest);
    StepParsed(acc, l, es[0]);
  }

  /** Parsing the lines of safe entries stores exactly those entries, in order, then goes on. */
  lemma {:induction false} ParseLinesThen(acc: seq<Entry>, es: seq<Entry>, rest: seq<string>)
    requires AllSafe(es)
    ensures ParsePieces(acc, Lines(es) + rest) == ParsePieces(PutAll(acc, es), rest)
    decreases |es|
  {
    if es == [] {
      assert Lines(es) + rest == rest;
    } else {
      AllSafeTail(es);
      EntryLineParses(es[0]);
      LinesHead(acc, es, rest);
      ParseLinesThen(Put(acc, es[0].0, es[0].1), es[1..], rest);
    }
  }

  lemma {:induction false} OthersLookup(d: seq<Entry>, k: string)
    ensures Lookup(Others(d), k) == if k in Required then None else Lookup(d, k)
  {
    if d != [] {
      OthersLookup(d[1..], k);
    }
  }

  /** `Others(d)` is a sub-sequence of `d` without the required names. */
  lemma {:induction false} OthersFrom(d: seq<Entry>)
    ensures forall i :: 0 <= i < |Others(d)| ==> Others(d)[i] in d && Others(d)[i].0 !in Required
    ensures forall x :: x in Keys(Others(d)) ==> x in Keys(d)
    ensures Distinct(d) ==> Distinct(Others(d))
  {
    OthersEntries(d);
    OthersKeys(d);
    if Distinct(d) {
      OthersDistinct(d);
    }
  }

  lemma {:induction false} OthersEntries(d: seq<Entry>)
    ensures forall i :: 0 <= i < |Others(d)| ==> Others(d)[i] in d && Others(d)[i].0 !in Required
  {
    if d != [] {
      OthersEntries(d[1..]);
      var o := Others(d[1..]);
      assert forall e :: e in d[1..] ==> e in d;
      if d[0].0 !in Required {
        assert Others(d) == [d[0]] + o;
        assert forall i :: 1 <= i < |Others(d)| ==> Others(d)[i] == o[i - 1];
      } else {
        assert Others(d) == o;
      }
    }
  }

  lemma {:induction false} OthersKeys(d: seq<Entry>)
    ensures forall x :: x in Keys(Others(d)) ==> x in Keys(d)
  {
    if d != [] {
      OthersKeys(d[1..]);
      var o := Others(d[1..]);
      assert Keys(d) == [d[0].0] + Keys(d[1..]);
      if d[0].0 !in Required {
        assert Others(d) == [d[0]] + o;
        assert Keys(Others(d)) == [d[0].0] + Keys(o);
      } else {
        assert Others(d) == o;
      }
    }
  }

  lemma {:induction false} OthersDistinct(d: seq<Entry>)
    requires Distinct(d)
    ensures Distinct(Others(d))
  {
    if d != [] {
      OthersDistinct(d[1..]);
      var o := Others(d[1..]);
      if d[0].0 !in Required {
        OthersKeys(d[1..]);
        assert Others(d) == [d[0]] + o;
        assert Others(d)[1..] == o;
      } else {
        assert Others(d) == o;
      }
    }
  }

  lemma OthersSafe(d: seq<Entry>)
    requires AllSafe(d)
    ensures AllSafe(Others(d))
  {
    OthersFrom(d);
  }

  lemma {:induction false} LookupSafe(d: seq<Entry>, k: string)
    requires AllSafe(d) && Lookup(d, k).Some?
    ensures EntrySafe((k, Lookup(d, k).value))
  {
    AllSafeTail(d);
    if d[0].0 != k {
      LookupSafe(d[1..], k);
    }
  }

  lemma HostCanonical()
    ensures Canonical(Host) == Ok(Host)
  {
    CanonicalSingle(Host, Host);
  }

  /** `dump(True)` writes `Host` first when it is stored, and nothing else from `Required`. */
  lemma HostLines(d: seq<Entry>)
    ensures RequiredLines(d, Required) ==
      match Lookup(d, Host) case Some(v) => [EntryLine((Host, v))] case None => []
  {
    assert Required[0] == Host && Required[1..] == [];
    assert RequiredLines(d, Required[1..]) == [];
  }

  lemma LinesHaveNoCRLF(es: seq<Entry>)
    requires AllSafe(es)
    ensures forall i :: 0 <= i < |Lines(es)| ==> !Contains(Lines(es)[i], CRLF)
  {
    forall i | 0 <= i < |Lines(es)| ensures !Contains(Lines(es)[i], CRLF) {
      EntryLineHasNoCRLF(es[i]);
    }
  }

  /** Lines without CRLF come back from joining and splitting on CRLF. */
  lemma LinesSurviveFraming(ls: seq<string>)
    requires |ls| >= 1 && forall i :: 0 <= i < |ls| ==> !Contains(ls[i], CRLF)
    ensures Split(Join(ls, CRLF), CRLF) == ls
  {
    SeparatorsDoNotOverlap();
    SplitJoin(ls, CRLF);
  }

  /** Dumping nothing gives "", which parses to nothing. */
  lemma EmptyDump()
    ensures ParseInto([], Join([], CRLF)) == []
  {
    assert Split("", CRLF) == [""] by {
      MissingFirstChar("", CRLF);
    }
    ParseLineEmpty();
    assert ParsePieces([], [""]) == ParsePieces([], []);
  }

  /** The entries `dump(req)` writes before the others: `Host`, when asked for and stored. */
  function RequiredEntries(d: seq<Entry>, req: bool): (r: seq<Entry>)
    ensures |r| <= 1
  {
    if req && Lookup(d, Host).Some? then [(Host, Lookup(d, Host).value)] else []
  }

  lemma DumpedEntries(d: seq<Entry>, req: bool)
    requires AllSafe(d)
    ensures DumpLines(d, req) == Lines(RequiredEntries(d, req)) + Lines(Others(d))
    ensures AllSafe(RequiredEntries(d, req)) && Distinct(RequiredEntries(d, req))
  {
    HostLines(d);
    HostCanonical();
    var acc := RequiredEntries(d, req);
    if acc != [] {
      LookupSafe(d, Host);
      assert Keys(acc[1..]) == [];
    }
    assert Lines(acc) == if req then RequiredLines(d, Required) else [];
  }

  lemma FramingConcat(A: seq<string>, B: seq<string>)
    requires A + B != []
    requires forall i :: 0 <= i < |A| ==> !Contains(A[i], CRLF)
    requires forall i :: 0 <= i < |B| ==> !Contains(B[i], CRLF)
    ensures Split(Join(A + B, CRLF), CRLF) == A + B
  {
    var lines := A + B;
    assert forall i :: 0 <= i < |lines| ==> lines[i] == if i < |A| then A[i] else B[i - |A|];
    LinesSurviveFraming(lines);
  }

  /** The lines `dump` writes, framed and split again, store the dumped entries in order. */
  lemma ParseDumped(d: seq<Entry>, req: bool)
    requires AllSafe(d)
    ensures ParseInto([], Join(DumpLines(d, req), CRLF)) == PutAll(PutAll([], RequiredEntries(d, req)), Others(d))
  {
    var acc := RequiredEntries(d, req);
    var W := Others(d);
    DumpedEntries(d, req);
    OthersSafe(d);
    if Lines(acc) + Lines(W) == [] {
      EmptyDump();
      assert acc == [] && W == [];
    } else {
      LinesHaveNoCRLF(acc);
      LinesHaveNoCRLF(W);
      FramingConcat(Lines(acc), Lines(W));
      ParseLinesThen([], acc, Lines(W));
      ParseLinesThen(PutAll([], acc), W, []);
      assert Lines(W) + [] == Lines(W);
    }
  }

  /**
   * `parseFrom(dump(req))` holds the same name/value pairs as the header
   * that was dumped, except that `dump(False)` drops `Host`. This needs
   * every stored name to be its own canonical form (so no segment began with
   * 'z' or 'Z') and every value to lack outer spaces and CRLF.
   */
  lemma DumpParseRoundTrip(d: seq<Entry>, req: bool, k: string)
    requires Distinct(d) && AllSafe(d)
    ensures Lookup(ParseInto([], Join(DumpLines(d, req), CRLF)), k) ==
      if !req && k in Required then None else Lookup(d, k)
  {
    var acc := RequiredEntries(d, req);
    var W := Others(d);
    ParseDumped(d, req);
    DumpedEntries(d, req);
    OthersFrom(d);
    OthersLookup(d, k);
    PutAllLookup(PutAll([], acc), W, k);
    PutAllLookup([], acc, k);
    assert Required == [Host];
    if acc != [] {
      assert Keys(acc) == [Host];
    }
  }
}
