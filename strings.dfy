/**
 * The few Python `str` operations the client relies on: `find`, `split`,
 * `join`, `partition`, `rpartition` and `strip(' ')`, on `seq<char>`.
 * Separators are never empty in the client, so every operation asks for a
 * non-empty separator.
 */
module PyStrings {

  /** `sep` occurs in `s` starting at offset `i`. */
  predicate OccursAt(s: string, sep: string, i: int) {
    0 <= i && i + |sep| <= |s| && s[i..i + |sep|] == sep
  }

  /** Python's `sep in s`. */
  predicate Contains(s: string, sep: string) {
    exists i :: 0 <= i <= |s| && OccursAt(s, sep, i)
  }

  /** No proper suffix of `sep` is also a prefix of it, so two occurrences never overlap. */
  predicate NoSelfOverlap(sep: string) {
    forall k :: 0 < k < |sep| ==> sep[k..] != sep[..|sep| - k]
  }

  /** First occurrence of `sep` at or after `from`, or -1. */
  function IndexFrom(s: string, sep: string, from: nat): (r: int)
    requires |sep| > 0
    ensures r == -1 <==> forall i :: from <= i ==> !OccursAt(s, sep, i)
    ensures r != -1 ==> from <= r && OccursAt(s, sep, r)
    ensures r != -1 ==> forall i :: from <= i < r ==> !OccursAt(s, sep, i)
    decreases |s| - from
  {
    if from + |sep| > |s| then -1
    else if s[from..from + |sep|] == sep then assert OccursAt(s, sep, from); from
    else IndexFrom(s, sep, from + 1)
  }

  /** Python's `s.find(sep)`. */
  function IndexOf(s: string, sep: string): (r: int)
    requires |sep| > 0
    ensures r == -1 <==> !Contains(s, sep)
    ensures r != -1 ==> OccursAt(s, sep, r) && forall i :: 0 <= i < r ==> !OccursAt(s, sep, i)
  {
    IndexFrom(s, sep, 0)
  }

  /** Python's `sep.join(parts)`. */
  function Join(parts: seq<string>, sep: string): string
  {
    if |parts| == 0 then ""
    else if |parts| == 1 then parts[0]
    else parts[0] + sep + Join(parts[1..], sep)
  }

  /** Python's `s.split(sep)`: the pieces between occurrences, found left to right. */
  function Split(s: string, sep: string): (r: seq<string>)
    requires |sep| > 0
    ensures |r| >= 1
    ensures Join(r, sep) == s
    ensures forall j :: 0 <= j < |r| ==> !Contains(r[j], sep)
    decreases |s|
  {
    var i := IndexOf(s, sep);
    if i == -1 then [s]
    else
      PrefixBeforeFirst(s, sep, i);
      var rest := Split(s[i + |sep|..], sep);
      JoinAtOccurrence(s, sep, i, rest);
      [s[..i]] + rest
  }

  lemma JoinCons(p: string, parts: seq<string>, sep: string)
    requires parts != []
    ensures Join([p] + parts, sep) == p + sep + Join(parts, sep)
  {
    assert ([p] + parts)[1..] == parts;
  }

  /** A text is what comes before an occurrence of `sep`, `sep`, and what comes after it. */
  lemma AroundOccurrence(s: string, sep: string, i: int)
    requires OccursAt(s, sep, i)
    ensures s == s[..i] + sep + s[i + |sep|..]
  {
    assert s[i..] == s[i..i + |sep|] + s[i + |sep|..];
    assert s == s[..i] + s[i..];
  }

  /** Joining the text before an occurrence of `sep` to the pieces of the text after it. */
  lemma JoinAtOccurrence(s: string, sep: string, i: int, rest: seq<string>)
    requires OccursAt(s, sep, i) && |rest| >= 1 && Join(rest, sep) == s[i + |sep|..]
    ensures Join([s[..i]] + rest, sep) == s
  {
    JoinCons(s[..i], rest, sep);
    AroundOccurrence(s, sep, i);
  }

  /** Python's `s.partition(sep)`: split at the first occurrence. */
  function Partition(s: string, sep: string): (r: (string, string, string))
    requires |sep| > 0
    ensures r.0 + r.1 + r.2 == s
    ensures r.1 == (if Contains(s, sep) then sep else "")
    ensures forall i :: 0 <= i < |r.0| ==> !OccursAt(s, sep, i)
    ensures !Contains(s, sep) ==> r.2 == ""
  {
    var i := IndexOf(s, sep);
    if i == -1 then (s, "", "") else (s[..i], sep, s[i + |sep|..])
  }

  /** Position of the last `c` in `s`, or -1. */
  function LastIndex(s: string, c: char): (r: int)
    ensures r == -1 <==> c !in s
    ensures r != -1 ==> 0 <= r < |s| && s[r] == c && c !in s[r + 1..]
  {
    if |s| == 0 then -1
    else if s[|s| - 1] == c then |s| - 1
    else
      assert s == s[..|s| - 1] + [s[|s| - 1]];
      LastIndex(s[..|s| - 1], c)
  }

  /** Python's `s.rpartition(c)` for a one-character separator. */
  function RPartition(s: string, c: char): (r: (string, string, string))
    ensures r.0 + r.1 + r.2 == s
    ensures r.1 == (if c in s then [c] else [])
    ensures c !in r.2
    ensures c !in s ==> r == ("", "", s)
  {
    var i := LastIndex(s, c);
    if i == -1 then ("", "", s)
    else
      var before, after := s[..i], s[i + 1..];
      assert c !in after;
      assert s[i..] == [c] + after;
      assert s == before + s[i..];
      (before, [c], after)
  }

  /** `s` neither starts nor ends with a space. */
  predicate NoOuterSpaces(s: string) {
    |s| == 0 || (s[0] != ' ' && s[|s| - 1] != ' ')
  }

  /** Python's `s.lstrip(' ')`. */
  function TrimStart(s: string): (r: string)
    ensures |r| <= |s| && r == s[|s| - |r|..]
    ensures forall i :: 0 <= i < |s| - |r| ==> s[i] == ' '
    ensures |r| == 0 || r[0] != ' '
  {
    if |s| > 0 && s[0] == ' ' then TrimStart(s[1..]) else s
  }

  /** Python's `s.rstrip(' ')`. */
  function TrimEnd(s: string): (r: string)
    ensures |r| <= |s| && r == s[..|r|]
    ensures forall i :: |r| <= i < |s| ==> s[i] == ' '
    ensures |r| == 0 || r[|r| - 1] != ' '
  {
    if |s| > 0 && s[|s| - 1] == ' ' then TrimEnd(s[..|s| - 1]) else s
  }

  /** `r` is `s` with `a` characters cut off its front and the rest cut off its end, all of them spaces. */
  predicate SpacesCut(s: string, r: string, a: int) {
    && 0 <= a <= |s| - |r| && r == s[a..a + |r|]
    && (forall i :: 0 <= i < a ==> s[i] == ' ')
    && (forall i :: a + |r| <= i < |s| ==> s[i] == ' ')
  }

  /** Python's `s.strip(' ')`: spaces removed at both ends, nothing else. */
  function Strip(s: string): (r: string)
    ensures NoOuterSpaces(r)
    ensures exists a :: SpacesCut(s, r, a)
    ensures NoOuterSpaces(s) ==> r == s
  {
    var t := TrimStart(s);
    var r := TrimEnd(t);
    var a := |s| - |t|;
    assert r == t[..|r|] && t == s[a..];
    assert r == s[a..a + |r|];
    assert forall i :: a + |r| <= i < |s| ==> s[i] == t[i - a];
    assert SpacesCut(s, r, a);
    r
  }

  /** A piece before the first occurrence of `sep` does not contain `sep`. */
  lemma PrefixBeforeFirst(s: string, sep: string, i: int)
    requires |sep| > 0 && 0 <= i <= |s|
    requires forall m :: 0 <= m < i ==> !OccursAt(s, sep, m)
    ensures !Contains(s[..i], sep)
  {
    forall m | 0 <= m <= i ensures !OccursAt(s[..i], sep, m) {
      if m + |sep| <= i {
        assert s[..i][m..m + |sep|] == s[m..m + |sep|];
        assert !OccursAt(s, sep, m);
      }
    }
  }

  /** A string without the separator's first character does not contain it. */
  lemma MissingFirstChar(s: string, sep: string)
    requires |sep| > 0 && sep[0] !in s
    ensures !Contains(s, sep)
  {
    forall m | 0 <= m <= |s| ensures !OccursAt(s, sep, m) {
      if m + |sep| <= |s| {
        assert s[m..m + |sep|][0] == s[m];
      }
    }
  }

  /**
   * In `p + sep + rest`, the first occurrence of a non-self-overlapping
   * separator is the one right after `p`, when `p` does not contain it.
   */
  lemma {:induction false} FirstOccurrence(p: string, sep: string, rest: string)
    requires |sep| > 0 && NoSelfOverlap(sep) && !Contains(p, sep)
    ensures IndexOf(p + sep + rest, sep) == |p|
  {
    var t := p + sep + rest;
    assert t[|p|..|p| + |sep|] == sep;
    assert OccursAt(t, sep, |p|);
    forall i | 0 <= i < |p| ensures !OccursAt(t, sep, i) {
      if i + |sep| <= |p| {
        assert t[i..i + |sep|] == p[i..i + |sep|];
        assert !OccursAt(p, sep, i);
      } else {
        var k := |p| - i;
        assert t[i..i + |sep|][k..] == t[|p|..i + |sep|] == sep[..|sep| - k];
        assert sep[k..] != sep[..|sep| - k];
      }
    }
  }

  /** Splitting a string that does not contain the separator gives the string back, alone. */
  lemma SplitWithout(s: string, sep: string)
    requires |sep| > 0 && !Contains(s, sep)
    ensures Split(s, sep) == [s]
  {
  }

  /** Splitting undoes joining, when no part contains a non-self-overlapping separator. */
  lemma {:induction false} SplitJoin(parts: seq<string>, sep: string)
    requires |sep| > 0 && NoSelfOverlap(sep) && |parts| >= 1
    requires forall j :: 0 <= j < |parts| ==> !Contains(parts[j], sep)
    ensures Split(Join(parts, sep), sep) == parts
  {
    if |parts| == 1 {
      SplitWithout(parts[0], sep);
    } else {
      var p := parts[0];
      var rest := Join(parts[1..], sep);
      var s := p + sep + rest;
      assert Join(parts, sep) == s;
      FirstOccurrence(p, sep, rest);
      assert s[..|p|] == p;
      assert s[|p| + |sep|..] == rest;
      assert Split(s, sep) == [p] + Split(rest, sep);
      SplitJoin(parts[1..], sep);
      assert parts == [p] + parts[1..];
    }
  }

  /** Joining parts of equal lengths gives strings of equal length. */
  lemma {:induction false} JoinLength(a: seq<string>, b: seq<string>, sep: string)
    requires |a| == |b| && forall j :: 0 <= j < |a| ==> |a[j]| == |b[j]|
    ensures |Join(a, sep)| == |Join(b, sep)|
  {
    if |a| > 1 {
      JoinLength(a[1..], b[1..], sep);
    }
  }

  /** Every character of a join comes from a part or from the separator. */
  lemma {:induction false} JoinChars(parts: seq<string>, sep: string, P: char -> bool)
    requires forall j, m :: 0 <= j < |parts| && 0 <= m < |parts[j]| ==> P(parts[j][m])
    requires forall m :: 0 <= m < |sep| ==> P(sep[m])
    ensures forall i :: 0 <= i < |Join(parts, sep)| ==> P(Join(parts, sep)[i])
  {
    if |parts| > 1 {
      JoinChars(parts[1..], sep, P);
      var s := Join(parts, sep);
      var rest := Join(parts[1..], sep);
      forall i | 0 <= i < |s| ensures P(s[i]) {
        if i < |parts[0]| {
          assert s[i] == parts[0][i];
        } else if i < |parts[0]| + |sep| {
          assert s[i] == sep[i - |parts[0]|];
        } else {
          assert s[i] == rest[i - |parts[0]| - |sep|];
        }
      }
    }
  }

  /** A separator whose first character does not recur cannot overlap itself. */
  lemma FirstCharUnique(sep: string)
    requires |sep| > 0 && forall k :: 0 < k < |sep| ==> sep[k] != sep[0]
    ensures NoSelfOverlap(sep)
  {
    forall k | 0 < k < |sep| ensures sep[k..] != sep[..|sep| - k] {
      assert sep[k..][0] == sep[k] && sep[..|sep| - k][0] == sep[0];
    }
  }

  /** A string without some character of the separator does not contain it. */
  lemma MissingCharOf(s: string, sep: string, k: nat)
    requires k < |sep| && sep[k] !in s
    ensures !Contains(s, sep)
  {
    forall m | 0 <= m <= |s| ensures !OccursAt(s, sep, m) {
      if m + |sep| <= |s| {
        assert s[m..m + |sep|][k] == s[m + k];
      }
    }
  }

  /** A string that does not contain the one-character string `[c]` has no `c`. */
  lemma MissingChar(s: string, c: char)
    requires !Contains(s, [c])
    ensures c !in s
  {
    forall m | 0 <= m < |s| ensures s[m] != c {
      if s[m] == c {
        assert s[m..m + 1] == [c];
        assert OccursAt(s, [c], m);
      }
    }
  }

  /** `rpartition` at a `c` that is followed by no other `c` splits there. */
  lemma RPartitionAtLast(a: string, c: char, b: string)
    requires c !in b
    ensures RPartition(a + [c] + b, c) == (a, [c], b)
  {
    var s := a + [c] + b;
    assert s[|a|] == c;
    var r := RPartition(s, c);
    assert r.2 == s[|s| - |b|..] == b;
    assert r.0 == s[..|a|] == a;
  }

  /** The first piece of `s.split(sep)` is what comes before the first `sep`. */
  lemma SplitHead(s: string, sep: string)
    requires |sep| > 0
    ensures Split(s, sep)[0] == Partition(s, sep).0
  {
  }

  /** The two separators the client splits on never overlap themselves. */
  lemma SeparatorsDoNotOverlap()
    ensures NoSelfOverlap("-") && NoSelfOverlap("/") && NoSelfOverlap("\r\n") && NoSelfOverlap(": ")
  {
    assert "\r\n"[1..][0] != "\r\n"[..1][0];
    assert ": "[1..][0] != ": "[..1][0];
  }
}
