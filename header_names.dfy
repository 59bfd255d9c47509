/**
 * What `camel` promises about header names: which names it accepts, the
 * shape of its result, and when canonicalising twice changes nothing.
 */
module HeaderNames {
  import opened Wrappers
  import opened PyStrings
  import opened HttpHeader

  /** Position `i` starts a '-'-separated segment of `key`. */
  predicate SegmentStart(key: string, i: int) {
    i == 0 || (0 < i <= |key| && key[i - 1] == '-')
  }

  /**
   * A name, character by character: only [A-Za-z0-9-], and a letter at the
   * start and right after every '-'.
   */
  predicate WellFormedName(key: string) {
    && (forall i :: 0 <= i < |key| ==> IsAlnum(key[i]) || key[i] == '-')
    && (forall i :: 0 <= i <= |key| && SegmentStart(key, i) ==> i < |key| && IsLetter(key[i]))
  }

  /** One segment without '-' is a well-formed name exactly when it is an accepted segment. */
  lemma SingleSegment(s: string)
    requires '-' !in s
    ensures WellFormedName(s) <==> SegmentOk(s)
  {
    if WellFormedName(s) {
      assert SegmentStart(s, 0);
      forall i | 0 <= i < |s| ensures IsAlnum(s[i]) {
        assert s[i] in s;
      }
    }
  }

  /** An accepted segment, '-' and a well-formed name make a well-formed name. */
  lemma JoinWellFormed(s: string, J: string)
    requires '-' !in s && SegmentOk(s) && WellFormedName(J)
    ensures WellFormedName(s + "-" + J)
  {
    var t := s + "-" + J;
    forall i | 0 <= i < |t| ensures IsAlnum(t[i]) || t[i] == '-' {
      if i > |s| { assert t[i] == J[i - |s| - 1]; }
    }
    forall i | 0 <= i <= |t| && SegmentStart(t, i) ensures i < |t| && IsLetter(t[i]) {
      if i > |s| {
        assert SegmentStart(J, i - |s| - 1);
        if i > |s| + 1 { assert t[i - 1] == J[i - |s| - 2]; }
        assert t[i] == J[i - |s| - 1];
      }
    }
  }

  /** A well-formed name `s + "-" + J` with `s` free of '-' splits into an accepted segment and a well-formed name. */
  lemma SplitWellFormed(s: string, J: string)
    requires '-' !in s && WellFormedName(s + "-" + J)
    ensures SegmentOk(s) && WellFormedName(J)
  {
    var t := s + "-" + J;
    assert SegmentStart(t, 0);
    forall i | 0 <= i < |s| ensures IsAlnum(s[i]) {
      assert t[i] == s[i] && s[i] in s;
    }
    forall i | 0 <= i < |J| ensures IsAlnum(J[i]) || J[i] == '-' {
      assert J[i] == t[i + |s| + 1];
    }
    forall i | 0 <= i <= |J| && SegmentStart(J, i) ensures i < |J| && IsLetter(J[i]) {
      assert SegmentStart(t, i + |s| + 1);
      if i < |J| { assert J[i] == t[i + |s| + 1]; }
    }
  }

  /** Joining segments with '-' gives a well-formed name exactly when every segment is accepted. */
  lemma {:induction false} JoinedSegments(segs: seq<string>)
    requires |segs| >= 1 && forall j :: 0 <= j < |segs| ==> '-' !in segs[j]
    ensures WellFormedName(Join(segs, "-")) <==> forall j :: 0 <= j < |segs| ==> SegmentOk(segs[j])
  {
    if |segs| == 1 {
      SingleSegment(segs[0]);
    } else {
      var s, rest := segs[0], segs[1..];
      var J := Join(rest, "-");
      assert Join(segs, "-") == s + "-" + J;
      JoinedSegments(rest);
      assert forall j :: 1 <= j < |segs| ==> segs[j] == rest[j - 1];
      assert (forall j :: 0 <= j < |segs| ==> SegmentOk(segs[j])) <==>
             SegmentOk(s) && forall j :: 0 <= j < |rest| ==> SegmentOk(rest[j]);
      if SegmentOk(s) && WellFormedName(J) {
        JoinWellFormed(s, J);
      }
      if WellFormedName(s + "-" + J) {
        SplitWellFormed(s, J);
      }
    }
  }

  /**
   * `camel` accepts a name exactly when it is well formed character by
   * character; a refused name raises the error of its first refused segment:
   * IndexError for an empty one, KeyError otherwise.
   */
  lemma CanonicalAccepts(key: string)
    ensures Canonical(key).Ok? <==> WellFormedName(key)
    ensures Canonical(key).Err? ==> exists j :: (FirstRefused(Split(key, "-"), j) &&
      Canonical(key).error == SegmentError(Split(key, "-")[j]))
  {
    var segs := Split(key, "-");
    forall j | 0 <= j < |segs| ensures '-' !in segs[j] { MissingChar(segs[j], '-'); }
    JoinedSegments(segs);
  }

  /** Capitalising an accepted segment without '-' adds none. */
  lemma CapitalisedNoDash(seg: string)
    requires SegmentOk(seg) && '-' !in seg
    ensures !Contains(Capitalised(seg), "-")
  {
    var c := Capitalised(seg);
    assert forall m :: 1 <= m < |c| ==> c[m] == seg[m];
    assert forall m :: 0 <= m < |c| ==> c[m] != '-';
    MissingFirstChar(c, "-");
  }

  /** The segments of a canonical name are the capitalised segments of the original. */
  lemma CanonicalShape(key: string)
    requires Canonical(key).Ok?
    ensures |Canonical(key).value| == |key|
    ensures |Split(Canonical(key).value, "-")| == |Split(key, "-")|
    ensures forall j :: 0 <= j < |Split(key, "-")| ==>
      SegmentOk(Split(key, "-")[j]) && Split(Canonical(key).value, "-")[j] == Capitalised(Split(key, "-")[j])
  {
    var segs := Split(key, "-");
    var cs := CanonSegments(segs).value;
    forall j | 0 <= j < |cs| ensures !Contains(cs[j], "-") {
      MissingChar(segs[j], '-');
      CapitalisedNoDash(segs[j]);
    }
    SeparatorsDoNotOverlap();
    SplitJoin(cs, "-");
    JoinLength(cs, segs, "-");
  }

  /** No segment of `key` starts with 'z' or 'Z'. */
  predicate NoZStart(key: string) {
    forall j :: 0 <= j < |Split(key, "-")| && |Split(key, "-")[j]| > 0 ==>
      Split(key, "-")[j][0] != 'z' && Split(key, "-")[j][0] != 'Z'
  }

  /** A capitalised segment that did not start with 'z' or 'Z' is accepted and capitalises to itself. */
  lemma CapitalisedFixed(seg: string)
    requires SegmentOk(seg) && seg[0] != 'z' && seg[0] != 'Z'
    ensures SegmentOk(Capitalised(seg)) && Capitalised(Capitalised(seg)) == Capitalised(seg)
  {
    var c := Capitalised(seg);
    assert 'A' <= c[0] <= 'Y';
    assert c[1..] == seg[1..];
    assert forall m :: 1 <= m < |c| ==> c[m] == seg[m];
  }

  /** Canonicalising a canonical name again changes nothing, unless a segment started with 'z' or 'Z'. */
  lemma CanonicalIdempotent(key: string)
    requires Canonical(key).Ok? && NoZStart(key)
    ensures Canonical(Canonical(key).value) == Canonical(key)
  {
    var segs := Split(key, "-");
    var r := Canonical(key).value;
    CanonicalShape(key);
    var cs := Split(r, "-");
    assert |cs| == |segs|;
    forall j | 0 <= j < |cs| ensures SegmentOk(cs[j]) && Capitalised(cs[j]) == cs[j] {
      CapitalisedFixed(segs[j]);
    }
    var cs' := CanonSegments(cs).value;
    assert cs' == cs;
  }

  /** Canonicalisation of a name joined from accepted, dash-free segments. */
  lemma {:induction false} CanonicalOfSegments(segs: seq<string>, caps: seq<string>)
    requires |segs| >= 1 && |caps| == |segs|
    requires forall j :: 0 <= j < |segs| ==> '-' !in segs[j] && SegmentOk(segs[j]) && caps[j] == Capitalised(segs[j])
    ensures Canonical(Join(segs, "-")) == Ok(Join(caps, "-"))
  {
    forall j | 0 <= j < |segs| ensures !Contains(segs[j], "-") { MissingFirstChar(segs[j], "-"); }
    SeparatorsDoNotOverlap();
    SplitJoin(segs, "-");
    assert CanonSegments(segs).value == caps;
  }

  /** The empty name is refused by `upper_first` (IndexError). */
  lemma EmptyName()
    ensures Canonical("") == Err(EmptySegment)
  {
    assert Split("", "-") == [""];
  }

  /** `camel` of a one-segment name. */
  lemma CanonicalSingle(a: string, canon: string)
    requires '-' !in a && SegmentOk(a) && canon == Capitalised(a)
    ensures Canonical(a) == Ok(canon)
  {
    assert a == Join([a], "-");
    CanonicalOfSegments([a], [canon]);
  }

  /** `camel` of a two-segment name. */
  lemma CanonicalPair(a: string, b: string, name: string, canon: string)
    requires '-' !in a && '-' !in b && SegmentOk(a) && SegmentOk(b)
    requires name == a + "-" + b && canon == Capitalised(a) + "-" + Capitalised(b)
    ensures Canonical(name) == Ok(canon)
  {
    assert name == Join([a, b], "-");
    assert canon == Join([Capitalised(a), Capitalised(b)], "-");
    CanonicalOfSegments([a, b], [Capitalised(a), Capitalised(b)]);
  }

  lemma ContentTypeLower()
    ensures Canonical("content-type") == Ok("Content-Type")
  {
    CanonicalPair("content", "type", "content-type", "Content-Type");
  }

  lemma ContentTypeAsIs()
    ensures Canonical("Content-Type") == Ok("Content-Type")
  {
    CanonicalPair("Content", "Type", "Content-Type", "Content-Type");
  }

  lemma ContentTypeUpper()
    ensures Canonical("CONTENT-TYPE") == Ok("CONTENT-TYPE")
  {
    CanonicalPair("CONTENT", "TYPE", "CONTENT-TYPE", "CONTENT-TYPE");
  }

  /**
   * Only the first letter of each segment is folded, so names differing
   * elsewhere in case are different keys, unlike the case-insensitive field
   * names of section 5.1 of RFC 9110.
   */
  lemma CaseFolding()
    ensures Canonical("content-type") == Canonical("Content-Type")
    ensures Canonical("CONTENT-TYPE") != Canonical("Content-Type")
  {
    ContentTypeLower();
    ContentTypeAsIs();
    ContentTypeUpper();
  }

  /**
   * A segment starting with 'Z' gets ':' as its first character, so
   * canonicalising is not idempotent there and the stored name is one that
   * `camel` itself refuses.
   */
  lemma ZQuirk()
    ensures Canonical("zone") == Ok("Zone")
    ensures Canonical("Zone") == Ok(":one")
    ensures Canonical(":one") == Err(InvalidName)
  {
    ZoneLower();
    ZoneUpper();
    ColonOneRefused();
  }

  lemma ZoneLower()
    ensures Canonical("zone") == Ok("Zone")
  {
    CanonicalSingle("zone", "Zone");
  }

  lemma ZoneUpper()
    ensures Canonical("Zone") == Ok(":one")
  {
    CanonicalSingle("Zone", ":one");
  }

  lemma ColonOneRefused()
    ensures Canonical(":one") == Err(InvalidName)
  {
    MissingFirstChar(":one", "-");
    SplitWithout(":one", "-");
  }
}
