/**
 * Python's `str.strip()` with no argument: removes leading and trailing
 * whitespace, where whitespace is the set of code points for which
 * `str.isspace()` holds.
 */
module Text {

  /** The whitespace code points `str.strip()` removes. */
  predicate IsSpace(c: char) {
    c == ' ' || ('\t' <= c <= '\r') || ('\U{1C}' <= c <= '\U{1F}')
    || c == '\U{85}' || c == '\U{A0}' || c == '\U{1680}'
    || ('\U{2000}' <= c <= '\U{200A}') || c == '\U{2028}' || c == '\U{2029}'
    || c == '\U{202F}' || c == '\U{205F}' || c == '\U{3000}'
  }

  predicate AllSpace(s: string) {
    forall k :: 0 <= k < |s| ==> IsSpace(s[k])
  }

  /** `r` sits in `s` at offset `lead`, with only whitespace before and after it. */
  predicate StrippedFrom(r: string, s: string, lead: nat) {
    lead + |r| <= |s| && s[lead..lead + |r|] == r
    && (forall k :: 0 <= k < lead ==> IsSpace(s[k]))
    && (forall k :: lead + |r| <= k < |s| ==> IsSpace(s[k]))
  }

  /** `s.lstrip()` */
  function StripLeading(s: string): string
  {
    if s != [] && IsSpace(s[0]) then StripLeading(s[1..]) else s
  }

  /** `s.rstrip()` */
  function StripTrailing(s: string): string
  {
    if s != [] && IsSpace(s[|s| - 1]) then StripTrailing(s[..|s| - 1]) else s
  }

  /** `StripLeading(s)` is a suffix of `s` after whitespace only, and starts with no whitespace. */
  lemma {:induction false} StripLeadingDrops(s: string)
    ensures |StripLeading(s)| <= |s| && StripLeading(s) == s[|s| - |StripLeading(s)|..]
    ensures forall k :: 0 <= k < |s| - |StripLeading(s)| ==> IsSpace(s[k])
    ensures StripLeading(s) != [] ==> !IsSpace(StripLeading(s)[0])
  {
    if s != [] && IsSpace(s[0]) {
      var t := s[1..];
      StripLeadingDrops(t);
      assert forall k :: 1 <= k < |s| ==> s[k] == t[k - 1];
    }
  }

  /** `StripTrailing(s)` is a prefix of `s` before whitespace only, and ends with no whitespace. */
  lemma {:induction false} StripTrailingDrops(s: string)
    ensures |StripTrailing(s)| <= |s| && StripTrailing(s) == s[..|StripTrailing(s)|]
    ensures forall k :: |StripTrailing(s)| <= k < |s| ==> IsSpace(s[k])
    ensures StripTrailing(s) != [] ==> !IsSpace(StripTrailing(s)[|StripTrailing(s)| - 1])
  {
    if s != [] && IsSpace(s[|s| - 1]) {
      var t := s[..|s| - 1];
      StripTrailingDrops(t);
      assert forall k :: 0 <= k < |t| ==> s[k] == t[k];
    }
  }

  /** `s.strip()`; what it computes is stated by `StripTrims`. */
  function Strip(s: string): string
  {
    StripTrailing(StripLeading(s))
  }

  /**
   * `Strip(s)` is a slice of `s` with only whitespace around it and no
   * whitespace at either of its ends; it is empty iff `s` is all whitespace.
   */
  lemma StripTrims(s: string)
    ensures exists lead :: StrippedFrom(Strip(s), s, lead)
    ensures Strip(s) != [] ==> !IsSpace(Strip(s)[0]) && !IsSpace(Strip(s)[|Strip(s)| - 1])
    ensures Strip(s) == [] <==> AllSpace(s)
  {
    var l := StripLeading(s);
    var r := StripTrailing(l);
    StripLeadingDrops(s);
    StripTrailingDrops(l);
    assert r == Strip(s);
    assert StrippedFrom(r, s, |s| - |l|) by {
      assert s[|s| - |l|..][..|r|] == r;
    }
  }

  /** Two trimmings of `s` without whitespace at their ends start and end at the same place. */
  lemma TrimmingsAgree(s: string, r1: string, lead1: nat, r2: string, lead2: nat)
    requires StrippedFrom(r1, s, lead1) && r1 != [] && !IsSpace(r1[0]) && !IsSpace(r1[|r1| - 1])
    requires StrippedFrom(r2, s, lead2) && r2 != [] && !IsSpace(r2[0]) && !IsSpace(r2[|r2| - 1])
    ensures r1 == r2
  {
    assert s[lead1] == s[lead1..lead1 + |r1|][0] == r1[0];
    assert s[lead2] == s[lead2..lead2 + |r2|][0] == r2[0];
    var e1, e2 := lead1 + |r1| - 1, lead2 + |r2| - 1;
    assert s[e1] == s[lead1..lead1 + |r1|][|r1| - 1] == r1[|r1| - 1];
    assert s[e2] == s[lead2..lead2 + |r2|][|r2| - 1] == r2[|r2| - 1];
    // Both offsets are the first non-whitespace position of s, both ends the last.
    assert lead1 == lead2;
    assert e1 == e2;
  }

  /**
   * `Strip` is the only trimming of `s` that leaves no whitespace at either
   * end: any slice of `s` with only whitespace around it and none at its
   * ends is `Strip(s)`.
   */
  lemma StripCharacterised(s: string, r': string, lead: nat)
    requires StrippedFrom(r', s, lead)
    requires r' != [] ==> !IsSpace(r'[0]) && !IsSpace(r'[|r'| - 1])
    ensures r' == Strip(s)
  {
    var r := Strip(s);
    StripTrims(s);
    if r' == [] {
      assert AllSpace(s) by {
        forall k | 0 <= k < |s| ensures IsSpace(s[k]) {
          if k >= lead { assert lead + |r'| <= k; }
        }
      }
    } else {
      assert s[lead] == s[lead..lead + |r'|][0];
      assert !IsSpace(s[lead]);
      var lead0 :| StrippedFrom(r, s, lead0);
      TrimmingsAgree(s, r', lead, r, lead0);
    }
  }

  /** Stripping twice is stripping once. */
  lemma StripIdempotent(s: string)
    ensures Strip(Strip(s)) == Strip(s)
  {
    var r := Strip(s);
    StripTrims(s);
    assert StrippedFrom(r, r, 0) by { assert r[0..|r|] == r; }
    StripCharacterised(r, r, 0);
  }
}
