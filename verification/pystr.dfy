/** The two Python `str` methods the triage code relies on: `strip()` with no
    argument, which removes leading and trailing whitespace, and
    `replace(old, new)`, which replaces every non-overlapping occurrence of
    `old`, scanning left to right. */
module PyStr {

  /** Python's `str.isspace` for a single character: the ASCII controls
      TAB..CR and FS..US, SPACE, NEL, NBSP and the Unicode space separators. */
  predicate IsSpace(c: char) {
    || c == ' '
    || '\t' <= c <= '\r'
    || '\U{1c}' <= c <= '\U{1f}'
    || c == '\U{85}'
    || c == '\U{a0}'
    || c == '\U{1680}'
    || '\U{2000}' <= c <= '\U{200a}'
    || c == '\U{2028}'
    || c == '\U{2029}'
    || c == '\U{202f}'
    || c == '\U{205f}'
    || c == '\U{3000}'
  }

  ghost predicate AllSpace(t: string) {
    forall i :: 0 <= i < |t| ==> IsSpace(t[i])
  }

  /** Neither end of `t` is whitespace. */
  ghost predicate Trimmed(t: string) {
    t == [] || (!IsSpace(t[0]) && !IsSpace(t[|t| - 1]))
  }

  /** Declarative meaning of `r == t.strip()`: `r` is a slice of `t`, only
      whitespace lies around it, and it has no whitespace at either end. */
  ghost predicate IsStripOf(t: string, r: string) {
    exists a :: IsStripAt(t, r, a)
  }

  ghost predicate IsStripAt(t: string, r: string, a: int) {
    && 0 <= a && a + |r| <= |t|
    && r == t[a..a + |r|]
    && AllSpace(t[..a])
    && AllSpace(t[a + |r|..])
    && Trimmed(r)
  }

  /** `str.lstrip()` */
  function TrimStart(t: string): string {
    if |t| > 0 && IsSpace(t[0]) then TrimStart(t[1..]) else t
  }

  /** `str.rstrip()` */
  function TrimEnd(t: string): string {
    if |t| > 0 && IsSpace(t[|t| - 1]) then TrimEnd(t[..|t| - 1]) else t
  }

  /** `str.strip()`: never longer than the input, and without whitespace at
      either end. `StripSpec` and `StripUnique` characterise it completely. */
  function Strip(t: string): (r: string)
    ensures |r| <= |t|
    ensures r != [] ==> !IsSpace(r[0]) && !IsSpace(r[|r| - 1])
  {
    TrimStartSpec(t);
    TrimEndSpec(TrimStart(t));
    var r := TrimEnd(TrimStart(t));
    assert r != [] ==> r[0] == TrimStart(t)[0];
    r
  }

  /** `lstrip()` drops the leading whitespace and nothing else. */
  lemma {:induction false} TrimStartSpec(t: string)
    ensures |TrimStart(t)| <= |t| && TrimStart(t) == t[|t| - |TrimStart(t)|..]
    ensures AllSpace(t[..|t| - |TrimStart(t)|])
    ensures TrimStart(t) != [] ==> !IsSpace(TrimStart(t)[0])
    decreases |t|
  {
    if |t| > 0 && IsSpace(t[0]) {
      var r := TrimStart(t[1..]);
      TrimStartSpec(t[1..]);
      assert t[..|t| - |r|] == [t[0]] + t[1..][..|t[1..]| - |r|];
    }
  }

  /** `rstrip()` drops the trailing whitespace and nothing else. */
  lemma {:induction false} TrimEndSpec(t: string)
    ensures |TrimEnd(t)| <= |t| && TrimEnd(t) == t[..|TrimEnd(t)|]
    ensures AllSpace(t[|TrimEnd(t)|..])
    ensures TrimEnd(t) != [] ==> !IsSpace(TrimEnd(t)[|TrimEnd(t)| - 1])
    decreases |t|
  {
    if |t| > 0 && IsSpace(t[|t| - 1]) {
      var r := TrimEnd(t[..|t| - 1]);
      TrimEndSpec(t[..|t| - 1]);
      assert t[|r|..] == t[..|t| - 1][|r|..] + [t[|t| - 1]];
    }
  }

  /** `strip()` meets its declarative description. */
  lemma StripSpec(t: string)
    ensures IsStripOf(t, Strip(t))
  {
    var l := TrimStart(t);
    var r := TrimEnd(l);
    var a := |t| - |l|;
    TrimStartSpec(t);
    TrimEndSpec(l);
    assert l == t[a..];
    assert r == t[a..a + |r|] by {
      assert r == l[..|r|];
    }
    assert t[a + |r|..] == l[|r|..];
    if r != [] {
      assert r[0] == l[0];
    }
    assert IsStripAt(t, r, a);
  }

  /** `IsStripOf` has exactly one solution, so `Strip` is characterised by it. */
  lemma StripUnique(t: string, r: string, r': string)
    requires IsStripOf(t, r) && IsStripOf(t, r')
    ensures r == r'
  {
    var a :| IsStripAt(t, r, a);
    var a' :| IsStripAt(t, r', a');
    if r == [] {
      EmptyStripAllSpace(t, a);
    } else if r' == [] {
      EmptyStripAllSpace(t, a');
    }
  }

  lemma EmptyStripAllSpace(t: string, a: int)
    requires IsStripAt(t, [], a)
    ensures AllSpace(t)
  {
    forall i | 0 <= i < |t|
      ensures IsSpace(t[i])
    {
      if i < a {
        assert t[..a][i] == t[i];
      } else {
        assert t[a..][i - a] == t[i];
      }
    }
  }

  /** Stripping twice is stripping once. */
  lemma StripIdempotent(t: string)
    ensures Strip(Strip(t)) == Strip(t)
  {
    var r := Strip(t);
    StripSpec(t);
    StripSpec(r);
    assert IsStripAt(r, r, 0) by {
      assert r[0..|r|] == r;
      assert r[..0] == [];
      assert r[|r|..] == [];
      var a :| IsStripAt(t, r, a);
    }
    StripUnique(r, r, Strip(r));
  }

  ghost predicate OccursAt(s: string, pat: string, i: int) {
    0 <= i && i + |pat| <= |s| && s[i..i + |pat|] == pat
  }

  ghost predicate Contains(s: string, pat: string) {
    exists i :: OccursAt(s, pat, i)
  }

  /** `s.replace(pat, rep)` for a non-empty `pat`: at each position, an
      occurrence of `pat` is replaced and skipped over, otherwise one
      character is kept. */
  function ReplaceAll(s: string, pat: string, rep: string): (r: string)
    requires |pat| > 0
    ensures |pat| <= |rep| ==> |r| >= |s|
    decreases |s|
  {
    if |s| < |pat| then s
    else if s[..|pat|] == pat then rep + ReplaceAll(s[|pat|..], pat, rep)
    else [s[0]] + ReplaceAll(s[1..], pat, rep)
  }

  /** Occurrences in `s[1..]` are the occurrences in `s` shifted by one. */
  lemma OccursInTail(s: string, pat: string, k: int)
    requires |s| > 0 && 0 <= k
    ensures OccursAt(s[1..], pat, k) <==> OccursAt(s, pat, k + 1)
  {
    if k + |pat| <= |s[1..]| {
      assert s[1..][k..k + |pat|] == s[k + 1..k + 1 + |pat|];
    }
  }

  /** Without an occurrence of `pat`, `replace` returns its input. */
  lemma {:induction false} ReplaceWithoutOccurrence(s: string, pat: string, rep: string)
    requires |pat| > 0
    requires !Contains(s, pat)
    ensures ReplaceAll(s, pat, rep) == s
    decreases |s|
  {
    if |s| >= |pat| {
      assert !OccursAt(s, pat, 0);
      forall k | OccursAt(s[1..], pat, k)
        ensures false
      {
        OccursInTail(s, pat, k);
      }
      ReplaceWithoutOccurrence(s[1..], pat, rep);
      assert s == [s[0]] + s[1..];
    }
  }

  /** One step of the scan when no occurrence starts at the first character. */
  lemma ReplaceKeepsFirst(s: string, pat: string, rep: string)
    requires |pat| > 0 && |s| >= |pat|
    requires !OccursAt(s, pat, 0)
    ensures ReplaceAll(s, pat, rep) == [s[0]] + ReplaceAll(s[1..], pat, rep)
  {
    assert s[0..|pat|] == s[..|pat|];
  }

  /** `pat` occurs at `i` and nowhere before it */
  ghost predicate FirstOccurrenceAt(s: string, pat: string, i: int) {
    OccursAt(s, pat, i) && forall k :: 0 <= k < i ==> !OccursAt(s, pat, k)
  }

  /** The first occurrence in `s`, if not at 0, is the first occurrence in
      `s[1..]` shifted by one. */
  lemma FirstOccurrenceInTail(s: string, pat: string, i: int)
    requires 0 < i && FirstOccurrenceAt(s, pat, i)
    ensures FirstOccurrenceAt(s[1..], pat, i - 1)
    ensures i + |pat| <= |s| && !OccursAt(s, pat, 0)
  {
    OccursInTail(s, pat, i - 1);
    forall k | 0 <= k < i - 1
      ensures !OccursAt(s[1..], pat, k)
    {
      OccursInTail(s, pat, k);
    }
  }

  /** The left-to-right scan: everything before the first occurrence is kept,
      the occurrence is replaced, and scanning resumes after it. */
  lemma {:induction false} ReplaceAtFirstOccurrence(s: string, pat: string, rep: string, i: int)
    requires |pat| > 0
    requires FirstOccurrenceAt(s, pat, i)
    ensures ReplaceAll(s, pat, rep) == s[..i] + rep + ReplaceAll(s[i + |pat|..], pat, rep)
    decreases i
  {
    if i == 0 {
      ReplaceAtStart(s, pat, rep);
    } else {
      FirstOccurrenceInTail(s, pat, i);
      ReplaceAtFirstOccurrence(s[1..], pat, rep, i - 1);
      ReplaceStepBeforeOccurrence(s, pat, rep, i);
    }
  }

  /** One step of the scan when an occurrence starts at the first character. */
  lemma ReplaceAtStart(s: string, pat: string, rep: string)
    requires 0 < |pat| && OccursAt(s, pat, 0)
    ensures ReplaceAll(s, pat, rep) == s[..0] + rep + ReplaceAll(s[|pat|..], pat, rep)
  {
    assert s[..|pat|] == pat;
    assert s[..0] + rep == rep;
  }

  /** Lifts the scan of `s[1..]` to `s` when `s` does not start with `pat`. */
  lemma ReplaceStepBeforeOccurrence(s: string, pat: string, rep: string, i: int)
    requires 0 < i && 0 < |pat| && i + |pat| <= |s|
    requires !OccursAt(s, pat, 0)
    requires ReplaceAll(s[1..], pat, rep) == s[1..][..i - 1] + rep + ReplaceAll(s[1..][i - 1 + |pat|..], pat, rep)
    ensures ReplaceAll(s, pat, rep) == s[..i] + rep + ReplaceAll(s[i + |pat|..], pat, rep)
  {
    var t := s[1..];
    ReplaceKeepsFirst(s, pat, rep);
    assert t[i - 1 + |pat|..] == s[i + |pat|..];
    assert s[..i] == [s[0]] + t[..i - 1];
    ConsAppend(s[0], t[..i - 1], rep, ReplaceAll(s[i + |pat|..], pat, rep));
  }

  lemma ConsAppend(c: char, head: string, mid: string, tail: string)
    ensures [c] + (head + mid + tail) == ([c] + head) + mid + tail
  {
  }

  /** A strictly longer replacement lengthens every text that contains the
      pattern. */
  lemma {:induction false} ReplaceLengthens(s: string, pat: string, rep: string)
    requires 0 < |pat| < |rep|
    requires Contains(s, pat)
    ensures |ReplaceAll(s, pat, rep)| > |s|
    decreases |s|
  {
    var i :| OccursAt(s, pat, i);
    if s[..|pat|] != pat {
      assert i != 0;
      assert s[1..][i - 1..i - 1 + |pat|] == s[i..i + |pat|];
      assert OccursAt(s[1..], pat, i - 1);
      ReplaceLengthens(s[1..], pat, rep);
    }
  }

  /** For a replacement longer than the pattern, `replace` leaves the text
      unchanged exactly when the pattern does not occur in it. */
  lemma ReplaceUnchangedIff(s: string, pat: string, rep: string)
    requires 0 < |pat| < |rep|
    ensures ReplaceAll(s, pat, rep) == s <==> !Contains(s, pat)
  {
    if Contains(s, pat) {
      ReplaceLengthens(s, pat, rep);
    } else {
      ReplaceWithoutOccurrence(s, pat, rep);
    }
  }

  /** Where no replacement starts, `replace` copies its input: a prefix of
      the result that avoids the first character of `rep` is also a prefix
      of the input. */
  lemma {:induction false} ReplaceKeepsPrefix(s: string, pat: string, rep: string, n: int)
    requires 0 < |pat| && 0 < |rep| && 0 <= n
    requires n <= |ReplaceAll(s, pat, rep)|
    requires forall k :: 0 <= k < n ==> ReplaceAll(s, pat, rep)[k] != rep[0]
    ensures n <= |s| && ReplaceAll(s, pat, rep)[..n] == s[..n]
    decreases |s|
  {
    var out := ReplaceAll(s, pat, rep);
    if n > 0 && |s| >= |pat| {
      assert out[0] != rep[0];
      assert s[..|pat|] != pat;
      var tail := ReplaceAll(s[1..], pat, rep);
      assert out == [s[0]] + tail;
      forall k | 0 <= k < n - 1
        ensures tail[k] != rep[0]
      {
        assert tail[k] == out[k + 1];
      }
      ReplaceKeepsPrefix(s[1..], pat, rep, n - 1);
      assert out[..n] == [s[0]] + tail[..n - 1];
      assert s[..n] == [s[0]] + s[1..][..n - 1];
    }
  }
}
