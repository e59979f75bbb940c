/** The JavaScript string built-ins the page script relies on, written out:
    the whitespace class shared by `\s` and `String.prototype.trim`,
    `substring`, `indexOf`/`includes`, `replace` with a string pattern, and
    `split(sep).pop()`. Strings are sequences of characters. */
module JsStrings {
  import opened Wrappers

  /** ECMAScript WhiteSpace and LineTerminator code points: the set that
      both `\s` in a regular expression and `trim` use (Zs as of Unicode 15). */
  predicate IsSpace(c: char) {
    c == '\t' || c == '\U{B}' || c == '\U{C}' || c == ' ' || c == '\U{A0}' || c == '\U{FEFF}'
    || c == '\n' || c == '\r' || c == '\U{2028}' || c == '\U{2029}'
    || c == '\U{1680}' || ('\U{2000}' <= c <= '\U{200A}') || c == '\U{202F}' || c == '\U{205F}' || c == '\U{3000}'
  }

  predicate AllSpace(s: string) {
    forall i :: 0 <= i < |s| ==> IsSpace(s[i])
  }

  /** Drops leading whitespace (see TrimStartSpec). */
  function TrimStart(s: string): string {
    if s == [] || !IsSpace(s[0]) then s else TrimStart(s[1..])
  }

  /** Drops trailing whitespace (see TrimEndSpec). */
  function TrimEnd(s: string): string {
    if s == [] || !IsSpace(s[|s| - 1]) then s else TrimEnd(s[..|s| - 1])
  }

  /** `String.prototype.trim`. */
  function Trim(s: string): string {
    TrimEnd(TrimStart(s))
  }

  /** `TrimStart` keeps the longest suffix of `s` that does not start with
      whitespace, and everything it drops is whitespace. */
  lemma {:induction false} TrimStartSpec(s: string)
    ensures var r := TrimStart(s);
      |r| <= |s| && r == s[|s| - |r|..] && AllSpace(s[..|s| - |r|]) && (r == [] || !IsSpace(r[0]))
  {
    if s != [] && IsSpace(s[0]) {
      var t := s[1..];
      TrimStartSpec(t);
      var r := TrimStart(s);
      assert r == TrimStart(t);
      var dropped := s[..|s| - |r|];
      forall i | 0 <= i < |dropped| ensures IsSpace(dropped[i]) {
        if i > 0 {
          assert dropped[i] == t[..|t| - |r|][i - 1];
        }
      }
    }
  }

  /** `TrimEnd` keeps the longest prefix of `s` that does not end with
      whitespace, and everything it drops is whitespace. */
  lemma {:induction false} TrimEndSpec(s: string)
    ensures var r := TrimEnd(s);
      |r| <= |s| && r == s[..|r|] && AllSpace(s[|r|..]) && (r == [] || !IsSpace(r[|r| - 1]))
  {
    if s != [] && IsSpace(s[|s| - 1]) {
      var t := s[..|s| - 1];
      TrimEndSpec(t);
      var r := TrimEnd(s);
      assert r == TrimEnd(t);
      var dropped := s[|r|..];
      forall i | 0 <= i < |dropped| ensures IsSpace(dropped[i]) {
        if i < |dropped| - 1 {
          assert dropped[i] == t[|r|..][i];
        }
      }
    }
  }

  /** The trimmed value is a slice of the raw value that neither starts nor
      ends with whitespace, and only whitespace lies outside it. */
  lemma TrimSpec(s: string)
    ensures var r := Trim(s);
      exists i :: 0 <= i && i + |r| <= |s| && r == s[i..i + |r|] && AllSpace(s[..i]) && AllSpace(s[i + |r|..])
    ensures var r := Trim(s); r == [] || (!IsSpace(r[0]) && !IsSpace(r[|r| - 1]))
  {
    var t := TrimStart(s);
    var r := Trim(s);
    TrimStartSpec(s);
    TrimEndSpec(t);
    var i := |s| - |t|;
    assert r == s[i..i + |r|];
    assert s[i + |r|..] == t[|r|..];
  }

  /** A trimmed value is empty exactly when the raw value is all whitespace. */
  lemma TrimEmptyIff(s: string)
    ensures Trim(s) == [] <==> AllSpace(s)
  {
    var t := TrimStart(s);
    TrimStartSpec(s);
    TrimEndSpec(t);
    if Trim(s) == [] {
      assert s[..|s|] == s;
    } else {
      var r := Trim(s);
      assert r == t[..|r|] && !IsSpace(r[0]);
      assert s[|s| - |t|] == t[0] == r[0];
    }
  }

  /** The trimmed value neither starts nor ends with whitespace, so trimming
      it again changes nothing. */
  lemma TrimIdempotent(s: string)
    ensures Trim(Trim(s)) == Trim(s)
  {
    var r := Trim(s);
    TrimSpec(s);
    if r != [] {
      assert TrimStart(r) == r;
      assert TrimEnd(r) == r;
    }
  }

  /** JavaScript `s.substring(start, end)`: both indices are clamped into
      `[0, |s|]` and swapped if they come in the wrong order. */
  function Substring(s: string, start: int, end: int): (r: string)
    ensures 0 <= start <= end <= |s| ==> r == s[start..end]
    ensures start <= 0 && end <= 0 ==> r == []
    ensures |r| <= |s|
  {
    var a := if start < 0 then 0 else if start > |s| then |s| else start;
    var b := if end < 0 then 0 else if end > |s| then |s| else end;
    if a <= b then s[a..b] else s[b..a]
  }

  /** `pat` occurs in `s` starting at index `k`. */
  predicate OccursAt(s: string, pat: string, k: int) {
    0 <= k && k + |pat| <= |s| && s[k..k + |pat|] == pat
  }

  /** `pat` occurs somewhere in `s`. */
  ghost predicate Contains(s: string, pat: string) {
    exists k :: OccursAt(s, pat, k)
  }

  /** JavaScript `s.indexOf(pat)` (see IndexOfSpec). */
  function IndexOf(s: string, pat: string): (r: Option<nat>)
    ensures r.Some? ==> r.value + |pat| <= |s|
    decreases |s|
  {
    if |pat| > |s| then None
    else if s[..|pat|] == pat then Some(0)
    else
      match IndexOf(s[1..], pat)
      case None => None
      case Some(k) => Some(k + 1)
  }

  /** `IndexOf` finds the first index where `pat` occurs, and finds nothing
      exactly when `pat` does not occur. */
  lemma {:induction false} IndexOfSpec(s: string, pat: string)
    ensures var r := IndexOf(s, pat);
      (r.Some? ==> OccursAt(s, pat, r.value) && forall k :: 0 <= k < r.value ==> !OccursAt(s, pat, k)) &&
      (r.None? ==> forall k :: !OccursAt(s, pat, k))
    decreases |s|
  {
    if |pat| <= |s| && s[..|pat|] != pat {
      IndexOfSpec(s[1..], pat);
      ShiftOccurrence(s, pat);
      assert !OccursAt(s, pat, 0);
    }
  }

  /** An occurrence in `s[1..]` is an occurrence in `s` one place later. */
  lemma ShiftOccurrence(s: string, pat: string)
    requires |s| > 0
    ensures forall k :: 1 <= k ==> (OccursAt(s, pat, k) <==> OccursAt(s[1..], pat, k - 1))
  {
    forall k | 1 <= k
      ensures OccursAt(s, pat, k) <==> OccursAt(s[1..], pat, k - 1)
    {
      if k + |pat| <= |s| {
        assert s[1..][k - 1..k - 1 + |pat|] == s[k..k + |pat|];
      }
    }
  }

  /** JavaScript `s.includes(pat)`; true for the empty pattern. */
  function Includes(s: string, pat: string): bool {
    IndexOf(s, pat).Some?
  }

  lemma IncludesSpec(s: string, pat: string)
    ensures Includes(s, pat) <==> Contains(s, pat)
  {
    IndexOfSpec(s, pat);
    if Contains(s, pat) {
      var k :| OccursAt(s, pat, k);
    }
  }

  /** JavaScript `s.replace(pat, rep)` with a string pattern: only the first
      occurrence is replaced (`rep` holds no `$` pattern). */
  function ReplaceFirst(s: string, pat: string, rep: string): string {
    match IndexOf(s, pat)
    case None => s
    case Some(k) => s[..k] + rep + s[k + |pat|..]
  }

  /** `ReplaceFirst` replaces the first occurrence of `pat`, at index `k`,
      and leaves the text around it. */
  lemma ReplaceFirstSpec(s: string, pat: string, rep: string, k: nat)
    requires OccursAt(s, pat, k) && forall j :: 0 <= j < k ==> !OccursAt(s, pat, j)
    ensures ReplaceFirst(s, pat, rep) == s[..k] + rep + s[k + |pat|..]
  {
    IndexOfSpec(s, pat);
    var r := IndexOf(s, pat);
    assert r.Some?;
    assert r.value == k;
  }

  /** `ReplaceFirst` changes nothing when `pat` does not occur. */
  lemma ReplaceFirstNoMatch(s: string, pat: string, rep: string)
    requires forall k :: !OccursAt(s, pat, k)
    ensures ReplaceFirst(s, pat, rep) == s
  {
    IndexOfSpec(s, pat);
  }

  /** JavaScript `s.split(sep).pop()` for a one-character separator: the text
      after the last `sep`, or all of `s` when it holds none. */
  function LastSegment(s: string, sep: char): (r: string)
    ensures sep !in r
    ensures |r| <= |s| && r == s[|s| - |r|..]
    ensures |r| == |s| || s[|s| - |r| - 1] == sep
  {
    if s == [] || s[|s| - 1] == sep then []
    else LastSegment(s[..|s| - 1], sep) + [s[|s| - 1]]
  }
}
