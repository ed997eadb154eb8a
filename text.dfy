/** The Python string built-ins the script relies on: `str.strip`,
    `str.join`, `str.startswith`, `str.replace` and the decimal rendering
    of an `int` inside an f-string. Strings are sequences of code points. */
module Text {

  /** Python's `str.isspace` for a single code point. */
  predicate IsSpace(c: char)
  {
    || ('\t' <= c <= '\r')
    || ('\U{1C}' <= c <= ' ')
    || c == '\U{85}' || c == '\U{A0}' || c == '\U{1680}'
    || ('\U{2000}' <= c <= '\U{200A}')
    || c == '\U{2028}' || c == '\U{2029}' || c == '\U{202F}'
    || c == '\U{205F}' || c == '\U{3000}'
  }

  predicate AllSpace(s: string)
  {
    forall i :: 0 <= i < |s| ==> IsSpace(s[i])
  }

  /** Drops leading whitespace (`str.lstrip()`): what is left is a suffix
      of `s`, what was dropped is all whitespace, and what is left does not
      start with whitespace. */
  function TrimStart(s: string): (r: string)
    ensures |r| <= |s| && r == s[|s| - |r|..]
    ensures AllSpace(s[..|s| - |r|])
    ensures r == [] || !IsSpace(r[0])
    decreases |s|
  {
    if s != [] && IsSpace(s[0]) then TrimStart(s[1..]) else s
  }

  /** Drops trailing whitespace (`str.rstrip()`): what is left is a prefix
      of `s`, what was dropped is all whitespace, and what is left does not
      end with whitespace. */
  function TrimEnd(s: string): (r: string)
    ensures |r| <= |s| && r == s[..|r|]
    ensures AllSpace(s[|r|..])
    ensures r == [] || !IsSpace(r[|r| - 1])
    decreases |s|
  {
    if s != [] && IsSpace(s[|s| - 1]) then
      var r := TrimEnd(s[..|s| - 1]);
      assert s[|r|..] == s[..|s| - 1][|r|..] + [s[|s| - 1]];
      r
    else s
  }

  /** `str.strip()`: the result neither starts nor ends with whitespace. */
  function Strip(s: string): (r: string)
    ensures r == [] || (!IsSpace(r[0]) && !IsSpace(r[|r| - 1]))
  {
    TrimEnd(TrimStart(s))
  }

  /** A prefix of a suffix is a slice. */
  lemma PrefixOfSuffix(s: string, t: string, r: string)
    requires |t| <= |s| && t == s[|s| - |t|..]
    requires |r| <= |t| && r == t[..|r|]
    ensures r == s[|s| - |t|..|s| - |t| + |r|]
    ensures t[|r|..] == s[|s| - |t| + |r|..]
  {
  }

  /** What `str.strip()` keeps is the slice of the input starting at `i`,
      with only whitespace before and after it. */
  lemma StripIsTrimmedSlice(s: string) returns (i: nat)
    ensures i + |Strip(s)| <= |s| && Strip(s) == s[i..i + |Strip(s)|]
    ensures AllSpace(s[..i]) && AllSpace(s[i + |Strip(s)|..])
  {
    var t := TrimStart(s);
    var r := TrimEnd(t);
    i := |s| - |t|;
    PrefixOfSuffix(s, t, r);
  }

  /** `sep.join(parts)`. */
  function Join(sep: string, parts: seq<string>): string
    decreases |parts|
  {
    if |parts| == 0 then ""
    else if |parts| == 1 then parts[0]
    else parts[0] + sep + Join(sep, parts[1..])
  }

  /** Joining one more part puts exactly one separator before it. */
  lemma {:induction false} JoinAppend(sep: string, parts: seq<string>, p: string)
    requires parts != []
    ensures Join(sep, parts + [p]) == Join(sep, parts) + sep + p
    decreases |parts|
  {
    if |parts| == 1 {
      assert (parts + [p])[1..] == [p];
    } else {
      assert (parts + [p])[1..] == parts[1..] + [p];
      JoinAppend(sep, parts[1..], p);
    }
  }

  /** `s.startswith(p)`. */
  predicate StartsWith(s: string, p: string)
  {
    |p| <= |s| && s[..|p|] == p
  }

  /** `p` occurs in `s` starting at index `i`. */
  predicate OccursAt(s: string, p: string, i: int)
  {
    0 <= i && i + |p| <= |s| && s[i..i + |p|] == p
  }

  /** Prefixing a string shifts every occurrence past it by its length. */
  lemma OccursAfterPrefix(a: string, s: string, p: string, i: int)
    requires i >= |a|
    ensures OccursAt(a + s, p, i) <==> OccursAt(s, p, i - |a|)
  {
    if i + |p| <= |a| + |s| {
      assert (a + s)[i..i + |p|] == s[i - |a|..i - |a| + |p|];
    }
  }

  /** `p in s`. */
  ghost predicate Contains(s: string, p: string)
  {
    exists i :: OccursAt(s, p, i)
  }

  /** `s.replace(pat, rep)`: every non-overlapping occurrence of `pat`,
      scanning from the left, is replaced by `rep`. */
  function ReplaceAll(s: string, pat: string, rep: string): (r: string)
    requires pat != []
    ensures |s| < |pat| ==> r == s
    ensures StartsWith(s, pat) ==> StartsWith(r, rep)
    ensures |rep| <= |pat| ==> |r| <= |s|
    ensures |rep| >= |pat| ==> |r| >= |s|
    decreases |s|
  {
    if |s| < |pat| then s
    else if s[..|pat|] == pat then rep + ReplaceAll(s[|pat|..], pat, rep)
    else [s[0]] + ReplaceAll(s[1..], pat, rep)
  }

  /** Where no occurrence starts, the first character is kept. */
  lemma ReplaceAllKeepsFirst(s: string, pat: string, rep: string)
    requires pat != [] && |s| >= |pat| && !OccursAt(s, pat, 0)
    ensures ReplaceAll(s, pat, rep) == [s[0]] + ReplaceAll(s[1..], pat, rep)
  {
    assert s[..|pat|] != pat;
  }

  /** Where no occurrence starts at `j`, the character at `j` is kept. */
  lemma ReplaceAllKeepsAt(s: string, pat: string, rep: string, j: nat)
    requires pat != [] && j + |pat| <= |s| && !OccursAt(s, pat, j)
    ensures ReplaceAll(s[j..], pat, rep) == [s[j]] + ReplaceAll(s[j + 1..], pat, rep)
  {
    var u := s[j..];
    assert u[..|pat|] == s[j..j + |pat|];
    ReplaceAllKeepsFirst(u, pat, rep);
    assert u[1..] == s[j + 1..];
  }

  /** The text before the first `j` positions, none of which starts an
      occurrence, is kept as it is. */
  lemma {:induction false} ReplaceAllKeepsPrefix(s: string, pat: string, rep: string, j: nat)
    requires pat != [] && j + |pat| <= |s|
    requires forall i :: 0 <= i < j ==> !OccursAt(s, pat, i)
    ensures ReplaceAll(s, pat, rep) == s[..j] + ReplaceAll(s[j..], pat, rep)
    decreases j
  {
    if j == 0 {
      assert s[0..] == s;
    } else {
      ReplaceAllKeepsPrefix(s, pat, rep, j - 1);
      ReplaceAllKeepsAt(s, pat, rep, j - 1);
      assert s[..j] == s[..j - 1] + [s[j - 1]];
      Reassociate(s[..j - 1], [s[j - 1]], ReplaceAll(s[j..], pat, rep));
    }
  }

  /** Where an occurrence starts at `k`, it is rewritten and the scan
      resumes after it. */
  lemma ReplaceAllRewritesAt(s: string, pat: string, rep: string, k: nat)
    requires pat != [] && OccursAt(s, pat, k)
    ensures ReplaceAll(s[k..], pat, rep) == rep + ReplaceAll(s[k + |pat|..], pat, rep)
  {
    var u := s[k..];
    assert u[..|pat|] == pat;
    assert u[|pat|..] == s[k + |pat|..];
  }

  /** The leftmost occurrence of the pattern, at `k`, is rewritten, the
      text before it is kept, and the scan resumes after it (no
      overlapping match). */
  lemma ReplaceAllLeftmost(s: string, pat: string, rep: string, k: nat)
    requires pat != [] && OccursAt(s, pat, k)
    requires forall i :: 0 <= i < k ==> !OccursAt(s, pat, i)
    ensures ReplaceAll(s, pat, rep) == s[..k] + rep + ReplaceAll(s[k + |pat|..], pat, rep)
  {
    ReplaceAllKeepsPrefix(s, pat, rep, k);
    ReplaceAllRewritesAt(s, pat, rep, k);
    Reassociate(s[..k], rep, ReplaceAll(s[k + |pat|..], pat, rep));
  }

  lemma Reassociate(x: string, y: string, z: string)
    ensures x + (y + z) == x + y + z
  {
  }

  /** A string in which the pattern does not occur is left unchanged. */
  lemma {:induction false} ReplaceAllWithoutPattern(s: string, pat: string, rep: string)
    requires pat != []
    requires !Contains(s, pat)
    ensures ReplaceAll(s, pat, rep) == s
    decreases |s|
  {
    if |s| >= |pat| {
      assert !OccursAt(s, pat, 0);
      assert s[..|pat|] != pat;
      forall i | OccursAt(s[1..], pat, i) ensures false {
        assert s[1..][i..i + |pat|] == s[i + 1..i + 1 + |pat|];
        assert OccursAt(s, pat, i + 1);
      }
      ReplaceAllWithoutPattern(s[1..], pat, rep);
    }
  }

  /** An occurrence of `p` in `a + [c] + b`, where `p` does not contain
      `c`, lies wholly inside `a` or wholly inside `b`. */
  lemma SplitOccurrence(a: string, c: char, b: string, p: string)
    requires forall k :: 0 <= k < |p| ==> p[k] != c
    requires !Contains(a, p) && !Contains(b, p)
    ensures !Contains(a + [c] + b, p)
  {
    var s := a + [c] + b;
    forall i ensures !OccursAt(s, p, i) {
      if 0 <= i && i + |p| <= |s| {
        if i + |p| <= |a| {
          assert s[i..i + |p|] == a[i..i + |p|];
          assert !OccursAt(a, p, i);
        } else if i > |a| {
          assert s[i..i + |p|] == b[i - |a| - 1..i - |a| - 1 + |p|];
          assert !OccursAt(b, p, i - |a| - 1);
        } else {
          assert s[i..i + |p|][|a| - i] == c;
        }
      }
    }
  }

  /** Joining with a one-character separator that the pattern does not
      contain creates no occurrence of the pattern across parts. */
  lemma {:induction false} JoinWithoutPattern(c: char, parts: seq<string>, p: string)
    requires p != []
    requires forall k :: 0 <= k < |p| ==> p[k] != c
    requires forall j :: 0 <= j < |parts| ==> !Contains(parts[j], p)
    ensures !Contains(Join([c], parts), p)
    decreases |parts|
  {
    if |parts| > 1 {
      JoinWithoutPattern(c, parts[1..], p);
      assert !Contains(parts[0], p);
      SplitOccurrence(parts[0], c, Join([c], parts[1..]), p);
    } else if |parts| == 1 {
      assert !Contains(parts[0], p);
    }
  }

  function DigitChar(d: nat): char
    requires d < 10
  {
    ('0' as int + d) as char
  }

  predicate IsDigit(c: char)
  {
    '0' <= c <= '9'
  }

  predicate IsDecimal(s: string)
  {
    forall i :: 0 <= i < |s| ==> IsDigit(s[i])
  }

  /** `str(n)` for a non-negative `int`: a non-empty run of decimal digits
      with no leading zero. */
  function NatToString(n: nat): (s: string)
    ensures |s| >= 1 && IsDecimal(s)
    ensures |s| > 1 ==> s[0] != '0'
    ensures s[0] == '0' <==> n == 0
    decreases n
  {
    if n < 10 then [DigitChar(n)] else NatToString(n / 10) + [DigitChar(n % 10)]
  }

  /** Reads a run of decimal digits back as a number (Python's `int(s)`). */
  function DecimalValue(s: string): nat
    requires IsDecimal(s)
    decreases |s|
  {
    if s == [] then 0
    else DecimalValue(s[..|s| - 1]) * 10 + (s[|s| - 1] as int - '0' as int)
  }

  /** Reading the decimal rendering of a number gives the number back, so
      distinct numbers render differently. */
  lemma {:induction false} DecimalRoundTrip(n: nat)
    ensures DecimalValue(NatToString(n)) == n
    decreases n
  {
    if n >= 10 {
      DecimalRoundTrip(n / 10);
      var s := NatToString(n);
      assert s[..|s| - 1] == NatToString(n / 10);
    }
  }
}
