/**
 * The few Python string operations the commit-message service relies on, restricted to ASCII:
 * `str.isspace`, `str.strip`, `str.splitlines` (on '\n' only), `str.join`, `in`,
 * `str.startswith`, `str.replace` and `str.lower`.
 */
module Strings {

  /** Python's whitespace among ASCII characters: TAB, LF, VT, FF, CR, the four separators FS..US, and SPACE. */
  predicate IsSpace(c: char) {
    c == ' ' || ('\t' <= c <= '\r') || ('\U{1C}' <= c <= '\U{1F}')
  }

  /** The regular-expression class `\w` on ASCII: letters, digits and underscore. */
  predicate IsWordChar(c: char) {
    ('a' <= c <= 'z') || ('A' <= c <= 'Z') || ('0' <= c <= '9') || c == '_'
  }

  predicate AllSpace(s: string) {
    forall i :: 0 <= i < |s| ==> IsSpace(s[i])
  }

  /** Number of whitespace characters at the start of `s`. */
  function LeadingSpaces(s: string): (k: nat)
    ensures k <= |s| && AllSpace(s[..k])
    ensures k == |s| || !IsSpace(s[k])
  {
    if s == [] || !IsSpace(s[0]) then 0 else 1 + LeadingSpaces(s[1..])
  }

  /** Number of whitespace characters at the end of `s`. */
  function TrailingSpaces(s: string): (k: nat)
    ensures k <= |s| && AllSpace(s[|s| - k..])
    ensures k == |s| || !IsSpace(s[|s| - 1 - k])
  {
    if s == [] || !IsSpace(s[|s| - 1]) then 0 else 1 + TrailingSpaces(s[..|s| - 1])
  }

  /** `s.strip()`: `s` without its leading and trailing whitespace. */
  function Strip(s: string): (r: string)
    ensures r == [] || (!IsSpace(r[0]) && !IsSpace(r[|r| - 1]))
  {
    var a := LeadingSpaces(s);
    if a == |s| then []
    else
      var b := TrailingSpaces(s);
      s[a..|s| - b]
  }

  /** The strip is the part of `s` between a run of leading and a run of trailing whitespace. */
  lemma StripIsInfix(s: string)
    ensures exists i, j :: 0 <= i <= j <= |s| && Strip(s) == s[i..j] && AllSpace(s[..i]) && AllSpace(s[j..])
  {
    var a := LeadingSpaces(s);
    if a == |s| {
      assert Strip(s) == s[a..a] && AllSpace(s[|s|..]);
    } else {
      var b := TrailingSpaces(s);
      assert Strip(s) == s[a..|s| - b];
    }
  }

  /** A string that neither starts nor ends with whitespace is its own strip. */
  lemma {:induction false} StripOfStripped(s: string)
    requires s == [] || (!IsSpace(s[0]) && !IsSpace(s[|s| - 1]))
    ensures Strip(s) == s
  {
    if s != [] {
      assert LeadingSpaces(s) == 0;
      assert TrailingSpaces(s) == 0;
    }
  }

  /** Stripping twice is stripping once. */
  lemma StripIdempotent(s: string)
    ensures Strip(Strip(s)) == Strip(s)
  {
    StripOfStripped(Strip(s));
  }

  /** Index of the first `c` in `s`, or `|s|` when there is none. */
  function IndexOf(s: string, c: char): (i: nat)
    ensures i <= |s| && c !in s[..i]
    ensures i < |s| ==> s[i] == c
  {
    if s == [] then 0 else if s[0] == c then 0 else 1 + IndexOf(s[1..], c)
  }

  /**
   * `s.splitlines()` with '\n' as the only line boundary: an empty string has no lines,
   * and a boundary at the very end does not open a further, empty line.
   */
  function SplitLines(s: string): (lines: seq<string>)
    ensures lines == [] <==> s == []
    ensures forall k :: 0 <= k < |lines| ==> '\n' !in lines[k]
    decreases |s|
  {
    if s == [] then []
    else
      var i := IndexOf(s, '\n');
      if i == |s| then [s] else [s[..i]] + SplitLines(s[i + 1..])
  }

  /** `sep.join(xs)`. */
  function Join(xs: seq<string>, sep: string): string {
    if xs == [] then []
    else if |xs| == 1 then xs[0]
    else xs[0] + sep + Join(xs[1..], sep)
  }

  /** Joining the lines with '\n' gives back the text, up to a single final '\n'. */
  lemma {:induction false} SplitLinesJoin(s: string)
    ensures Join(SplitLines(s), "\n") + (if s != [] && s[|s| - 1] == '\n' then "\n" else "") == s
    decreases |s|
  {
    if s != [] {
      var i := IndexOf(s, '\n');
      if i < |s| {
        var rest := s[i + 1..];
        assert s == s[..i] + "\n" + rest;
        SplitLinesJoin(rest);
        if rest != [] {
          SplitLinesJoinStep(s, i);
          assert s[|s| - 1] == rest[|rest| - 1];
        }
      }
    }
  }

  /** Past the first line feed, the lines are the first line and the lines of the rest. */
  lemma SplitLinesJoinStep(s: string, i: nat)
    requires i == IndexOf(s, '\n') && i + 1 < |s|
    ensures Join(SplitLines(s), "\n") == s[..i] + "\n" + Join(SplitLines(s[i + 1..]), "\n")
  {
    var tail := SplitLines(s[i + 1..]);
    var lines := [s[..i]] + tail;
    assert SplitLines(s) == lines;
    assert tail != [] && lines[0] == s[..i] && lines[1..] == tail;
    JoinCons(lines, "\n");
  }

  lemma JoinCons(xs: seq<string>, sep: string)
    requires |xs| >= 2
    ensures Join(xs, sep) == xs[0] + sep + Join(xs[1..], sep)
  {
  }

  /** The first element is a prefix of the joined text. */
  lemma JoinStartsWithHead(xs: seq<string>, sep: string)
    requires xs != []
    ensures xs[0] <= Join(xs, sep)
  {
  }

  /** `p in s` for strings: `p` occurs in `s` as a contiguous substring. */
  predicate Contains(s: string, p: string)
    decreases |s|
  {
    p <= s || (s != [] && Contains(s[1..], p))
  }

  /** `Contains` agrees with the positional reading of a substring occurrence. */
  lemma {:induction false} ContainsAt(s: string, p: string, i: nat)
    requires i + |p| <= |s| && s[i..i + |p|] == p
    ensures Contains(s, p)
    decreases i
  {
    if i > 0 {
      assert s[1..][i - 1..i - 1 + |p|] == s[i..i + |p|];
      ContainsAt(s[1..], p, i - 1);
    }
  }

  /** A character outside `s` is outside every substring of `s`. */
  lemma {:induction false} ContainsChar(s: string, p: string, c: char)
    requires Contains(s, p) && c !in s
    ensures c !in p
    decreases |s|
  {
    if !(p <= s) {
      ContainsChar(s[1..], p, c);
    }
  }

  /** `s.startswith(p)` is Dafny's prefix test `p <= s`; kept as the source's name for readability. */
  predicate StartsWith(s: string, p: string) {
    p <= s
  }

  /** `s.replace(old, new)`: every non-overlapping occurrence of `old`, left to right, with no rescan. */
  function ReplaceAll(s: string, pat: string, rep: string): string
    requires pat != []
    decreases |s|
  {
    if s == [] then []
    else if pat <= s then rep + ReplaceAll(s[|pat|..], pat, rep)
    else [s[0]] + ReplaceAll(s[1..], pat, rep)
  }

  /** Replacing a text that does not occur changes nothing. */
  lemma {:induction false} ReplaceAbsent(s: string, pat: string, rep: string)
    requires pat != [] && !Contains(s, pat)
    ensures ReplaceAll(s, pat, rep) == s
    decreases |s|
  {
    if s != [] {
      ReplaceAbsent(s[1..], pat, rep);
    }
  }

  /** Replacing with a text free of `c` does not bring `c` in. */
  lemma {:induction false} ReplaceKeepsCharOut(s: string, pat: string, rep: string, c: char)
    requires pat != [] && c !in s && c !in rep
    ensures c !in ReplaceAll(s, pat, rep)
    decreases |s|
  {
    if s != [] {
      if pat <= s {
        ReplaceKeepsCharOut(s[|pat|..], pat, rep, c);
      } else {
        ReplaceKeepsCharOut(s[1..], pat, rep, c);
      }
    }
  }

  /** Text that does not hold the pattern's first character is copied unchanged by the replacement. */
  lemma {:induction false} ReplaceFreePrefix(a: string, b: string, pat: string, rep: string)
    requires pat != [] && pat[0] !in a
    ensures ReplaceAll(a + b, pat, rep) == a + ReplaceAll(b, pat, rep)
    decreases |a|
  {
    if a != [] {
      var s := a + b;
      assert s[0] == a[0] && s[1..] == a[1..] + b;
      assert !(pat <= s);
      ReplaceFreePrefix(a[1..], b, pat, rep);
      assert a == [a[0]] + a[1..];
    } else {
      assert a + b == b;
    }
  }

  /** An occurrence at the start is replaced, and the scan resumes after it. */
  lemma ReplaceAtStart(b: string, pat: string, rep: string)
    requires pat != []
    ensures ReplaceAll(pat + b, pat, rep) == rep + ReplaceAll(b, pat, rep)
  {
    assert (pat + b)[|pat|..] == b;
  }

  /** A character outside `s` is outside `Strip(s)`. */
  lemma StripKeepsCharOut(s: string, c: char)
    requires c !in s
    ensures c !in Strip(s)
  {
    var i, j :| 0 <= i <= j <= |s| && Strip(s) == s[i..j];
    assert forall k :: 0 <= k < j - i ==> Strip(s)[k] == s[i + k];
  }

  function LowerChar(c: char): char {
    if 'A' <= c <= 'Z' then (c as int - 'A' as int + 'a' as int) as char else c
  }

  /** `s.lower()` on ASCII letters. */
  function Lower(s: string): (r: string)
    ensures |r| == |s| && forall k :: 0 <= k < |s| ==> r[k] == LowerChar(s[k])
    ensures forall k :: 0 <= k < |r| ==> !('A' <= r[k] <= 'Z')
    ensures forall k :: 0 <= k < |s| && !('A' <= s[k] <= 'Z') ==> r[k] == s[k]
  {
    seq(|s|, k requires 0 <= k < |s| => LowerChar(s[k]))
  }
}
