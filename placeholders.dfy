/**
 * The placeholder pattern `\{(\w+)\}` of the commit template: `re.findall` collects the names,
 * `re.sub` with `<\1>` rewrites every occurrence to an angle-bracket token. Both scan left to
 * right, take the leftmost occurrence and resume after it, so they share `MatchAt`.
 */
module Placeholders {
  import opened Wrappers
  import opened Strings

  /** `s[i..j+1]` is `{name}` for a non-empty run of word characters. */
  ghost predicate PlaceholderSpan(s: string, i: int, j: int) {
    0 <= i && i + 1 < j < |s| && s[i] == '{' && s[j] == '}' && forall k :: i < k < j ==> IsWordChar(s[k])
  }

  /** The pattern occurs somewhere in `s`. */
  ghost predicate HasPlaceholder(s: string) {
    exists i, j :: PlaceholderSpan(s, i, j)
  }

  /** Length of the run of word characters at the start of `s`. */
  function WordRun(s: string): (n: nat)
    ensures n <= |s| && forall k :: 0 <= k < n ==> IsWordChar(s[k])
    ensures n == |s| || !IsWordChar(s[n])
  {
    if s == [] || !IsWordChar(s[0]) then 0 else 1 + WordRun(s[1..])
  }

  /** A run of word characters ended by another character is the whole word run. */
  lemma {:induction false} WordRunIsMaximal(s: string, m: int)
    requires 0 <= m < |s| && !IsWordChar(s[m]) && forall k :: 0 <= k < m ==> IsWordChar(s[k])
    ensures WordRun(s) == m
    decreases m
  {
    if m > 0 {
      WordRunIsMaximal(s[1..], m - 1);
    }
  }

  /** A placeholder at the start of `s` ends right after the word run following its `{`. */
  lemma SpansEndAtRun(s: string)
    requires s != [] && s[0] == '{'
    ensures forall j :: PlaceholderSpan(s, 0, j) ==> j == WordRun(s[1..]) + 1
  {
    forall j | PlaceholderSpan(s, 0, j) ensures j == WordRun(s[1..]) + 1 {
      WordRunIsMaximal(s[1..], j - 1);
    }
  }

  /** `re.match(r'\{(\w+)\}', s)`: the captured name when the pattern matches at the start of `s`. */
  function MatchAt(s: string): (m: Option<string>)
    ensures m.Some? ==> PlaceholderSpan(s, 0, |m.value| + 1) && m.value == s[1..|m.value| + 1]
    ensures m.None? ==> forall j :: !PlaceholderSpan(s, 0, j)
  {
    if s != [] && s[0] == '{' then
      var n := WordRun(s[1..]);
      SpansEndAtRun(s);
      if 0 < n && n + 1 < |s| && s[n + 1] == '}' then Some(s[1..n + 1]) else None
    else
      None
  }

  /** `re.findall(r'\{(\w+)\}', s)`: the names of all occurrences, in order, duplicates kept. */
  function FindPlaceholders(s: string): seq<string>
    decreases |s|
  {
    if s == [] then []
    else match MatchAt(s)
      case Some(n) => [n] + FindPlaceholders(s[|n| + 2..])
      case None => FindPlaceholders(s[1..])
  }

  /** The scanner finds only placeholder names: every name found is the word of some `{word}` span. */
  lemma {:induction false} FoundIsPlaceholder(s: string, x: string)
    requires x in FindPlaceholders(s)
    ensures exists i, j :: PlaceholderSpan(s, i, j) && s[i + 1..j] == x
    decreases |s|
  {
    FindStep(s);
    if x in FindFront(s) {
      FoundFront(s, x);
    } else {
      FoundIsPlaceholder(s[Resume(s)..], x);
      var i, j :| PlaceholderSpan(s[Resume(s)..], i, j) && s[Resume(s)..][i + 1..j] == x;
      FoundBack(s, x, i, j);
    }
  }

  lemma FoundFront(s: string, x: string)
    requires s != [] && x in FindFront(s)
    ensures PlaceholderSpan(s, 0, |x| + 1) && s[1..|x| + 1] == x
  {
  }

  lemma FoundBack(s: string, x: string, i: int, j: int)
    requires s != [] && PlaceholderSpan(s[Resume(s)..], i, j) && s[Resume(s)..][i + 1..j] == x
    ensures PlaceholderSpan(s, i + Resume(s), j + Resume(s)) && s[i + Resume(s) + 1..j + Resume(s)] == x
  {
    var d := Resume(s);
    SpanShift(s, d, i, j);
    SliceOfSuffix(s, d, i + d + 1, j + d);
  }

  /** So every name found is a non-empty run of word characters, and `{name}` occurs in the template. */
  lemma FoundIsWord(s: string, x: string)
    requires x in FindPlaceholders(s)
    ensures x != [] && (forall c :: c in x ==> IsWordChar(c)) && Contains(s, "{" + x + "}")
  {
    FoundIsPlaceholder(s, x);
    var i, j :| PlaceholderSpan(s, i, j) && s[i + 1..j] == x;
    SpanWord(s, i, j);
  }

  /** The word of a span is a non-empty run of word characters, found in `s` between its braces. */
  lemma SpanWord(s: string, i: int, j: int)
    requires PlaceholderSpan(s, i, j)
    ensures s[i + 1..j] != [] && (forall c :: c in s[i + 1..j] ==> IsWordChar(c)) && Contains(s, "{" + s[i + 1..j] + "}")
  {
    var x := s[i + 1..j];
    forall c | c in x ensures IsWordChar(c) {
      var t :| 0 <= t < |x| && x[t] == c;
      assert s[i + 1 + t] == c;
    }
    assert s[i..j + 1] == "{" + x + "}";
    ContainsAt(s, "{" + x + "}", i);
  }

  /**
   * The scanner misses no occurrence: the name of every `{word}` span is found. Spans cannot
   * overlap, since neither brace is a word character, so an earlier match never swallows one.
   */
  lemma FindPlaceholdersComplete(s: string, i: int, j: int)
    requires PlaceholderSpan(s, i, j)
    ensures s[i + 1..j] in FindPlaceholders(s)
  {
    FindNameOfSpan(s, i, j, s[i + 1..j]);
  }

  lemma {:induction false} FindNameOfSpan(s: string, i: int, j: int, x: string)
    requires PlaceholderSpan(s, i, j) && x == s[i + 1..j]
    ensures x in FindPlaceholders(s)
    decreases |s|
  {
    if MatchAt(s).Some? && i == 0 {
      FindFirst(s, MatchAt(s).value, j);
    } else {
      SpanAfterMatch(s, i, j);
      SpanInRest(s, i, j);
      FindNameOfSpan(s[Resume(s)..], i - Resume(s), j - Resume(s), x);
      FindLater(s, x);
    }
  }

  lemma SpanInRest(s: string, i: int, j: int)
    requires s != [] && Resume(s) <= i && PlaceholderSpan(s, i, j)
    ensures PlaceholderSpan(s[Resume(s)..], i - Resume(s), j - Resume(s))
    ensures s[Resume(s)..][i - Resume(s) + 1..j - Resume(s)] == s[i + 1..j]
  {
    SpanShift(s, Resume(s), i - Resume(s), j - Resume(s));
    SliceOfSuffix(s, Resume(s), i + 1, j);
  }

  /** Where the scanner resumes after looking at the start of `s`: past the match, or one character on. */
  function Resume(s: string): (d: nat)
    requires s != []
    ensures 0 < d <= |s|
  {
    match MatchAt(s)
    case Some(n) => |n| + 2
    case None => 1
  }

  /** The names found are those of the match at the start, if any, then those found from the resume point. */
  lemma FindStep(s: string)
    requires s != []
    ensures FindPlaceholders(s) == FindFront(s) + FindPlaceholders(s[Resume(s)..])
  {
  }

  /** The name matched at the start of `s`, if any. */
  function FindFront(s: string): seq<string> {
    match MatchAt(s)
    case Some(n) => [n]
    case None => []
  }

  lemma FindFirst(s: string, n: string, j: int)
    requires MatchAt(s) == Some(n) && PlaceholderSpan(s, 0, j)
    ensures s[1..j] in FindPlaceholders(s)
  {
    SpansEndAtRun(s);
    FindStep(s);
  }

  /** A span other than the one matched at the start begins at or after the resume point. */
  lemma SpanAfterMatch(s: string, i: int, j: int)
    requires PlaceholderSpan(s, i, j) && (MatchAt(s).None? || i != 0)
    ensures Resume(s) <= i
  {
    if MatchAt(s).Some? {
      var n := MatchAt(s).value;
      assert PlaceholderSpan(s, 0, |n| + 1);
      assert s[|n| + 1] == '}';
    }
  }

  /** A name found from the resume point is found. */
  lemma FindLater(s: string, x: string)
    requires s != [] && x in FindPlaceholders(s[Resume(s)..])
    ensures x in FindPlaceholders(s)
  {
    FindStep(s);
    InAppend(x, FindFront(s), FindPlaceholders(s[Resume(s)..]));
  }

  lemma SliceOfSuffix(s: string, d: int, a: int, b: int)
    requires 0 <= d <= a <= b <= |s|
    ensures s[d..][a - d..b - d] == s[a..b]
  {
  }

  lemma InAppend(x: string, front: seq<string>, back: seq<string>)
    requires x in back
    ensures x in front + back
  {
    var t :| 0 <= t < |back| && back[t] == x;
    assert (front + back)[|front| + t] == x;
  }

  /** A span in a suffix of `s` is a span of `s`, shifted. */
  lemma SpanShift(s: string, d: nat, i: int, j: int)
    requires d <= |s| && 0 <= i
    ensures PlaceholderSpan(s[d..], i, j) <==> PlaceholderSpan(s, i + d, j + d)
  {
    if PlaceholderSpan(s, i + d, j + d) {
      forall k | i < k < j ensures IsWordChar(s[d..][k]) {
        assert s[d..][k] == s[k + d];
      }
    }
  }

  /** The scanner misses nothing: it finds a name exactly when the pattern occurs. */
  lemma {:induction false} FindPlaceholdersEmptyIff(s: string)
    ensures FindPlaceholders(s) == [] <==> !HasPlaceholder(s)
    decreases |s|
  {
    if s != [] {
      match MatchAt(s)
      case Some(n) =>
        assert PlaceholderSpan(s, 0, |n| + 1);
      case None =>
        FindPlaceholdersEmptyIff(s[1..]);
        if HasPlaceholder(s) {
          var i, j :| PlaceholderSpan(s, i, j);
          assert i > 0;
          SpanShift(s, 1, i - 1, j - 1);
          assert HasPlaceholder(s[1..]);
        }
        if HasPlaceholder(s[1..]) {
          var i, j :| PlaceholderSpan(s[1..], i, j);
          SpanShift(s, 1, i, j);
          assert PlaceholderSpan(s, i + 1, j + 1);
        }
    }
  }

  /**
   * `re.sub(r'\{(\w+)\}', lambda m: f"<{m.group(1)}>", s)`: every occurrence `{name}` becomes
   * `<name>`. Only the braces of matched occurrences change, so the length is kept.
   */
  function CleanTemplate(s: string): (r: string)
    ensures |r| == |s|
    decreases |s|
  {
    if s == [] then []
    else match MatchAt(s)
      case Some(n) => "<" + n + ">" + CleanTemplate(s[|n| + 2..])
      case None => [s[0]] + CleanTemplate(s[1..])
  }

  /** Position `k` holds the `{` of a placeholder. */
  ghost predicate OpensPlaceholder(s: string, k: int) {
    exists j :: PlaceholderSpan(s, k, j)
  }

  /** Position `k` holds the `}` of a placeholder. */
  ghost predicate ClosesPlaceholder(s: string, k: int) {
    exists i :: PlaceholderSpan(s, i, k)
  }

  /**
   * The rewrite exactly: the `{` of every placeholder becomes `<`, its `}` becomes `>`, and every
   * other character, stray braces included, is kept.
   */
  lemma {:induction false} CleanTemplateAt(s: string, k: int)
    requires 0 <= k < |s|
    ensures CleanTemplate(s)[k] == Rewritten(s, k)
    decreases |s|
  {
    var d := Resume(s);
    if k < d {
      CleanInsideFirst(s, k);
    } else {
      CleanTemplateAt(s[d..], k - d);
      CleanShiftIndex(s, k);
      RewrittenShift(s, k);
    }
  }

  /** Past the resume point, the rewrite of `s` is the rewrite of the rest. */
  lemma CleanShiftIndex(s: string, k: int)
    requires s != [] && Resume(s) <= k < |s|
    ensures CleanTemplate(s)[k] == CleanTemplate(s[Resume(s)..])[k - Resume(s)]
  {
    CleanSplit(s);
  }

  lemma CleanSplit(s: string)
    requires s != []
    ensures CleanTemplate(s)[Resume(s)..] == CleanTemplate(s[Resume(s)..])
  {
    CleanStep(s);
  }

  /** Past the resume point, what belongs at a position does not depend on the text before the resume point. */
  lemma RewrittenShift(s: string, k: int)
    requires s != [] && Resume(s) <= k < |s|
    ensures Rewritten(s, k) == Rewritten(s[Resume(s)..], k - Resume(s))
  {
    var d := Resume(s);
    OpensShift(s, d, k);
    NoSpanClosesAfter(s, k);
    ClosesShift(s, d, k);
    assert s[d..][k - d] == s[k];
  }

  /** What the rewrite puts at position `k`. */
  ghost function Rewritten(s: string, k: int): char
    requires 0 <= k < |s|
  {
    if OpensPlaceholder(s, k) then '<' else if ClosesPlaceholder(s, k) then '>' else s[k]
  }

  /** The rewrite of the start of `s` up to the resume point, and the rewrite of the rest. */
  lemma CleanStep(s: string)
    requires s != []
    ensures CleanTemplate(s) == CleanFront(s) + CleanTemplate(s[Resume(s)..])
  {
  }

  /** The rewrite of the start of `s` up to the resume point: the matched placeholder as a token, or the first character. */
  function CleanFront(s: string): (front: string)
    requires s != []
    ensures |front| == Resume(s)
  {
    match MatchAt(s)
    case Some(n) => "<" + n + ">"
    case None => [s[0]]
  }

  /** Before the resume point the rewrite is right: the matched placeholder, or one character that opens none. */
  lemma CleanInsideFirst(s: string, k: int)
    requires 0 <= k < |s| && k < Resume(s)
    ensures CleanTemplate(s)[k] == Rewritten(s, k)
  {
    if MatchAt(s).Some? {
      CleanInsideMatch(s, MatchAt(s).value, k);
    } else {
      CleanUnmatched(s);
    }
  }

  lemma CleanInsideMatch(s: string, n: string, k: int)
    requires MatchAt(s) == Some(n) && 0 <= k < |n| + 2
    ensures CleanTemplate(s)[k] == Rewritten(s, k)
  {
    CleanStep(s);
    IndexInFront(CleanFront(s), CleanTemplate(s[Resume(s)..]), k);
    RewrittenInMatch(s, n, k);
  }

  lemma IndexInFront(front: string, back: string, k: int)
    requires 0 <= k < |front|
    ensures (front + back)[k] == front[k]
  {
  }

  /** Inside a placeholder matched at the start, what belongs at each position is its token. */
  lemma RewrittenInMatch(s: string, n: string, k: int)
    requires MatchAt(s) == Some(n) && 0 <= k < |n| + 2
    ensures Rewritten(s, k) == ("<" + n + ">")[k]
  {
    assert PlaceholderSpan(s, 0, |n| + 1);
    assert !IsWordChar('{') && !IsWordChar('}');
    if k == 0 {
      assert OpensPlaceholder(s, 0);
    } else if k == |n| + 1 {
      assert ClosesPlaceholder(s, k);
    } else {
      assert s[k] == n[k - 1] && IsWordChar(s[k]);
    }
  }

  lemma CleanUnmatched(s: string)
    requires s != [] && MatchAt(s).None?
    ensures CleanTemplate(s)[0] == Rewritten(s, 0)
  {
    CleanStep(s);
    assert !ClosesPlaceholder(s, 0);
  }

  /** No placeholder closing at or after the resume point opens before it. */
  lemma NoSpanClosesAfter(s: string, k: int)
    requires s != [] && Resume(s) <= k < |s|
    ensures forall i :: 0 <= i < Resume(s) ==> !PlaceholderSpan(s, i, k)
  {
    assert !IsWordChar('{');
    if MatchAt(s).Some? {
      var n := MatchAt(s).value;
      assert PlaceholderSpan(s, 0, |n| + 1);
      SpansEndAtRun(s);
    }
  }

  /** Whether a position opens a placeholder does not depend on the text before it. */
  lemma OpensShift(s: string, d: int, k: int)
    requires 0 <= d <= k < |s|
    ensures OpensPlaceholder(s[d..], k - d) <==> OpensPlaceholder(s, k)
  {
    if OpensPlaceholder(s, k) {
      var j :| PlaceholderSpan(s, k, j);
      SpanShift(s, d, k - d, j - d);
    }
    if OpensPlaceholder(s[d..], k - d) {
      var j :| PlaceholderSpan(s[d..], k - d, j);
      SpanShift(s, d, k - d, j);
    }
  }

  /** Nor does whether it closes one, when no placeholder closing there opens before `d`. */
  lemma ClosesShift(s: string, d: int, k: int)
    requires 0 <= d <= k < |s|
    requires forall i :: 0 <= i < d ==> !PlaceholderSpan(s, i, k)
    ensures ClosesPlaceholder(s[d..], k - d) <==> ClosesPlaceholder(s, k)
  {
    if ClosesPlaceholder(s, k) {
      var i :| PlaceholderSpan(s, i, k);
      SpanShift(s, d, i - d, k - d);
    }
    if ClosesPlaceholder(s[d..], k - d) {
      var i :| PlaceholderSpan(s[d..], i, k - d);
      SpanShift(s, d, i, k - d);
    }
  }

  /** `r` is `s` with some `{` turned into `<` and some `}` into `>`, and nothing else changed. */
  ghost predicate BracesOnlyChanged(s: string, r: string) {
    |r| == |s| && forall k :: 0 <= k < |s| ==> r[k] == s[k] || (s[k] == '{' && r[k] == '<') || (s[k] == '}' && r[k] == '>')
  }

  /** Hence the rewrite changes only braces, each the way round its own kind. */
  lemma CleanChangesOnlyBraces(s: string)
    ensures BracesOnlyChanged(s, CleanTemplate(s))
  {
    forall k | 0 <= k < |s| ensures CleanTemplate(s)[k] == s[k] || (s[k] == '{' && CleanTemplate(s)[k] == '<') || (s[k] == '}' && CleanTemplate(s)[k] == '>') {
      CleanTemplateAt(s, k);
    }
  }

  /** A template without placeholders is left as it is. */
  lemma {:induction false} CleanWithoutPlaceholders(s: string)
    requires !HasPlaceholder(s)
    ensures CleanTemplate(s) == s
    decreases |s|
  {
    if s != [] {
      match MatchAt(s)
      case Some(n) =>
      case None =>
        if HasPlaceholder(s[1..]) {
          var i, j :| PlaceholderSpan(s[1..], i, j);
          SpanShift(s, 1, i, j);
        }
        CleanWithoutPlaceholders(s[1..]);
    }
  }

  /** Text without an opening brace contributes no name and is copied unchanged by the rewrite. */
  lemma {:induction false} BraceFreePrefix(a: string, b: string)
    requires '{' !in a
    ensures FindPlaceholders(a + b) == FindPlaceholders(b)
    ensures CleanTemplate(a + b) == a + CleanTemplate(b)
    decreases |a|
  {
    if a != [] {
      var s := a + b;
      assert s[0] == a[0] && s[1..] == a[1..] + b;
      assert MatchAt(s) == None;
      assert FindPlaceholders(s) == FindPlaceholders(s[1..]);
      assert CleanTemplate(s) == [s[0]] + CleanTemplate(s[1..]);
      BraceFreePrefix(a[1..], b);
      assert a == [a[0]] + a[1..];
    } else {
      assert a + b == b;
    }
  }

  /** A placeholder `{name}` contributes `name` and is rewritten to `<name>`. */
  lemma PlaceholderPrefix(name: string, b: string)
    requires name != [] && forall k :: 0 <= k < |name| ==> IsWordChar(name[k])
    ensures FindPlaceholders("{" + name + "}" + b) == [name] + FindPlaceholders(b)
    ensures CleanTemplate("{" + name + "}" + b) == "<" + name + ">" + CleanTemplate(b)
  {
    var s := "{" + name + "}" + b;
    assert s[0] == '{' && s[1..][..|name|] == name && s[1..][|name|] == '}';
    assert WordRun(s[1..]) == |name|;
    assert s[|name| + 1] == '}' && s[1..|name| + 1] == name;
    assert MatchAt(s) == Some(name);
    assert s[|name| + 2..] == b;
  }

  /** Two placeholders, each after brace-free text, name exactly those two, in order. */
  lemma TwoPlaceholders(a: string, n1: string, b: string, n2: string)
    requires '{' !in a && '{' !in b
    requires n1 != [] && forall k :: 0 <= k < |n1| ==> IsWordChar(n1[k])
    requires n2 != [] && forall k :: 0 <= k < |n2| ==> IsWordChar(n2[k])
    ensures FindPlaceholders(a + ("{" + n1 + "}" + (b + ("{" + n2 + "}" + [])))) == [n1, n2]
  {
    var tail := "{" + n2 + "}" + [];
    var rest := b + tail;
    var x := "{" + n1 + "}" + rest;
    PlaceholderPrefix(n2, []);
    BraceFreePrefix(b, tail);
    PlaceholderPrefix(n1, rest);
    BraceFreePrefix(a, x);
  }

  /** ... and both are rewritten to angle-bracket tokens, the text around them kept. */
  lemma TwoPlaceholdersClean(a: string, n1: string, b: string, n2: string)
    requires '{' !in a && '{' !in b
    requires n1 != [] && forall k :: 0 <= k < |n1| ==> IsWordChar(n1[k])
    requires n2 != [] && forall k :: 0 <= k < |n2| ==> IsWordChar(n2[k])
    ensures CleanTemplate(a + ("{" + n1 + "}" + (b + ("{" + n2 + "}" + [])))) == a + ("<" + n1 + ">" + (b + ("<" + n2 + ">" + [])))
  {
    var tail := "{" + n2 + "}" + [];
    var rest := b + tail;
    var x := "{" + n1 + "}" + rest;
    PlaceholderPrefix(n2, []);
    BraceFreePrefix(b, tail);
    PlaceholderPrefix(n1, rest);
    BraceFreePrefix(a, x);
  }
}
