/**
 * The strict Conventional Commits pattern of the extractor,
 * `^(feat|fix|docs|style|refactor|test|chore|build|ci|perf|revert)(\([\w.-]+\))?:\s+.+`
 * with `re.IGNORECASE`, applied with `re.match` (anchored at the start only), written out as a predicate.
 */
module Conventional {
  import opened Strings

  /** The closed vocabulary of commit types, in the order of the pattern's alternation. */
  const CommitTypes: seq<string> := ["feat", "fix", "docs", "style", "refactor", "test", "chore", "build", "ci", "perf", "revert"]

  /** `s` starts with the lower-case word `t`, ignoring ASCII case. */
  predicate StartsWithIgnoringCase(s: string, t: string) {
    |t| <= |s| && forall k :: 0 <= k < |t| ==> LowerChar(s[k]) == t[k]
  }

  /** The class `[\w.-]`. */
  predicate IsScopeChar(c: char) {
    IsWordChar(c) || c == '.' || c == '-'
  }

  /**
   * `\s+.+` at the start of `s`: one or more whitespace characters, then a character other than
   * a line feed. `\s+` may give back characters, so a line feed inside the spaces is passed over.
   */
  predicate SpaceThenText(s: string)
    decreases |s|
  {
    2 <= |s| && IsSpace(s[0]) && (s[1] != '\n' || SpaceThenText(s[1..]))
  }

  /** The backtracking reading of `\s+.+`: some non-empty run of whitespace is followed by a character other than a line feed. */
  lemma {:induction false} SpaceThenTextMeansSomeSplit(s: string)
    ensures SpaceThenText(s) <==> exists k :: 1 <= k < |s| && AllSpace(s[..k]) && s[k] != '\n'
    decreases |s|
  {
    if 2 <= |s| && IsSpace(s[0]) {
      SpaceThenTextMeansSomeSplit(s[1..]);
      if s[1] == '\n' {
        if SpaceThenText(s[1..]) {
          var k :| 1 <= k < |s| - 1 && AllSpace(s[1..][..k]) && s[1..][k] != '\n';
          assert s[..k + 1] == [s[0]] + s[1..][..k];
          assert AllSpace(s[..k + 1]) && s[k + 1] != '\n';
        }
        if exists k :: 1 <= k < |s| && AllSpace(s[..k]) && s[k] != '\n' {
          var k :| 1 <= k < |s| && AllSpace(s[..k]) && s[k] != '\n';
          assert k > 1;
          assert s[1..][..k - 1] == s[1..k];
          assert AllSpace(s[1..][..k - 1]) && s[1..][k - 1] != '\n';
        }
      } else {
        assert AllSpace(s[..1]);
      }
    }
  }

  /** Length of the run of `[\w.-]` characters at the start of `s`. */
  function ScopeRun(s: string): (n: nat)
    ensures n <= |s| && forall k :: 0 <= k < n ==> IsScopeChar(s[k])
    ensures n == |s| || !IsScopeChar(s[n])
  {
    if s == [] || !IsScopeChar(s[0]) then 0 else 1 + ScopeRun(s[1..])
  }

  /**
   * `(\([\w.-]+\))?:\s+.+` at the start of `s`. A `)` is not in `[\w.-]`, so the scope, when
   * present, is exactly the longest run of scope characters after the `(`; when the group fails
   * the colon must come first. `ScopeGroupMeansSomeClose` proves this reading the same as the
   * backtracking one.
   */
  predicate ScopeAndDescription(s: string) {
    if s == [] then false
    else if s[0] == ':' then SpaceThenText(s[1..])
    else if s[0] == '(' then
      var n := ScopeRun(s[1..]);
      0 < n && n + 2 < |s| && s[n + 1] == ')' && s[n + 2] == ':' && SpaceThenText(s[n + 3..])
    else false
  }

  /** Every character of `t` is in `[\w.-]`. */
  predicate AllScopeChars(t: string) {
    forall k :: 0 <= k < |t| ==> IsScopeChar(t[k])
  }

  /** After the `(` at the start of `s`, the `n` characters up to `)` and `:` form a scope, and the description follows. */
  predicate ClosedScopeAt(s: string, n: int) {
    1 <= n && n + 2 < |s| && AllScopeChars(s[1..n + 1]) && s[n + 1] == ')' && s[n + 2] == ':' && SpaceThenText(s[n + 3..])
  }

  /**
   * The backtracking reading of the group `(\([\w.-]+\))?` followed by `:`: the scope matches when
   * SOME non-empty run of scope characters after the `(` is closed by `)` and then `:`.
   */
  lemma ScopeGroupMeansSomeClose(s: string)
    requires s != [] && s[0] == '('
    ensures ScopeAndDescription(s) <==> exists n :: ClosedScopeAt(s, n)
  {
    var m := ScopeRun(s[1..]);
    if ScopeAndDescription(s) {
      assert s[1..m + 1] == s[1..][..m];
      assert ClosedScopeAt(s, m);
    }
    if exists n :: ClosedScopeAt(s, n) {
      var n :| ClosedScopeAt(s, n);
      assert s[1..][..n] == s[1..n + 1] && s[1..][n] == ')';
      RunClosedBy(s[1..], n);
    }
  }

  /** A run of scope characters ended by a character outside `[\w.-]` is the longest one. */
  lemma RunClosedBy(t: string, n: nat)
    requires n < |t| && AllScopeChars(t[..n]) && !IsScopeChar(t[n])
    ensures ScopeRun(t) == n
  {
  }

  /** The whole pattern matches at the start of `s`: one of the types, ignoring case, then the rest of the pattern. */
  predicate IsConventionalCommit(s: string) {
    exists i :: 0 <= i < |CommitTypes| && StartsWithIgnoringCase(s, CommitTypes[i]) && ScopeAndDescription(s[|CommitTypes[i]|..])
  }

  /**
   * After the first `t` characters, `s` continues as the pattern reads it: the colon at `m` comes
   * straight away, or after a `(scope)` of `[\w.-]` characters, and `\s+.+` follows it.
   */
  predicate SplitAfter(s: string, t: int, m: int) {
    0 <= t <= m < |s| && s[m] == ':' && SpaceThenText(s[m + 1..]) &&
    (m == t || (m >= t + 3 && s[t] == '(' && s[m - 1] == ')' && AllScopeChars(s[t + 1..m - 1])))
  }

  /** `s` starts with the type `CommitTypes[i]`, ignoring case, and splits after it with the colon at `m`. */
  predicate TypedSplit(s: string, i: int, m: int) {
    0 <= i < |CommitTypes| && StartsWithIgnoringCase(s, CommitTypes[i]) && SplitAfter(s, |CommitTypes[i]|, m)
  }

  /** Conversely to `ScopedIsConventional` and `UnscopedIsConventional`, every matching line splits that way. */
  lemma ConventionalSplits(s: string)
    requires IsConventionalCommit(s)
    ensures exists i, m :: TypedSplit(s, i, m)
  {
    var i :| 0 <= i < |CommitTypes| && StartsWithIgnoringCase(s, CommitTypes[i]) && ScopeAndDescription(s[|CommitTypes[i]|..]);
    RestSplits(s, |CommitTypes[i]|);
    var m :| SplitAfter(s, |CommitTypes[i]|, m);
    assert TypedSplit(s, i, m);
  }

  /** The split reading is exact: a line that splits after a type that way matches. */
  lemma SplitIsConventional(s: string, i: int, m: int)
    requires TypedSplit(s, i, m)
    ensures IsConventionalCommit(s)
  {
    SplitRestMatches(s, |CommitTypes[i]|, m);
  }

  /** A colon at `m`, after nothing or after a `(scope)`, followed by `\s+.+`, is what the pattern wants after the type. */
  lemma SplitRestMatches(s: string, t: int, m: int)
    requires SplitAfter(s, t, m)
    ensures ScopeAndDescription(s[t..])
  {
    var r := s[t..];
    if m == t {
      assert r[1..] == s[m + 1..];
    } else {
      var n := m - t - 2;
      assert r[1..][..n] == s[t + 1..m - 1] && r[1..][n] == ')';
      RunClosedBy(r[1..], n);
      assert r[n + 3..] == s[m + 1..];
    }
  }

  /** What follows the type splits at a colon, with the optional scope before it. */
  lemma RestSplits(s: string, t: int)
    requires 0 <= t <= |s| && ScopeAndDescription(s[t..])
    ensures exists m :: SplitAfter(s, t, m)
  {
    var r := s[t..];
    if r[0] == ':' {
      assert s[t + 1..] == r[1..];
      assert SplitAfter(s, t, t);
    } else {
      var n := ScopeRun(r[1..]);
      assert s[t + n + 3..] == r[n + 3..];
      assert s[t + 1..t + n + 1] == r[1..][..n];
      assert SplitAfter(s, t, t + n + 2);
    }
  }

  /**
   * A conventional line is never one the extractor's lenient test would reject: it is not empty
   * and starts neither with `[Your` nor with `Step`. So the strict test before the lenient one
   * never changes which line is picked.
   */
  lemma ConventionalIsNotPlaceholder(s: string)
    requires IsConventionalCommit(s)
    ensures s != [] && !("[Your" <= s) && !("Step" <= s)
  {
    var i :| 0 <= i < |CommitTypes| && StartsWithIgnoringCase(s, CommitTypes[i]) && ScopeAndDescription(s[|CommitTypes[i]|..]);
    TypedLineIsNotPlaceholder(s, i);
  }

  lemma TypedLineIsNotPlaceholder(s: string, i: nat)
    requires i < |CommitTypes| && StartsWithIgnoringCase(s, CommitTypes[i])
    ensures s != [] && !("[Your" <= s) && !("Step" <= s)
  {
    var t := CommitTypes[i];
    TypeInitials(i);
    assert LowerChar(s[0]) == t[0] && (|t| > 2 ==> LowerChar(s[2]) == t[2]);
    assert LowerChar('S') == 's' && LowerChar('e') == 'e' && LowerChar('[') == '[';
    assert s[0] != '[';
    assert s[0] == 'S' ==> s[2] != 'e';
    assert "[Your"[0] == '[' && "Step"[0] == 'S' && "Step"[2] == 'e';
  }

  /** Every type starts with a lower-case letter, and the one type starting with `s` is `style`. */
  lemma TypeInitials(i: nat)
    requires i < |CommitTypes|
    ensures |CommitTypes[i]| >= 2 && 'a' <= CommitTypes[i][0] <= 'z'
    ensures CommitTypes[i][0] == 's' ==> |CommitTypes[i]| > 2 && CommitTypes[i][2] == 'y'
  {
    assert i in {0, 1, 2, 3, 4, 5, 6, 7, 8, 9, 10};
  }

  /** Which commit type a line starts with is decided by its first two letters. */
  lemma TypeOfPrefix(s: string, i: nat)
    requires i < |CommitTypes| && StartsWithIgnoringCase(s, CommitTypes[i])
    ensures i == 0 <==> LowerChar(s[0]) == 'f' && LowerChar(s[1]) == 'e'
    ensures i == 1 <==> LowerChar(s[0]) == 'f' && LowerChar(s[1]) == 'i'
  {
    assert LowerChar(s[0]) == CommitTypes[i][0] && LowerChar(s[1]) == CommitTypes[i][1];
    assert i in {0, 1, 2, 3, 4, 5, 6, 7, 8, 9, 10};
  }

  /** A prefix that is already lower case matches case-insensitively. */
  lemma LowerCasePrefix(s: string, t: string)
    requires t <= s && forall k :: 0 <= k < |t| ==> LowerChar(t[k]) == t[k]
    ensures StartsWithIgnoringCase(s, t)
  {
    assert forall k :: 0 <= k < |t| ==> s[k] == t[k];
  }

  /** Every type with a non-empty scope, a colon, a space and a description on one line is conventional. */
  lemma ScopedIsConventional(i: nat, scope: string, description: string)
    requires i < |CommitTypes| && scope != [] && forall k :: 0 <= k < |scope| ==> IsScopeChar(scope[k])
    requires description != [] && description[0] != '\n'
    ensures IsConventionalCommit(CommitTypes[i] + "(" + scope + "): " + description)
  {
    var t := CommitTypes[i];
    var s := t + "(" + scope + "): " + description;
    LowerCaseTypes(i);
    LowerCasePrefix(s, t);
    var r := s[|t|..];
    assert r == "(" + scope + "): " + description;
    assert r[1..][..|scope|] == scope && r[1..][|scope|] == ')';
    assert ScopeRun(r[1..]) == |scope|;
    assert r[|scope| + 3..] == " " + description;
    assert ScopeAndDescription(r);
  }

  /** Every type followed directly by a colon, a space and a description on one line is conventional. */
  lemma UnscopedIsConventional(i: nat, description: string)
    requires i < |CommitTypes| && description != [] && description[0] != '\n'
    ensures IsConventionalCommit(CommitTypes[i] + ": " + description)
  {
    var t := CommitTypes[i];
    var s := t + ": " + description;
    LowerCaseTypes(i);
    LowerCasePrefix(s, t);
    var r := s[|t|..];
    assert r == ": " + description;
    assert r[1..] == " " + description;
  }

  lemma LowerCaseTypes(i: nat)
    requires i < |CommitTypes|
    ensures forall k :: 0 <= k < |CommitTypes[i]| ==> LowerChar(CommitTypes[i][k]) == CommitTypes[i][k]
  {
    assert i in {0, 1, 2, 3, 4, 5, 6, 7, 8, 9, 10};
  }

  /** A scoped message of the prompt's style, `feat(utils): add helper`, is conventional. */
  lemma ExampleWithScope(s: string)
    requires s == "feat(utils): add helper"
    ensures IsConventionalCommit(s)
  {
    var scope, description := s[5..10], s[13..];
    assert scope == "utils" && description == "add helper";
    assert s == CommitTypes[0] + "(" + scope + "): " + description;
    ScopedIsConventional(0, scope, description);
  }

  /** After `feat(`, a character outside `[\w.-]` rules the line out: the type can only be `feat`, and its scope is empty. */
  lemma FeatWithBadScope(s: string)
    requires |s| > 5 && s[0] == 'f' && s[1] == 'e' && s[4] == '(' && !IsScopeChar(s[5])
    ensures !IsConventionalCommit(s)
  {
    forall i | 0 <= i < |CommitTypes| && StartsWithIgnoringCase(s, CommitTypes[i])
      ensures !ScopeAndDescription(s[|CommitTypes[i]|..])
    {
      assert LowerChar('f') == 'f' && LowerChar('e') == 'e';
      TypeOfPrefix(s, i);
      assert CommitTypes[i] == "feat";
      assert s[4..][1..][0] == s[5];
    }
  }

  /** An empty scope `()` does not match `[\w.-]+`. */
  lemma EmptyScopeIsNotConventional(s: string)
    requires s == "feat(): update files"
    ensures !IsConventionalCommit(s)
  {
    assert s[0] == 'f' && s[1] == 'e' && s[4] == '(' && s[5] == ')';
    FeatWithBadScope(s);
  }

  /** A missing description does not match `\s+.+`. */
  lemma MissingDescriptionIsNotConventional(s: string)
    requires s == "fix: "
    ensures !IsConventionalCommit(s)
  {
    forall i | 0 <= i < |CommitTypes| && StartsWithIgnoringCase(s, CommitTypes[i])
      ensures !ScopeAndDescription(s[|CommitTypes[i]|..])
    {
      assert s[0] == 'f' && s[1] == 'i' && LowerChar('f') == 'f' && LowerChar('i') == 'i';
      TypeOfPrefix(s, i);
      assert CommitTypes[i] == "fix";
      var r := s[3..];
      assert r == ": " && r[1..] == " ";
    }
  }
}
