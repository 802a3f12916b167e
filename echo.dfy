/**
 * The echo fallback at work: a model that answers with the template itself, placeholders
 * unfilled, gets `feat(): update files` back for the default template, and an empty message
 * for the template `{scope}`.
 */
module Echo {
  import opened Strings
  import opened Wrappers
  import opened Conventional
  import opened CommitTemplate
  import opened Placeholders
  import opened Extractor

  function Token(n: string): string {
    "<" + n + ">"
  }

  /** Neither angle bracket occurs in `n`. */
  predicate Bare(n: string) {
    '<' !in n && '>' !in n
  }

  /** A shorter token is not a prefix of a text that starts with a longer one: its `>` meets a name character. */
  lemma ShorterTokenNotPrefix(n: string, m: string, rest: string)
    requires Bare(n) && |m| < |n|
    ensures !(Token(m) <= Token(n) + rest)
  {
    assert Token(m)[|m| + 1] == '>' && (Token(n) + rest)[|m| + 1] == n[|m|];
  }

  /** A longer token is not a prefix of a text that starts with a shorter one: a name character meets its `>`. */
  lemma LongerTokenNotPrefix(n: string, m: string, rest: string)
    requires Bare(m) && |n| < |m|
    ensures !(Token(m) <= Token(n) + rest)
  {
    assert (Token(n) + rest)[|n| + 1] == '>' && Token(m)[|n| + 1] == m[|n|];
  }

  /** A token is a prefix of a text that starts with another token only when the two names agree. */
  lemma TokenPrefix(n: string, m: string, rest: string)
    requires Bare(n) && Bare(m) && Token(m) <= Token(n) + rest
    ensures m == n
  {
    if |m| < |n| {
      ShorterTokenNotPrefix(n, m, rest);
    } else if |n| < |m| {
      LongerTokenNotPrefix(n, m, rest);
    } else {
      var s := Token(n) + rest;
      assert forall k :: 0 <= k < |m| ==> m[k] == Token(m)[k + 1] == s[k + 1] == n[k];
    }
  }

  /** Replacing `Token(m)` at a token `Token(n)`: replaced when the names agree, copied otherwise. */
  lemma TokenStep(n: string, rest: string, m: string, rep: string)
    requires Bare(n) && Bare(m)
    ensures ReplaceAll(Token(n) + rest, Token(m), rep) == (if m == n then rep else Token(n)) + ReplaceAll(rest, Token(m), rep)
  {
    if m == n {
      ReplaceAtStart(rest, Token(m), rep);
    } else {
      if Token(m) <= Token(n) + rest {
        TokenPrefix(n, m, rest);
      }
      var s := Token(n) + rest;
      assert s[1..] == (n + ">") + rest;
      ReplaceFreePrefix(n + ">", rest, Token(m), rep);
    }
  }

  /** Replacing `Token(m)` in text laid out as `a`, a token, `b`, a token. */
  lemma ReplaceInTwoTokens(a: string, n1: string, b: string, n2: string, m: string, rep: string)
    requires '<' !in a && '<' !in b && Bare(n1) && Bare(n2) && Bare(m)
    ensures ReplaceAll(a + (Token(n1) + (b + (Token(n2) + []))), Token(m), rep) ==
      a + ((if m == n1 then rep else Token(n1)) + (b + ((if m == n2 then rep else Token(n2)) + [])))
  {
    var pat := Token(m);
    var y := b + (Token(n2) + []);
    ReplaceFreePrefix(a, Token(n1) + y, pat, rep);
    TokenStep(n1, y, m, rep);
    ReplaceFreePrefix(b, Token(n2) + [], pat, rep);
    TokenStep(n2, [], m, rep);
  }

  /** `<type>` does not occur in `feat(<scope>): <summary>`. */
  lemma EchoTypeStep()
    ensures ReplaceAll(CleanDefaultTemplate, "<type>", "chore") == CleanDefaultTemplate
  {
    var m := "type";
    assert "<type>" == Token(m);
    assert CleanDefaultTemplate == Head + (Token(ScopeName) + (Middle + (Token(SummaryName) + [])));
    assert m != ScopeName && m != SummaryName && Bare(ScopeName) && Bare(SummaryName) && Bare(m);
    ReplaceInTwoTokens(Head, ScopeName, Middle, SummaryName, m, "chore");
  }

  /** `<summary>` occurs once in `feat(<scope>): <summary>`, at the end. */
  lemma EchoSummaryStep()
    ensures ReplaceAll(CleanDefaultTemplate, "<summary>", "update files") == Head + (Token(ScopeName) + (Middle + ("update files" + [])))
  {
    assert "<summary>" == Token(SummaryName);
    assert CleanDefaultTemplate == Head + (Token(ScopeName) + (Middle + (Token(SummaryName) + [])));
    assert SummaryName != ScopeName && Bare(ScopeName) && Bare(SummaryName);
    ReplaceInTwoTokens(Head, ScopeName, Middle, SummaryName, SummaryName, "update files");
  }

  /** `<scope>` then occurs once, after `feat(`; the rest holds no `<`. */
  lemma EchoScopeStep()
    ensures ReplaceAll(Head + (Token(ScopeName) + (Middle + ("update files" + []))), "<scope>", "") == Head + Middle + "update files"
  {
    var y := Middle + ("update files" + []);
    assert "<scope>" == Token(ScopeName);
    assert '<' !in Head && '<' !in y && Bare(ScopeName);
    ReplaceLoneToken(Head, ScopeName, y, "");
    assert Head + ("" + y) == Head + Middle + "update files";
  }

  /** A single token between texts without `<` is the one occurrence replaced. */
  lemma ReplaceLoneToken(a: string, n: string, y: string, rep: string)
    requires '<' !in a && '<' !in y && Bare(n)
    ensures ReplaceAll(a + (Token(n) + y), Token(n), rep) == a + (rep + y)
  {
    ReplaceFreePrefix(a, Token(n) + y, Token(n), rep);
    TokenStep(n, y, n, rep);
    assert y + [] == y;
    ReplaceFreePrefix(y, [], Token(n), rep);
  }

  /** The echo fallback for the default template: `feat(<scope>): <summary>` becomes `feat(): update files`. */
  lemma DefaultTemplateEchoFallback()
    ensures EchoFallback(CleanDefaultTemplate) == Head + Middle + "update files"
  {
    EchoTypeStep();
    EchoSummaryStep();
    EchoScopeStep();
    StripOfStripped(Head + Middle + "update files");
  }

  /** `feat(<scope>): <summary>` is a single line with no whitespace at either end. */
  lemma CleanDefaultTemplateIsOneLine()
    ensures CleanDefaultTemplate != [] && '\n' !in CleanDefaultTemplate && Strip(CleanDefaultTemplate) == CleanDefaultTemplate
  {
    var c := CleanDefaultTemplate;
    assert c[0] == 'f' && c[|c| - 1] == '>';
    StripOfStripped(c);
  }

  /** The strict pattern rejects `feat(<scope>): <summary>`: `<` is not a scope character. */
  lemma CleanDefaultTemplateIsNotConventional()
    ensures !IsConventionalCommit(CleanDefaultTemplate)
  {
    var c := CleanDefaultTemplate;
    assert |c| > 5 && c[0] == 'f' && c[1] == 'e' && c[4] == '(' && c[5] == '<';
    FeatWithBadScope(c);
  }

  /** A reply that is the default template with its placeholders unfilled is answered with `feat(): update files`. */
  lemma DefaultTemplateEcho()
    ensures Extract(CleanDefaultTemplate, DefaultTemplate) == Ok(Head + Middle + "update files")
  {
    var c := CleanDefaultTemplate;
    CleanDefaultTemplateIsOneLine();
    CleanDefaultTemplateIsNotConventional();
    SingleLine(c);
    assert SplitLines(Strip(c)) == [c];
    assert !ArmedAt([c], false, 0);
    assert ScanFails(c, c);
    DefaultTemplatePlaceholders();
    FallbackEcho(c, DefaultTemplate, c);
    DefaultTemplateEchoFallback();
  }

  lemma EchoText()
    ensures Head + Middle + "update files" == "feat(): update files"
  {
  }

  /** A reply starting with `<` is never a strict Conventional Commits header. */
  lemma AngleIsNotConventional(s: string)
    requires s != [] && s[0] == '<'
    ensures !IsConventionalCommit(s)
  {
    assert LowerChar('<') == '<';
    forall i | 0 <= i < |CommitTypes| ensures !StartsWithIgnoringCase(s, CommitTypes[i]) {
      TypeInitials(i);
    }
  }

  /** The fallback's three replacements remove a lone `<scope>` entirely. */
  lemma ScopeTokenEchoFallback()
    ensures EchoFallback(Token(ScopeName)) == []
  {
    var c := Token(ScopeName);
    assert Bare(ScopeName) && c + [] == c;
    assert "<type>" == Token("type") && "<summary>" == Token("summary") && "<scope>" == Token(ScopeName);
    TokenStep(ScopeName, [], "type", "chore");
    TokenStep(ScopeName, [], "summary", "update files");
    TokenStep(ScopeName, [], ScopeName, "");
  }

  /**
   * The extractor can return an empty message: for the template `{scope}`, a reply `<scope>` is
   * the echoed template, and the fallback removes all of it.
   */
  lemma EchoCanBeEmpty()
    ensures Extract(Token(ScopeName), "{" + ScopeName + "}") == Ok([])
  {
    var c := Token(ScopeName);
    var template := "{" + ScopeName + "}";
    assert c[0] == '<' && c[|c| - 1] == '>' && '\n' !in c;
    StripOfStripped(c);
    AngleIsNotConventional(c);
    SingleLine(c);
    assert !ArmedAt([c], false, 0);
    assert ScanFails(c, c);
    assert forall k :: 0 <= k < |ScopeName| ==> IsWordChar(ScopeName[k]);
    PlaceholderPrefix(ScopeName, []);
    assert template + [] == template && c + [] == c;
    FallbackEcho(c, template, c);
    ScopeTokenEchoFallback();
  }

  /**
   * The other way to an empty message: a reply ending in a whitespace-only line. The fallback to
   * the last raw line strips that line to nothing. The endpoint strips the reply before it reaches
   * the extractor, so this only happens when the extractor is called on its own.
   */
  lemma TrailingBlankLineGivesEmpty(response: string, template: string)
    requires response == "a\n " && CleanTemplate(template) != "a"
    ensures Extract(response, template) == Ok([])
  {
    BlankEndedReply();
    LetterIsNotConventional();
    SingleLine("a");
    assert !ArmedAt(["a"], false, 0);
    assert ScanFails(response, "a");
    FallbackLastRawLine(response, template, "a");
  }

  /** How `a`, a line feed and a space is stripped and split. */
  lemma BlankEndedReply()
    ensures Strip("a\n ") == "a" && Strip("a") == "a" && Strip(" ") == []
    ensures SplitLines("a\n ") == ["a", " "]
  {
    var r := "a\n ";
    assert IndexOf(r, '\n') == 1;
    assert r[2..] == " " && r[..1] == "a";
    assert IndexOf(" ", '\n') == 1;
  }

  lemma LetterIsNotConventional()
    ensures !IsConventionalCommit("a")
  {
    forall i | 0 <= i < |CommitTypes| ensures !StartsWithIgnoringCase("a", CommitTypes[i]) {
      TypeInitials(i);
    }
  }
}
