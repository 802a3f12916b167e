/**
 * `extract_commit_message`: picks the commit message out of a model's reply. A forward scan
 * over the lines of the stripped reply arms itself at a `Final Output.` or `Step 3: ` marker and
 * returns the first usable line after it; failing that, the last line if it is a strict
 * Conventional Commits header; failing that, a filled-in copy of the template when the model
 * echoed the template back unfilled; and, last of all, the reply's last line as it stands.
 */
module Extractor {
  import opened Wrappers
  import opened Strings
  import opened Placeholders
  import opened Conventional

  /** `lines[-1]` on an empty list of lines raises `IndexError`. */
  datatype ExtractError = IndexError

  /** A line that arms the scan: it contains `Final Output.` or `Step 3: ` (tested before stripping). */
  predicate IsMarker(line: string) {
    Contains(line, "Final Output.") || Contains(line, "Step 3: ")
  }

  /** The lenient test on a stripped line: non-empty and starting neither with `[Your` nor with `Step`. */
  predicate Acceptable(s: string) {
    s != [] && !StartsWith(s, "[Your") && !StartsWith(s, "Step")
  }

  /**
   * The source's `for` loop over `lines`, from a given armed state: a marker line arms the scan
   * and is skipped; an armed line is returned, stripped, when it passes the strict pattern or
   * the lenient test.
   */
  function Scan(lines: seq<string>, armed: bool): Option<string>
    decreases |lines|
  {
    if lines == [] then None
    else
      var stripped := Strip(lines[0]);
      if IsMarker(lines[0]) then Scan(lines[1..], true)
      else if armed && IsConventionalCommit(stripped) then Some(stripped)
      else if armed && Acceptable(stripped) then Some(stripped)
      else Scan(lines[1..], armed)
  }

  /** The replacements made when the reply is the template echoed back with its placeholders unfilled. */
  function EchoFallback(clean: string): string {
    Strip(ReplaceAll(ReplaceAll(ReplaceAll(clean, "<type>", "chore"), "<summary>", "update files"), "<scope>", ""))
  }

  /** The echo fallback of a one-line template is one line again, with no whitespace at either end. */
  lemma EchoFallbackIsOneLine(clean: string)
    ensures '\n' !in clean ==> '\n' !in EchoFallback(clean) && Strip(EchoFallback(clean)) == EchoFallback(clean)
  {
    if '\n' !in clean {
      var t1 := ReplaceAll(clean, "<type>", "chore");
      var t2 := ReplaceAll(t1, "<summary>", "update files");
      ReplaceKeepsCharOut(clean, "<type>", "chore", '\n');
      ReplaceKeepsCharOut(t1, "<summary>", "update files", '\n');
      ReplaceKeepsCharOut(t2, "<scope>", "", '\n');
      StrippedLineIsOneLine(ReplaceAll(t2, "<scope>", ""));
    }
  }

  /** The value `extract_commit_message(response, template)` returns, or the error it raises. */
  function Extract(response: string, template: string): Result<string, ExtractError> {
    var lines := SplitLines(Strip(response));
    match Scan(lines, false)
    case Some(message) => Ok(message)
    case None =>
      if lines == [] then Err(IndexError)
      else Ok(Fallback(response, Strip(lines[|lines| - 1]), template))
  }

  /** The fallbacks after an unsuccessful scan, given the stripped last line of the stripped reply. */
  function Fallback(response: string, finalLine: string, template: string): (r: string)
    requires Strip(response) != []
    ensures '\n' !in finalLine && Strip(finalLine) == finalLine ==> '\n' !in r && Strip(r) == r
  {
    if IsConventionalCommit(finalLine) then finalLine
    else
      var clean := CleanTemplate(template);
      if clean == finalLine then
        EchoFallbackIsOneLine(clean);
        EchoFallback(clean)
      else LastRawLine(response)
  }

  /** `response_text.splitlines()[-1].strip()`. */
  function LastRawLine(response: string): (line: string)
    requires Strip(response) != []
    ensures '\n' !in line && Strip(line) == line
  {
    var raw := SplitLines(response);
    assert raw != [] by { NonEmptyStripped(response); }
    StrippedLineIsOneLine(raw[|raw| - 1]);
    Strip(raw[|raw| - 1])
  }

  /** A reply whose strip is non-empty is non-empty. */
  lemma NonEmptyStripped(s: string)
    requires Strip(s) != []
    ensures s != []
  {
  }

  /** The source's loop, with its early returns, and the fallbacks after it. */
  method ExtractCommitMessage(responseText: string, commitTemplate: string) returns (r: Result<string, ExtractError>)
    ensures r == Extract(responseText, commitTemplate)
  {
    var lines := SplitLines(Strip(responseText));
    var startParsing := false;
    for i := 0 to |lines|
      invariant Scan(lines, false) == Scan(lines[i..], startParsing)
    {
      var line := lines[i];
      var strippedLine := Strip(line);
      assert lines[i..][1..] == lines[i + 1..];
      if IsMarker(line) {
        startParsing := true;
        continue;
      }
      if startParsing {
        if IsConventionalCommit(strippedLine) {
          return Ok(strippedLine);
        }
        if Acceptable(strippedLine) {
          return Ok(strippedLine);
        }
      }
    }
    if lines == [] {
      return Err(IndexError);
    }
    var finalLine := Strip(lines[|lines| - 1]);
    if IsConventionalCommit(finalLine) {
      return Ok(finalLine);
    }
    var cleanTemplate := CleanTemplate(commitTemplate);
    if cleanTemplate == finalLine {
      return Ok(EchoFallback(cleanTemplate));
    }
    var raw := SplitLines(responseText);
    NonEmptyStripped(responseText);
    return Ok(Strip(raw[|raw| - 1]));
  }

  /** Line `i` is armed: the scan starts armed, or an earlier line is a marker. */
  predicate ArmedAt(lines: seq<string>, armed: bool, i: int)
    requires 0 <= i <= |lines|
  {
    armed || exists m :: 0 <= m < i && IsMarker(lines[m])
  }

  /** Line `i` is one the scan may return: armed, not itself a marker, and acceptable once stripped. */
  predicate Eligible(lines: seq<string>, armed: bool, i: int)
    requires 0 <= i < |lines|
  {
    ArmedAt(lines, armed, i) && !IsMarker(lines[i]) && Acceptable(Strip(lines[i]))
  }

  lemma EligibleShift(lines: seq<string>, armed: bool, i: int)
    requires lines != [] && 0 <= i < |lines| - 1
    ensures Eligible(lines, armed, i + 1) <==> Eligible(lines[1..], armed || IsMarker(lines[0]), i)
  {
    var tail := lines[1..];
    assert tail[i] == lines[i + 1];
    if ArmedAt(lines, armed, i + 1) && !armed && !IsMarker(lines[0]) {
      var m :| 0 <= m < i + 1 && IsMarker(lines[m]);
      assert m > 0 && IsMarker(tail[m - 1]);
    }
    if ArmedAt(tail, armed || IsMarker(lines[0]), i) && !armed && !IsMarker(lines[0]) {
      var m :| 0 <= m < i && IsMarker(tail[m]);
      assert IsMarker(lines[m + 1]);
    }
    if IsMarker(lines[0]) {
      assert ArmedAt(lines, armed, i + 1);
    }
  }

  /** One step of the scan, in terms of eligibility: the strict test never picks a line the lenient test would not. */
  lemma ScanStep(lines: seq<string>, armed: bool)
    requires lines != []
    ensures Scan(lines, armed) == if Eligible(lines, armed, 0) then Some(Strip(lines[0])) else Scan(lines[1..], armed || IsMarker(lines[0]))
  {
    var stripped := Strip(lines[0]);
    assert ArmedAt(lines, armed, 0) == armed;
    if IsMarker(lines[0]) {
      assert Scan(lines, armed) == Scan(lines[1..], true);
    } else if armed && IsConventionalCommit(stripped) {
      ConventionalIsNotPlaceholder(stripped);
      assert Acceptable(stripped);
    } else {
      assert Scan(lines, armed) == if armed && Acceptable(stripped) then Some(stripped) else Scan(lines[1..], armed);
    }
  }

  /** The scan returns nothing exactly when no line is eligible. */
  lemma {:induction false} ScanNoneIff(lines: seq<string>, armed: bool)
    ensures Scan(lines, armed).None? <==> forall i :: 0 <= i < |lines| ==> !Eligible(lines, armed, i)
    decreases |lines|
  {
    if lines != [] {
      var armed' := armed || IsMarker(lines[0]);
      ScanStep(lines, armed);
      if !Eligible(lines, armed, 0) {
        ScanNoneIff(lines[1..], armed');
        NoneEligibleShift(lines, armed, armed');
      }
    }
  }

  /** Past an ineligible first line, no line is eligible exactly when no line of the rest is, from the updated armed state. */
  lemma NoneEligibleShift(lines: seq<string>, armed: bool, armed': bool)
    requires lines != [] && !Eligible(lines, armed, 0) && armed' == (armed || IsMarker(lines[0]))
    ensures (forall i :: 0 <= i < |lines| ==> !Eligible(lines, armed, i)) <==>
            (forall i :: 0 <= i < |lines| - 1 ==> !Eligible(lines[1..], armed', i))
  {
    var tail := lines[1..];
    forall i | 0 <= i < |lines| - 1 ensures Eligible(lines, armed, i + 1) <==> Eligible(tail, armed', i) {
      EligibleShift(lines, armed, i);
    }
    if forall i :: 0 <= i < |lines| - 1 ==> !Eligible(tail, armed', i) {
      forall i | 0 < i < |lines| ensures !Eligible(lines, armed, i) {
        assert !Eligible(tail, armed', i - 1);
      }
    }
  }

  /** Line `i` is eligible and no line before it is. */
  predicate FirstEligible(lines: seq<string>, armed: bool, i: int) {
    0 <= i < |lines| && Eligible(lines, armed, i) && forall j :: 0 <= j < i ==> !Eligible(lines, armed, j)
  }

  /** Whatever the scan returns is the first eligible line, stripped. */
  lemma {:induction false} ScanResultIsFirstEligible(lines: seq<string>, armed: bool)
    requires Scan(lines, armed).Some?
    ensures exists i :: FirstEligible(lines, armed, i) && Scan(lines, armed).value == Strip(lines[i])
    decreases |lines|
  {
    ScanStep(lines, armed);
    if !Eligible(lines, armed, 0) {
      var armed' := armed || IsMarker(lines[0]);
      ScanResultIsFirstEligible(lines[1..], armed');
      var i :| FirstEligible(lines[1..], armed', i) && Scan(lines[1..], armed').value == Strip(lines[1..][i]);
      FirstEligibleUnshift(lines, armed, armed', i);
    } else {
      assert FirstEligible(lines, armed, 0);
    }
  }

  /** Before an ineligible first line, the first eligible line of the rest is the first eligible line. */
  lemma FirstEligibleUnshift(lines: seq<string>, armed: bool, armed': bool, i: int)
    requires lines != [] && !Eligible(lines, armed, 0) && armed' == (armed || IsMarker(lines[0]))
    requires FirstEligible(lines[1..], armed', i)
    ensures FirstEligible(lines, armed, i + 1) && lines[1..][i] == lines[i + 1]
  {
    EligibleShift(lines, armed, i);
    NoneEligibleUnshift(lines, armed, armed', i);
  }

  lemma NoneEligibleUnshift(lines: seq<string>, armed: bool, armed': bool, i: int)
    requires lines != [] && !Eligible(lines, armed, 0) && armed' == (armed || IsMarker(lines[0]))
    requires 0 <= i < |lines| - 1 && forall j :: 0 <= j < i ==> !Eligible(lines[1..], armed', j)
    ensures forall j :: 0 <= j < i + 1 ==> !Eligible(lines, armed, j)
  {
    forall j | 0 < j < i + 1 ensures !Eligible(lines, armed, j) {
      EligibleShift(lines, armed, j - 1);
    }
  }

  /**
   * What the scan returns is the first eligible line, stripped. So a marker line is never
   * returned, and from an unarmed start nothing before the first marker is.
   */
  lemma ScanFindsFirstEligible(lines: seq<string>, armed: bool, i: int)
    requires FirstEligible(lines, armed, i)
    ensures Scan(lines, armed) == Some(Strip(lines[i]))
  {
    ScanNoneIff(lines, armed);
    ScanResultIsFirstEligible(lines, armed);
    var k :| FirstEligible(lines, armed, k) && Scan(lines, armed).value == Strip(lines[k]);
    FirstEligibleUnique(lines, armed, i, k);
  }

  lemma FirstEligibleUnique(lines: seq<string>, armed: bool, i: int, k: int)
    requires FirstEligible(lines, armed, i) && FirstEligible(lines, armed, k)
    ensures i == k
  {
  }

  /** The extractor fails exactly when the reply is empty or all whitespace, for any template. */
  lemma ExtractFailsIffBlank(response: string, template: string)
    ensures Extract(response, template).Err? <==> Strip(response) == []
  {
    if Strip(response) == [] {
      assert SplitLines(Strip(response)) == [];
    }
  }

  /** Every message the extractor returns is a single line with no whitespace at either end. */
  lemma ExtractIsOneStrippedLine(response: string, template: string)
    requires Extract(response, template).Ok?
    ensures '\n' !in Extract(response, template).value
    ensures Strip(Extract(response, template).value) == Extract(response, template).value
  {
    var lines := SplitLines(Strip(response));
    if Scan(lines, false).Some? {
      ScanResultIsFirstEligible(lines, false);
      var i :| FirstEligible(lines, false, i) && Scan(lines, false).value == Strip(lines[i]);
      StrippedLineIsOneLine(lines[i]);
    } else {
      StrippedLineIsOneLine(lines[|lines| - 1]);
    }
  }

  lemma StrippedLineIsOneLine(line: string)
    requires '\n' !in line
    ensures '\n' !in Strip(line) && Strip(Strip(line)) == Strip(line)
  {
    StripKeepsCharOut(line, '\n');
    StripIdempotent(line);
  }


  /** A stripped single line has itself as its only line. */
  lemma SingleLine(x: string)
    requires x != [] && '\n' !in x
    ensures SplitLines(x) == [x]
  {
  }

  /**
   * Extracting again from a non-empty extracted message gives it back, unless it fails the strict
   * pattern and equals the cleaned template (then the echo fallback rewrites it). An empty
   * message is not given back: extracting from it fails (`ExtractFailsIffBlank`).
   */
  lemma ExtractIdempotent(response: string, template: string)
    requires Extract(response, template).Ok?
    requires Extract(response, template).value != []
    requires IsConventionalCommit(Extract(response, template).value) || CleanTemplate(template) != Extract(response, template).value
    ensures Extract(Extract(response, template).value, template) == Extract(response, template)
  {
    var x := Extract(response, template).value;
    ExtractIsOneStrippedLine(response, template);
    SingleLine(x);
    assert SplitLines(Strip(x)) == [x];
    assert Scan([x], false) == None by {
      assert [x][1..] == [];
    }
  }

  /** The scan finds nothing, and `finalLine` is the stripped last line of the stripped reply, the one the fallbacks look at. */
  ghost predicate ScanFails(response: string, finalLine: string) {
    var lines := SplitLines(Strip(response));
    lines != [] && finalLine == Strip(lines[|lines| - 1]) &&
    forall i :: 0 <= i < |lines| ==> !Eligible(lines, false, i)
  }

  /** After a failed scan the extractor returns what the fallbacks make of the last line. */
  lemma ExtractAfterScanFails(response: string, template: string, finalLine: string)
    requires ScanFails(response, finalLine)
    ensures Strip(response) != []
    ensures Extract(response, template) == Ok(Fallback(response, finalLine, template))
  {
    ScanNoneIff(SplitLines(Strip(response)), false);
  }

  /** First fallback: a strict last line is returned. */
  lemma FallbackStrictLastLine(response: string, template: string, finalLine: string)
    requires ScanFails(response, finalLine) && IsConventionalCommit(finalLine)
    ensures Extract(response, template) == Ok(finalLine)
  {
    ExtractAfterScanFails(response, template, finalLine);
  }

  /** Second fallback: a last line equal to the cleaned template gives the filled-in echo. */
  lemma FallbackEcho(response: string, template: string, finalLine: string)
    requires ScanFails(response, finalLine) && !IsConventionalCommit(finalLine) && CleanTemplate(template) == finalLine
    ensures Extract(response, template) == Ok(EchoFallback(finalLine))
  {
    ExtractAfterScanFails(response, template, finalLine);
  }

  /** Last fallback: the last line of the unstripped reply, stripped. */
  lemma FallbackLastRawLine(response: string, template: string, finalLine: string)
    requires ScanFails(response, finalLine) && !IsConventionalCommit(finalLine) && CleanTemplate(template) != finalLine
    ensures SplitLines(response) != []
    ensures Extract(response, template) == Ok(Strip(SplitLines(response)[|SplitLines(response)| - 1]))
  {
    ExtractAfterScanFails(response, template, finalLine);
    FallbackToLastRawLine(response, finalLine, template);
    LastRawLineIsLastLine(response);
  }

  lemma FallbackToLastRawLine(response: string, finalLine: string, template: string)
    requires Strip(response) != [] && !IsConventionalCommit(finalLine) && CleanTemplate(template) != finalLine
    ensures Fallback(response, finalLine, template) == LastRawLine(response)
  {
  }

  lemma LastRawLineIsLastLine(response: string)
    requires Strip(response) != []
    ensures SplitLines(response) != []
    ensures LastRawLine(response) == Strip(SplitLines(response)[|SplitLines(response)| - 1])
  {
    NonEmptyStripped(response);
  }

  /** When some line after a marker is usable, the extractor returns the first such line, stripped. */
  lemma ExtractFirstEligible(response: string, template: string, i: int)
    requires FirstEligible(SplitLines(Strip(response)), false, i)
    ensures Extract(response, template) == Ok(Strip(SplitLines(Strip(response))[i]))
  {
    ScanFindsFirstEligible(SplitLines(Strip(response)), false, i);
  }

  /** A single line cannot be returned by the scan: it is either a marker, skipped, or unarmed. */
  lemma SingleLineScan(x: string)
    ensures Scan([x], false) == None
  {
    assert [x][1..] == [];
  }
}
