/**
 * `generate_template_instructions_text`: the block of per-placeholder guidance that is pasted
 * into the prompt. A header line, then one line per distinct placeholder name of the commit
 * template in ascending order, each taking its text from the caller's custom instructions,
 * else from the built-in defaults, else from a generic catch-all.
 */
module Instructions {
  import opened Wrappers
  import opened Strings
  import opened Ordering
  import opened Placeholders
  import opened CommitTemplate

  const Header := "각 플레이스홀더에 대한 지침:"

  /** `default_instruction_map.get(p)`: the built-in guidance for the five names the default configuration uses. */
  function DefaultInstruction(p: string): Option<string> {
    if p == "type" then Some(TypeGuidance)
    else if p == "scope" then Some(ScopeGuidance)
    else if p == "summary" then Some(SummaryGuidance)
    else if p == "body" then Some(BodyGuidance)
    else if p == "issue_refs" then Some(IssueRefsGuidance)
    else None
  }

  const TypeGuidance := "Conventional Commits 사양에 따른 커밋 타입 (예: feat, fix, docs, style, refactor, test, chore)."
  const ScopeGuidance := "변경 사항의 범위를 나타내는 선택적 영역입니다 (예: auth, ui, api, core). 변경 사항이 특정 범위에 국한되지 않으면 생략하세요."
  const SummaryGuidance := "변경 사항을 간결하게 요약하는 제목 (50자 이내)."
  const BodyGuidance := "변경 사항에 대한 더 자세한 설명입니다. 필요시 여러 줄로 작성합니다. 여러 줄일 경우 각 줄은 72자 이내로 래핑하세요."
  const IssueRefsGuidance := "관련된 이슈나 참조 (예: #123, Closes #456). 없으면 생략합니다."

  /** The f-string prefix ``- `p`: `` of an instruction line. */
  function LinePrefix(p: string): string {
    "- `" + p + "`: "
  }

  /** The catch-all text; it carries a line prefix of its own. */
  function GenericInstruction(p: string): string {
    LinePrefix(p) + "이 필드에 적절한 내용을 채우세요."
  }

  /** `custom_instructions.get(p, default_instruction_map.get(p, generic))`. */
  function Instruction(p: string, custom: map<string, string>): string {
    if p in custom then custom[p]
    else if DefaultInstruction(p).Some? then DefaultInstruction(p).value
    else GenericInstruction(p)
  }

  function InstructionLine(p: string, custom: map<string, string>): string {
    LinePrefix(p) + Instruction(p, custom)
  }

  /** One instruction line per name, in the order of `names`. */
  function InstructionLines(names: seq<string>, custom: map<string, string>): seq<string> {
    if names == [] then [] else InstructionLines(names[..|names| - 1], custom) + [InstructionLine(names[|names| - 1], custom)]
  }

  /** The lines of a longer prefix of the names add the line of the next name. */
  lemma InstructionLinesStep(names: seq<string>, i: int, custom: map<string, string>)
    requires 0 <= i < |names|
    ensures InstructionLines(names[..i + 1], custom) == InstructionLines(names[..i], custom) + [InstructionLine(names[i], custom)]
  {
    assert names[..i + 1][..i] == names[..i];
  }

  /** There is one line per name. */
  lemma {:induction false} InstructionLinesLength(names: seq<string>, custom: map<string, string>)
    ensures |InstructionLines(names, custom)| == |names|
  {
    if names != [] {
      InstructionLinesLength(names[..|names| - 1], custom);
    }
  }

  /** `instructions_list` as the source builds it. */
  function InstructionList(template: string, custom: map<string, string>): seq<string> {
    var placeholders := FindPlaceholders(template);
    if placeholders == [] then [] else [Header] + InstructionLines(SortedDistinct(placeholders), custom)
  }

  /** The value `generate_template_instructions_text` returns. */
  function InstructionsText(template: string, custom: map<string, string>): string {
    var lines := InstructionList(template, custom);
    if lines != [] then Join(lines, "\n") else ""
  }

  /** The source's loop: append the header, then one line per sorted distinct name, then join. */
  method GenerateTemplateInstructionsText(template: string, custom: map<string, string>) returns (text: string)
    ensures text == InstructionsText(template, custom)
  {
    var placeholders := FindPlaceholders(template);
    var instructionsList: seq<string> := [];
    if placeholders != [] {
      instructionsList := instructionsList + [Header];
      var names := SortedDistinct(placeholders);
      for i := 0 to |names|
        invariant instructionsList == [Header] + InstructionLines(names[..i], custom)
      {
        var p := names[i];
        var instruction := Instruction(p, custom);
        InstructionLinesStep(names, i, custom);
        instructionsList := instructionsList + [LinePrefix(p) + instruction];
      }
      assert names[..|names|] == names;
    }
    text := if instructionsList != [] then Join(instructionsList, "\n") else "";
  }

  /** The instruction text is empty exactly when the template has no `{word}` placeholder. */
  lemma InstructionsTextEmptyIff(template: string, custom: map<string, string>)
    ensures InstructionsText(template, custom) == "" <==> !HasPlaceholder(template)
  {
    FindPlaceholdersEmptyIff(template);
    var lines := InstructionList(template, custom);
    if lines != [] {
      JoinStartsWithHead(lines, "\n");
      assert lines[0] == Header;
    }
  }

  /**
   * With placeholders, the block is the header followed by exactly one line per distinct name,
   * in ascending order: the lines of ANY strictly sorted list of the template's names.
   */
  lemma InstructionListShape(template: string, custom: map<string, string>, names: seq<string>)
    requires HasPlaceholder(template)
    requires StrictlySorted(names) && Elements(names) == Elements(FindPlaceholders(template))
    ensures InstructionList(template, custom) == [Header] + InstructionLines(names, custom)
    ensures InstructionsText(template, custom) == Join([Header] + InstructionLines(names, custom), "\n")
    ensures |InstructionList(template, custom)| == 1 + |Elements(FindPlaceholders(template))|
  {
    FindPlaceholdersEmptyIff(template);
    SortedUnique(names, SortedDistinct(FindPlaceholders(template)));
    SortedLength(names);
    InstructionLinesLength(names, custom);
  }

  /** Duplicates and the order of placeholders in the template do not change the block. */
  lemma InstructionsOrderIndependent(t1: string, t2: string, custom: map<string, string>)
    requires Elements(FindPlaceholders(t1)) == Elements(FindPlaceholders(t2))
    ensures InstructionsText(t1, custom) == InstructionsText(t2, custom)
  {
    var p1, p2 := FindPlaceholders(t1), FindPlaceholders(t2);
    assert p1 == [] <==> p2 == [] by {
      if p1 != [] { assert p1[0] in Elements(p2); }
      if p2 != [] { assert p2[0] in Elements(p1); }
    }
    SortedUnique(SortedDistinct(p1), SortedDistinct(p2));
  }

  /**
   * Where each line's text comes from: the caller's entry first, then the built-in default
   * (defined for exactly five names), then the catch-all, which repeats the line prefix.
   */
  lemma InstructionPrecedence(p: string, custom: map<string, string>)
    ensures DefaultInstruction(p).Some? <==> p in {"type", "scope", "summary", "body", "issue_refs"}
    ensures p in custom ==> InstructionLine(p, custom) == LinePrefix(p) + custom[p]
    ensures p !in custom && DefaultInstruction(p).Some? ==> InstructionLine(p, custom) == LinePrefix(p) + DefaultInstruction(p).value
    ensures p !in custom && DefaultInstruction(p).None? ==>
      InstructionLine(p, custom) == LinePrefix(p) + LinePrefix(p) + "이 필드에 적절한 내용을 채우세요."
  {
  }

  /**
   * For the default template `feat({scope}): {summary}` and no custom entries, the block is the
   * header, then `scope`, then `summary`, each with its built-in text.
   */
  lemma DefaultTemplateInstructions()
    ensures InstructionList(DefaultTemplate, map[]) ==
      [Header, LinePrefix(ScopeName) + ScopeGuidance, LinePrefix(SummaryName) + SummaryGuidance]
  {
    DefaultTemplatePlaceholders();
    DefaultNamesGuidance();
    var names := [ScopeName, SummaryName];
    assert StrictlySorted(names) by {
      ScopeBeforeSummary();
    }
    SortedUnique(names, SortedDistinct(names));
    TwoInstructionLines(ScopeName, SummaryName, map[]);
  }

  lemma TwoInstructionLines(a: string, b: string, custom: map<string, string>)
    ensures InstructionLines([a, b], custom) == [InstructionLine(a, custom), InstructionLine(b, custom)]
  {
    assert [a, b][..1] == [a] && [a][..0] == [];
    assert InstructionLines([a], custom) == [InstructionLine(a, custom)];
  }

  lemma ScopeBeforeSummary()
    ensures Less(ScopeName, SummaryName)
  {
    assert ScopeName[0] == SummaryName[0] && ScopeName[1..][0] < SummaryName[1..][0];
  }

  lemma DefaultNamesGuidance()
    ensures Instruction(ScopeName, map[]) == ScopeGuidance
    ensures Instruction(SummaryName, map[]) == SummaryGuidance
  {
    assert ScopeName != "type" && SummaryName != "type" && SummaryName != "scope";
  }
}
