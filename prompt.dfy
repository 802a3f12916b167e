/**
 * The prompt assembly of the `/generate-commit-message` endpoint: the language code, the
 * configured template and the model id are resolved with their defaults, the base prompt's five
 * replacement fields are filled in one pass, the model's reply is stripped, and the extractor
 * picks the message out of it. The model call itself is a function passed in.
 */
module Prompt {
  import opened Wrappers
  import opened Strings
  import opened CommitTemplate
  import opened Instructions
  import opened Extractor
  import opened Echo

  /** The named replacement fields of the prompt templates. */
  datatype Field = LanguageName | CommitMessageTemplate | TemplateInstructionsText | DiffContent

  /** A prompt template as `str.format` reads it: literal text and replacement fields. */
  datatype Piece = Text(text: string) | Slot(field: Field)

  /** The keyword arguments of the `format` call. */
  datatype Values = Values(languageName: string, commitMessageTemplate: string, templateInstructionsText: string, diffContent: string)

  function ValueOf(v: Values, f: Field): string {
    match f
    case LanguageName => v.languageName
    case CommitMessageTemplate => v.commitMessageTemplate
    case TemplateInstructionsText => v.templateInstructionsText
    case DiffContent => v.diffContent
  }

  /** What one piece contributes to the output: its text, or the value of its field. */
  function PieceText(p: Piece, v: Values): string {
    match p
    case Text(t) => t
    case Slot(f) => ValueOf(v, f)
  }

  /** `template.format(**values)`: text is copied, each field is replaced by its value, and nothing inserted is read again. */
  function Format(template: seq<Piece>, v: Values): string
    decreases |template|
  {
    if template == [] then []
    else
      PieceText(template[0], v) + Format(template[1..], v)
  }

  /** Formatting distributes over the template's parts. */
  lemma {:induction false} FormatConcat(a: seq<Piece>, b: seq<Piece>, v: Values)
    ensures Format(a + b, v) == Format(a, v) + Format(b, v)
    decreases |a|
  {
    if a != [] {
      assert (a + b)[1..] == a[1..] + b;
      FormatConcat(a[1..], b, v);
    } else {
      assert a + b == b;
    }
  }

  /**
   * Substitution is a single pass: the value of every field lands in the output verbatim,
   * between the formatted text before and after it, whatever braces it holds.
   */
  lemma FormatAtField(template: seq<Piece>, v: Values, i: int)
    requires 0 <= i < |template| && template[i].Slot?
    ensures Format(template, v) == Format(template[..i], v) + ValueOf(v, template[i].field) + Format(template[i + 1..], v)
  {
    assert template == template[..i] + [template[i]] + template[i + 1..];
    FormatConcat(template[..i] + [template[i]], template[i + 1..], v);
    FormatConcat(template[..i], [template[i]], v);
  }

  const Intro :=
    "You are an expert in writing high-quality Git commit messages. Create a concise, professional commit message "
    + "that strictly follows the Conventional Commits specification, in "

  const StructureIntro :=
    ".\n\n"
    + "The commit message MUST conform to the following structure:\n"
    + "```\n"

  const StructureOutro :=
    "\n"
    + "```\n\n"

  const WorkedExample :=
    "\n\n"
    + "--- Example 1 Begin ---\n"
    + "Diff:\n"
    + "```diff\n"
    + "--- a/src/utils.py\n"
    + "+++ b/src/utils.py\n"
    + "@@ -10,3 +10,6 @@\n"
    + " def get_user_data(user_id):\n"
    + "      # ... fetch user data\n"
    + "      return data\n"
    + "+\n"
    + "+def is_admin(user_id):\n"
    + "+    return user_id == 0 # Simplified admin check\n"
    + "```\n\n"
    + "Step 1: Analyze the Diff.\n"
    + "The diff adds a new function `is_admin` to `utils.py`. This function checks if a `user_id` corresponds to an admin (ID 0).\n\n"
    + "Step 2: Determine Commit Message Components.\n"
    + " a. <type>: `feat` (a new function is added, which is a new feature for checking admin status).\n"
    + " b. <scope>: `utils` (the change is in `utils.py`, which is a utility module).\n"
    + " c. <description> (for English): `add is_admin function for admin checks` (Concise summary of the new feature).\n\n"
    + "Step 3: Construct the Commit Message.\n"
    + "feat(utils): add is_admin function for admin checks\n\n"
    + "Step 4: Final Output.\n"
    + "feat(utils): add is_admin function for admin checks\n"
    + "--- Example 1 End ---\n\n"
    + "Now, apply the same steps to the following diff:\n\n"
    + "Diff:\n"

  const Steps :=
    "\n\n"
    + "Step 1: Analyze the Diff.\n"
    + "[Your analysis here]\n\n"
    + "Step 2: Determine Commit Message Components.\n"
    + " a. <type>: [Your chosen type]\n"
    + " b. <scope>: [Your chosen scope or omit]\n"
    + " c. <description> (for "

  const Closing :=
    "): [Your description, following language rules for capitalization and length]\n\n"
    + "Step 3: Construct the Commit Message.\n"
    + "[Your constructed commit message]\n\n"
    + "Step 4: Final Output.\n"
    + "YOUR FINAL RESPONSE MUST BE ONLY THE COMMIT MESSAGE CONSTRUCTED IN STEP 3. DO NOT INCLUDE ANY OTHER TEXT, EXPLANATIONS, OR PREAMBLES."

  /**
   * The shape of the base prompt: six literal texts around the fields, in the order language
   * name, commit template, instructions, diff, language name.
   */
  function Layout(a0: string, a1: string, a2: string, a3: string, a4: string, a5: string): seq<Piece> {
    [Text(a0), Slot(LanguageName), Text(a1), Slot(CommitMessageTemplate), Text(a2), Slot(TemplateInstructionsText),
     Text(a3), Slot(DiffContent), Text(a4), Slot(LanguageName), Text(a5)]
  }

  /** `BASE_PROMPT_TEMPLATE`: a worked example, then the diff to describe; the language name appears twice. */
  const BasePromptTemplate: seq<Piece> := Layout(Intro, StructureIntro, StructureOutro, WorkedExample, Steps, Closing)

  /** `MODEL_PROMPTS`: both registered models use the base template. */
  const ModelPrompts: map<string, seq<Piece>> := map["llama3" := BasePromptTemplate, "qwen3:8b" := BasePromptTemplate]

  /** `MODEL_PROMPTS.get(model, BASE_PROMPT_TEMPLATE)`. */
  function PromptTemplateFor(model: string): (t: seq<Piece>)
    ensures t == BasePromptTemplate
  {
    if model in ModelPrompts then ModelPrompts[model] else BasePromptTemplate
  }

  /** `language_map`. */
  const LanguageMap: map<string, string> := map["en" := "English", "ko" := "Korean", "ja" := "Japanese"]

  /** `language_map.get(lang.lower(), "Korean")`. */
  function LanguageNameFor(lang: string): (name: string)
    ensures name == "English" <==> Lower(lang) == "en"
    ensures name == "Japanese" <==> Lower(lang) == "ja"
    ensures name == "Korean" <==> Lower(lang) != "en" && Lower(lang) != "ja"
  {
    var code := Lower(lang);
    if code in LanguageMap then LanguageMap[code] else "Korean"
  }

  /** The two settings read from the configuration: `commit_template` (possibly absent) and `template_instructions` (empty when absent). */
  datatype Config = Config(commitTemplate: Option<string>, templateInstructions: map<string, string>)

  /** `custom_commit_template if custom_commit_template else "feat({scope}): {summary}"`. */
  function ActualTemplate(config: Config): (template: string)
    ensures template != []
    ensures config.commitTemplate.Some? && config.commitTemplate.value != [] ==> template == config.commitTemplate.value
    ensures config.commitTemplate.None? || config.commitTemplate.value == [] ==> template == DefaultTemplate
  {
    match config.commitTemplate
    case Some(t) => if t != [] then t else DefaultTemplate
    case None => DefaultTemplate
  }

  /** The prompt sent to the model. */
  function BuildPrompt(diff: string, model: string, lang: string, config: Config): string {
    var template := ActualTemplate(config);
    var instructions := InstructionsText(template, config.templateInstructions);
    Format(PromptTemplateFor(model), Values(LanguageNameFor(lang), template, instructions, diff))
  }

  /** `response.get("response", "").strip()`: a reply without a text counts as empty. */
  function RawResponseText(reply: Option<string>): (r: string)
    ensures Strip(r) == r
    ensures reply.None? ==> r == []
  {
    match reply
    case Some(text) => StripIdempotent(text); Strip(text)
    case None => StripIdempotent([]); Strip([])
  }

  /**
   * The endpoint's result for a request: `generate(model, prompt)` stands for the model call and
   * returns the reply's `response` field, if any. An error is the `IndexError` the extractor raises.
   */
  function CommitMessage(diff: string, model: string, lang: string, config: Config,
                         generate: (string, string) -> Option<string>): Result<string, ExtractError> {
    var prompt := BuildPrompt(diff, model, lang, config);
    Extract(RawResponseText(generate(model, prompt)), ActualTemplate(config))
  }

  /** The base prompt is its literal text with the four values spliced in, the language name twice. */
  lemma BasePromptLayout(v: Values)
    ensures Format(BasePromptTemplate, v) ==
      Intro + v.languageName + StructureIntro + v.commitMessageTemplate + StructureOutro + v.templateInstructionsText
      + WorkedExample + v.diffContent + Steps + v.languageName + Closing
  {
    FormatLayout(Intro, StructureIntro, StructureOutro, WorkedExample, Steps, Closing, v);
  }

  /** Formatting the base prompt's shape, with any texts between the fields. */
  lemma FormatLayout(a0: string, a1: string, a2: string, a3: string, a4: string, a5: string, v: Values)
    ensures Format(Layout(a0, a1, a2, a3, a4, a5), v) ==
      a0 + v.languageName + a1 + v.commitMessageTemplate + a2 + v.templateInstructionsText
      + a3 + v.diffContent + a4 + v.languageName + a5
  {
    var head := [Text(a0), Slot(LanguageName), Text(a1), Slot(CommitMessageTemplate), Text(a2), Slot(TemplateInstructionsText)];
    var tail := [Text(a3), Slot(DiffContent), Text(a4), Slot(LanguageName), Text(a5)];
    assert Layout(a0, a1, a2, a3, a4, a5) == head + tail;
    FormatConcat(head, tail, v);
    FormatSix(Text(a0), Slot(LanguageName), Text(a1), Slot(CommitMessageTemplate), Text(a2), Slot(TemplateInstructionsText), v);
    FormatFive(Text(a3), Slot(DiffContent), Text(a4), Slot(LanguageName), Text(a5), v);
  }

  lemma FormatFive(p0: Piece, p1: Piece, p2: Piece, p3: Piece, p4: Piece, v: Values)
    ensures Format([p0, p1, p2, p3, p4], v) == PieceText(p0, v) + PieceText(p1, v) + PieceText(p2, v) + PieceText(p3, v) + PieceText(p4, v)
  {
    FormatCons(p4, [], v);
    FormatCons(p3, [p4], v);
    FormatCons(p2, [p3, p4], v);
    FormatCons(p1, [p2, p3, p4], v);
    FormatCons(p0, [p1, p2, p3, p4], v);
    assert [p0] + [p1, p2, p3, p4] == [p0, p1, p2, p3, p4];
  }

  lemma FormatSix(p0: Piece, p1: Piece, p2: Piece, p3: Piece, p4: Piece, p5: Piece, v: Values)
    ensures Format([p0, p1, p2, p3, p4, p5], v) == PieceText(p0, v) + PieceText(p1, v) + PieceText(p2, v) + PieceText(p3, v) + PieceText(p4, v) + PieceText(p5, v)
  {
    FormatCons(p0, [p1, p2, p3, p4, p5], v);
    assert [p0] + [p1, p2, p3, p4, p5] == [p0, p1, p2, p3, p4, p5];
    FormatFive(p1, p2, p3, p4, p5, v);
  }

  lemma FormatCons(p: Piece, rest: seq<Piece>, v: Values)
    ensures Format([p] + rest, v) == PieceText(p, v) + Format(rest, v)
  {
    assert ([p] + rest)[1..] == rest;
  }

  /** The prompt holds the diff and the commit template verbatim, whatever braces they contain. */
  lemma PromptQuotesInputs(diff: string, model: string, lang: string, config: Config)
    ensures Contains(BuildPrompt(diff, model, lang, config), diff)
    ensures Contains(BuildPrompt(diff, model, lang, config), ActualTemplate(config))
  {
    var template := ActualTemplate(config);
    LayoutQuotes(Intro, StructureIntro, StructureOutro, WorkedExample, Steps, Closing,
                 Values(LanguageNameFor(lang), template, InstructionsText(template, config.templateInstructions), diff));
  }

  lemma LayoutQuotes(a0: string, a1: string, a2: string, a3: string, a4: string, a5: string, v: Values)
    ensures Contains(Format(Layout(a0, a1, a2, a3, a4, a5), v), v.diffContent)
    ensures Contains(Format(Layout(a0, a1, a2, a3, a4, a5), v), v.commitMessageTemplate)
  {
    FormatLayout(a0, a1, a2, a3, a4, a5, v);
    var x := a0 + v.languageName + a1;
    var y := a2 + v.templateInstructionsText + a3;
    var z := a4 + v.languageName + a5;
    assert Format(Layout(a0, a1, a2, a3, a4, a5), v) == x + v.commitMessageTemplate + (y + v.diffContent + z);
    ContainsMiddle(x, v.commitMessageTemplate, y + v.diffContent + z);
    assert Format(Layout(a0, a1, a2, a3, a4, a5), v) == x + v.commitMessageTemplate + y + v.diffContent + z;
    ContainsMiddle(x + v.commitMessageTemplate + y, v.diffContent, z);
  }

  lemma ContainsMiddle(a: string, p: string, b: string)
    ensures Contains(a + p + b, p)
  {
    assert (a + p + b)[|a|..|a| + |p|] == p;
    ContainsAt(a + p + b, p, |a|);
  }

  /** Two requests that differ at most in the diff get the same prompt only for the same diff. */
  lemma PromptDeterminesDiff(d1: string, d2: string, model: string, lang: string, config: Config)
    requires BuildPrompt(d1, model, lang, config) == BuildPrompt(d2, model, lang, config)
    ensures d1 == d2
  {
    var template := ActualTemplate(config);
    var instructions := InstructionsText(template, config.templateInstructions);
    var language := LanguageNameFor(lang);
    LayoutDeterminesDiff(Intro, StructureIntro, StructureOutro, WorkedExample, Steps, Closing,
                         Values(language, template, instructions, d1), Values(language, template, instructions, d2));
  }

  lemma LayoutDeterminesDiff(a0: string, a1: string, a2: string, a3: string, a4: string, a5: string, v1: Values, v2: Values)
    requires v1.languageName == v2.languageName && v1.commitMessageTemplate == v2.commitMessageTemplate
    requires v1.templateInstructionsText == v2.templateInstructionsText
    requires Format(Layout(a0, a1, a2, a3, a4, a5), v1) == Format(Layout(a0, a1, a2, a3, a4, a5), v2)
    ensures v1 == v2
  {
    FormatLayout(a0, a1, a2, a3, a4, a5, v1);
    FormatLayout(a0, a1, a2, a3, a4, a5, v2);
    var a := a0 + v1.languageName + a1 + v1.commitMessageTemplate + a2 + v1.templateInstructionsText + a3;
    var b := a4 + v1.languageName + a5;
    assert Format(Layout(a0, a1, a2, a3, a4, a5), v1) == a + v1.diffContent + b;
    assert Format(Layout(a0, a1, a2, a3, a4, a5), v2) == a + v2.diffContent + b;
    SpliceInjective(a, v1.diffContent, v2.diffContent, b);
  }

  lemma SpliceInjective(a: string, x: string, y: string, b: string)
    requires a + x + b == a + y + b
    ensures x == y
  {
    assert |x| == |y|;
    assert (a + x + b)[|a|..|a| + |x|] == x;
    assert (a + y + b)[|a|..|a| + |y|] == y;
  }

  /**
   * With no configured template and no custom instructions, the model is asked for
   * `feat({scope}): {summary}` and given the built-in guidance for `scope` and `summary`, in that order.
   */
  lemma DefaultConfigPrompt(diff: string, model: string, lang: string)
    ensures BuildPrompt(diff, model, lang, Config(None, map[])) ==
      Format(BasePromptTemplate, Values(LanguageNameFor(lang), DefaultTemplate,
        Join([Header, LinePrefix(ScopeName) + ScopeGuidance, LinePrefix(SummaryName) + SummaryGuidance], "\n"), diff))
  {
    DefaultTemplateInstructions();
  }

  /** The endpoint fails exactly when the model's reply is missing or only whitespace. */
  lemma CommitMessageFailsIffBlank(diff: string, model: string, lang: string, config: Config,
                                   generate: (string, string) -> Option<string>)
    ensures CommitMessage(diff, model, lang, config, generate).Err? <==>
      generate(model, BuildPrompt(diff, model, lang, config)).None? || Strip(generate(model, BuildPrompt(diff, model, lang, config)).value) == []
  {
    var reply := generate(model, BuildPrompt(diff, model, lang, config));
    ExtractFailsIffBlank(RawResponseText(reply), ActualTemplate(config));
    match reply
    case Some(text) => StripIdempotent(text);
    case None => StripIdempotent([]);
  }

  /** A message the endpoint returns is one line with no whitespace at either end. */
  lemma CommitMessageIsOneLine(diff: string, model: string, lang: string, config: Config,
                               generate: (string, string) -> Option<string>)
    requires CommitMessage(diff, model, lang, config, generate).Ok?
    ensures '\n' !in CommitMessage(diff, model, lang, config, generate).value
    ensures Strip(CommitMessage(diff, model, lang, config, generate).value) == CommitMessage(diff, model, lang, config, generate).value
  {
    var reply := generate(model, BuildPrompt(diff, model, lang, config));
    ExtractIsOneStrippedLine(RawResponseText(reply), ActualTemplate(config));
  }

  /** Without a configured template, a model that echoes `feat(<scope>): <summary>` gets `feat(): update files`. */
  lemma DefaultConfigEcho(diff: string, model: string, lang: string, custom: map<string, string>,
                          generate: (string, string) -> Option<string>)
    requires generate(model, BuildPrompt(diff, model, lang, Config(None, custom))) == Some(CleanDefaultTemplate)
    ensures CommitMessage(diff, model, lang, Config(None, custom), generate) == Ok("feat(): update files")
  {
    CleanDefaultTemplateIsOneLine();
    DefaultTemplateEcho();
    EchoText();
  }
}
