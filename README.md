# Commit-message service core, in Dafny

This project models the core of the commit-message service `ollama/server/app2.py`, a
FastAPI endpoint that asks a local Ollama model to write a Git commit message for a
diff. The model covers three parts:

- **The instruction block.** `generate_template_instructions_text` collects the
  `{name}` placeholders of the commit template. It writes a header, then one guidance
  line per distinct name in ascending order. Each line's text is the caller's custom
  instruction, else a built-in default, else a generic catch-all.
- **The extractor.** `extract_commit_message` picks the message out of the model's
  reply. It scans the reply's lines for a `Final Output.` or `Step 3: ` marker and
  returns the first usable line after it. It falls back to these, in order:
  1. the last line, if it matches the strict Conventional Commits pattern;
  2. a filled-in copy of the template, if the model echoed the template back unfilled;
  3. the reply's last raw line.
- **Prompt assembly** in `generate_commit_message`:
  - the language code is resolved (default Korean);
  - the commit template is chosen (default `feat({scope}): {summary}`);
  - the model id is looked up in the prompt registry (default: the base prompt);
  - the base prompt's fields are filled by `str.format`;
  - the stripped reply is passed to the extractor.

Files, one module each:

| file | module | what it holds |
|---|---|---|
| `wrappers.dfy` | `Wrappers` | `Option` and `Result` |
| `strings.dfy` | `Strings` | `strip`, `splitlines`, `join`, `in`, `startswith`, `replace`, `lower` on ASCII |
| `ordering.dfy` | `Ordering` | `sorted(set(xs))` on strings, code-point order |
| `placeholders.dfy` | `Placeholders` | `re.findall` / `re.sub` with `\{(\w+)\}` |
| `conventional.dfy` | `Conventional` | the strict, case-insensitive Conventional Commits pattern |
| `template.dfy` | `CommitTemplate` | the default template `feat({scope}): {summary}` |
| `instructions.dfy` | `Instructions` | `generate_template_instructions_text` |
| `extractor.dfy` | `Extractor` | `extract_commit_message` |
| `echo.dfy` | `Echo` | what the echo fallback does to concrete templates |
| `prompt.dfy` | `Prompt` | language map, template default, prompt registry, `format`, the endpoint's result |

Two source functions contain loops:
- `generate_template_instructions_text` is `Instructions.GenerateTemplateInstructionsText`;
- `extract_commit_message` is `Extractor.ExtractCommitMessage`.

Each is a `method` with the source's loop. Each is proved equal to a specification
function (`InstructionsText`, `Extract`), and the properties are proved about those
functions. The rest of the code only computes values and is modelled as functions.

Notes on what the code does. The model follows the code, also where its own comments
suggest more:
- **Blank reply.** The extractor raises on a reply that is empty or all whitespace,
  because `lines[-1]` has no element (app2.py:175). It does not always return a
  string. The model returns `Err(IndexError)` there, and `Extractor.ExtractFailsIffBlank`
  proves this is the only failure.
- **Empty message.** The extractor can return an empty message in two ways. One is the
  echo fallback: template `{scope}`, reply `<scope>` (`Echo.EchoCanBeEmpty`). The other is
  a reply that ends in a whitespace-only line, such as `a`, a line feed and a space: the
  last raw line strips to nothing (app2.py:187, `Echo.TrailingBlankLineGivesEmpty`). The
  second only arises when the extractor is called on its own, because the endpoint strips
  the reply first (app2.py:236).
- **Which line the scan takes.** The comment at app2.py:164 speaks of the first line
  that matches the Conventional Commits pattern. The code returns the first line after a
  marker that passes the strict test or the lenient test (app2.py:165-171); it does not
  first look for a strict line further on. The strict test never changes the pick
  (`Conventional.ConventionalIsNotPlaceholder`).
- **The last line.** The comment at app2.py:174 takes the final output to be the last
  line. If the stripped last line is strict, it is returned (app2.py:176-177). If it
  equals the cleaned template, the filled-in copy is returned (app2.py:182-184).
  Otherwise the last line of the unstripped reply is returned, stripped (app2.py:187;
  `Extractor.FallbackLastRawLine`). That is the same text unless the reply ends in a
  whitespace-only line, in which case it is empty.
- **Default template.** It is `feat({scope}): {summary}` (app2.py:212), not a
  `type`/`scope`/`summary` form.
- **Catch-all instruction.** Its text already starts with ``- `p`: ``, so such a line
  carries the prefix twice (app2.py:135-136, `Instructions.InstructionPrecedence`).

## Model

| member | source | states |
|---|---|---|
| Strings.Strip | ollama/server/app2.py:147 | the stripped text is empty or neither starts nor ends with whitespace |
| Strings.StripIsInfix | ollama/server/app2.py:147 | stripping removes only a run of leading and a run of trailing whitespace |
| Strings.StripIdempotent | ollama/server/app2.py:157 | stripping a stripped line changes nothing |
| Strings.SplitLines | ollama/server/app2.py:147 | a text has no lines exactly when it is empty, and no line holds a line feed |
| Strings.SplitLinesJoin | ollama/server/app2.py:147 | joining the lines with line feeds restores the text, up to one final line feed |
| Placeholders.MatchAt | ollama/server/app2.py:120 | the pattern matches at the start exactly when a `{word}` span starts there, and the capture is the word |
| Placeholders.FindPlaceholders | ollama/server/app2.py:120 | `re.findall`: the names of the non-overlapping `{word}` spans, left to right (its properties are the three lemmas below) |
| Placeholders.FoundIsPlaceholder | ollama/server/app2.py:120 | every name found is the inside of some `{word}` span of the template |
| Placeholders.FoundIsWord | ollama/server/app2.py:120 | every name found is a non-empty run of word characters and occurs as `{name}` in the template |
| Placeholders.FindPlaceholdersComplete | ollama/server/app2.py:120 | conversely, the inside of every `{word}` span of the template is among the names found |
| Placeholders.FindPlaceholdersEmptyIff | ollama/server/app2.py:120 | no name is found exactly when the template has no `{word}` span |
| Placeholders.CleanTemplate | ollama/server/app2.py:181 | `re.sub` with `<name>`: the rewrite keeps the length |
| Placeholders.CleanTemplateAt | ollama/server/app2.py:181 | at every position the cleaned template holds `<` exactly where a `{word}` span opens, `>` exactly where one closes, and the template's own character everywhere else |
| Placeholders.CleanChangesOnlyBraces | ollama/server/app2.py:181 | the rewrite changes only braces, `{` to `<` and `}` to `>` |
| Placeholders.CleanWithoutPlaceholders | ollama/server/app2.py:181 | a template without placeholders is left unchanged |
| Placeholders.BraceFreePrefix | ollama/server/app2.py:181 | text without `{` yields no name and is copied unchanged |
| Placeholders.PlaceholderPrefix | ollama/server/app2.py:181 | a leading `{name}` yields `name` and becomes `<name>` |
| Placeholders.TwoPlaceholders | ollama/server/app2.py:120 | two placeholders between brace-free texts are found, in order |
| Placeholders.TwoPlaceholdersClean | ollama/server/app2.py:181 | two placeholders between brace-free texts are rewritten, the texts kept |
| Ordering.SortedDistinct | ollama/server/app2.py:134 | `sorted(set(xs))` is strictly ascending and has exactly the elements of `xs` |
| Ordering.SortedUnique | ollama/server/app2.py:134 | two strictly ascending lists with the same elements are equal, so set order does not matter |
| Ordering.SortedLength | ollama/server/app2.py:134 | a strictly ascending list has one entry per distinct element |
| Ordering.LessTotal | ollama/server/app2.py:134 | code-point order is total on strings |
| Ordering.LessTransitive | ollama/server/app2.py:134 | code-point order is transitive |
| CommitTemplate.DefaultTemplatePlaceholders | ollama/server/app2.py:212 | the default template names `scope` then `summary` and cleans to `feat(<scope>): <summary>` |
| CommitTemplate.DefaultTemplateText | ollama/server/app2.py:212 | the default template is literally `feat({scope}): {summary}` |
| Instructions.GenerateTemplateInstructionsText | ollama/server/app2.py:116-138 | the loop builds the header and one line per sorted distinct name, joined by line feeds |
| Instructions.Instruction | ollama/server/app2.py:135 | a name's text is the caller's entry, else the built-in default, else the catch-all (proved in `InstructionPrecedence`) |
| Instructions.InstructionLinesLength | ollama/server/app2.py:134-136 | there is one instruction line per name |
| Instructions.InstructionsText | ollama/server/app2.py:132-138 | the header and the lines joined by line feeds, or the empty text when there are no lines (specifies the loop above) |
| Instructions.InstructionsTextEmptyIff | ollama/server/app2.py:132-138 | the block is empty exactly when the template has no placeholder |
| Instructions.InstructionListShape | ollama/server/app2.py:132-138 | the block is the header, then the lines of any strictly sorted list of the names; its length is one plus the number of distinct names |
| Instructions.InstructionsOrderIndependent | ollama/server/app2.py:134 | templates with the same set of names give the same block, whatever their order or repetition |
| Instructions.InstructionPrecedence | ollama/server/app2.py:124-136 | custom text wins over the default; defaults exist for exactly five names; the catch-all repeats the line prefix |
| Instructions.DefaultTemplateInstructions | ollama/server/app2.py:124-136 | for the default template and no custom entries, the block is header, scope line, summary line |
| Conventional.IsConventionalCommit | ollama/server/app2.py:151-154 | a line matches when it starts, ignoring case, with one of the eleven types, then an optional `(scope)`, `:`, whitespace and a character other than a line feed |
| Conventional.ScopeRun | ollama/server/app2.py:152 | the run of `[\w.-]` characters is maximal |
| Conventional.SpaceThenTextMeansSomeSplit | ollama/server/app2.py:152 | `\s+.+` holds exactly when some non-empty whitespace run is followed by a character other than a line feed |
| Conventional.ConventionalIsNotPlaceholder | ollama/server/app2.py:165-171 | a strict line is never rejected by the lenient test |
| Conventional.ScopeGroupMeansSomeClose | ollama/server/app2.py:152 | after `(`, the optional scope group and the colon match exactly when some non-empty run of `[\w.-]` characters is closed by `)` and `:` and followed by `\s+.+` |
| Conventional.ConventionalSplits | ollama/server/app2.py:151-154 | conversely to `ScopedIsConventional` and `UnscopedIsConventional`, every matching line is a type, ignoring case, then optionally a `(scope)` of `[\w.-]` characters, then `:` and `\s+.+` |
| Conventional.SplitIsConventional | ollama/server/app2.py:151-154 | conversely to `ConventionalSplits`, every line that splits into a type, an optional `(scope)`, `:` and `\s+.+` matches, so the split reading is exact |
| Conventional.TypeOfPrefix | ollama/server/app2.py:152 | the first two letters decide between `feat` and `fix` |
| Conventional.ScopedIsConventional | ollama/server/app2.py:152-153 | every type, then a non-empty scope of `[\w.-]` in parentheses, `: ` and a one-line description, matches |
| Conventional.UnscopedIsConventional | ollama/server/app2.py:152-153 | every type followed by `: ` and a one-line description matches |
| Conventional.ExampleWithScope | ollama/server/app2.py:152-153 | `feat(utils): add helper` matches |
| Conventional.FeatWithBadScope | ollama/server/app2.py:152 | after `fe..(`, a character outside `[\w.-]` rules the line out |
| Conventional.EmptyScopeIsNotConventional | ollama/server/app2.py:152 | `feat(): update files` does not match: the scope may not be empty |
| Conventional.MissingDescriptionIsNotConventional | ollama/server/app2.py:152 | `fix: ` does not match: a description is required |
| Extractor.IsMarker | ollama/server/app2.py:159 | a marker line contains `Final Output.` or `Step 3: ` (tested on the unstripped line) |
| Extractor.Acceptable | ollama/server/app2.py:170 | the lenient test: non-empty and not starting with `[Your` or `Step` |
| Extractor.Scan | ollama/server/app2.py:156-171 | the loop over the lines as a recursion: markers arm it, and an armed strict or lenient line ends it (proved in `ScanNoneIff` and `ScanResultIsFirstEligible`) |
| Extractor.Extract | ollama/server/app2.py:141-187 | the scan, then the error for a blank reply, then the fallbacks (specifies the loop below) |
| Extractor.ExtractCommitMessage | ollama/server/app2.py:141-187 | the loop with its early returns and the fallbacks compute `Extract` |
| Extractor.EchoFallback | ollama/server/app2.py:184 | the three replacements of `<type>`, `<summary>` and `<scope>`, in that order, then strip |
| Extractor.EchoFallbackIsOneLine | ollama/server/app2.py:184 | filling a one-line cleaned template gives one line with no surrounding whitespace |
| Extractor.Fallback | ollama/server/app2.py:175-187 | the fallbacks turn a one-line stripped last line into a one-line stripped message |
| Extractor.LastRawLine | ollama/server/app2.py:187 | the reply's last raw line, stripped, is one line without surrounding whitespace |
| Extractor.ScanStep | ollama/server/app2.py:156-171 | one loop step returns the line exactly when it is eligible, else moves on with the updated armed state |
| Extractor.ScanNoneIff | ollama/server/app2.py:156-171 | the scan finds nothing exactly when no line is eligible |
| Extractor.ScanResultIsFirstEligible | ollama/server/app2.py:156-171 | what the scan returns is the first eligible line, stripped |
| Extractor.ScanFindsFirstEligible | ollama/server/app2.py:156-171 | when line `i` is the first eligible one, the scan returns it stripped |
| Extractor.SingleLineScan | ollama/server/app2.py:156-171 | a one-line reply never ends the scan |
| Extractor.ExtractFirstEligible | ollama/server/app2.py:147-171 | the extractor returns the first eligible line after a marker, stripped |
| Extractor.ExtractFailsIffBlank | ollama/server/app2.py:147-175 | the extractor fails exactly when the reply is empty or all whitespace |
| Extractor.ExtractIsOneStrippedLine | ollama/server/app2.py:141-187 | every message returned is one line without surrounding whitespace |
| Extractor.ExtractIdempotent | ollama/server/app2.py:141-187 | extracting again from a non-empty extracted message returns it, unless it fails the strict pattern and equals the cleaned template (the echo fallback); an empty message instead raises `IndexError` (app2.py:175, `ExtractFailsIffBlank`) |
| Extractor.ExtractAfterScanFails | ollama/server/app2.py:173-187 | after a failed scan the result is what the fallbacks make of the last line |
| Extractor.FallbackStrictLastLine | ollama/server/app2.py:175-177 | after a failed scan, a strict last line is returned |
| Extractor.FallbackEcho | ollama/server/app2.py:181-184 | after a failed scan, a last line equal to the cleaned template gives the filled-in echo |
| Extractor.FallbackLastRawLine | ollama/server/app2.py:186-187 | otherwise the last line of the unstripped reply, stripped, is returned |
| Echo.DefaultTemplateEchoFallback | ollama/server/app2.py:184 | the echo fallback turns `feat(<scope>): <summary>` into `feat(): update files` |
| Echo.CleanDefaultTemplateIsOneLine | ollama/server/app2.py:181 | the cleaned default template is one non-empty stripped line |
| Echo.CleanDefaultTemplateIsNotConventional | ollama/server/app2.py:176 | the cleaned default template fails the strict pattern |
| Echo.DefaultTemplateEcho | ollama/server/app2.py:175-184 | the reply `feat(<scope>): <summary>` with the default template gives `feat(): update files` |
| Echo.AngleIsNotConventional | ollama/server/app2.py:152 | a line starting with `<` is never strict |
| Echo.ScopeTokenEchoFallback | ollama/server/app2.py:184 | the echo fallback removes a lone `<scope>` entirely |
| Echo.TrailingBlankLineGivesEmpty | ollama/server/app2.py:186-187 | the reply `a`, line feed, space gives the empty message when the cleaned template is not `a` |
| Echo.EchoCanBeEmpty | ollama/server/app2.py:179-184 | the extractor returns the empty message for template `{scope}` and reply `<scope>` |
| Strings.ReplaceAll | ollama/server/app2.py:184 | `str.replace`: every non-overlapping occurrence, left to right, is replaced |
| Strings.ReplaceAbsent | ollama/server/app2.py:184 | replacing a pattern that does not occur changes nothing |
| Strings.ReplaceAtStart | ollama/server/app2.py:184 | a leading occurrence is replaced and the scan resumes after it |
| Strings.ReplaceFreePrefix | ollama/server/app2.py:184 | a prefix without the pattern's first character is kept as it is |
| Strings.ReplaceKeepsCharOut | ollama/server/app2.py:184 | a character in neither the text nor the replacement is not in the result |
| Strings.Lower | ollama/server/app2.py:204 | `lower` on ASCII: same length, no upper-case letter left, every other character kept |
| Prompt.Format | ollama/server/app2.py:224-229 | `str.format` on the parsed prompt: each literal piece kept, each field replaced by its value |
| Prompt.FormatConcat | ollama/server/app2.py:224-229 | formatting distributes over concatenated templates |
| Prompt.FormatAtField | ollama/server/app2.py:224-229 | every field's value lands in the prompt verbatim, between the formatted text around it |
| Prompt.BasePromptLayout | ollama/server/app2.py:61-104 | the base prompt is its text with language, template, instructions, diff and language again spliced in |
| Prompt.PromptTemplateFor | ollama/server/app2.py:220 | every model gets the base prompt: `llama3` and `qwen3:8b` through the registry of app2.py:109-111, any other through the default |
| Prompt.LanguageNameFor | ollama/server/app2.py:198-204 | `en` and `ja` in any case give English and Japanese; every other code gives Korean |
| Prompt.ActualTemplate | ollama/server/app2.py:207-212 | a configured non-empty template is used, else the default; the result is never empty |
| Prompt.BuildPrompt | ollama/server/app2.py:204-229 | the language name, the chosen template and its instruction block, formatted into the model's prompt with the diff |
| Prompt.PromptQuotesInputs | ollama/server/app2.py:224-229 | the prompt contains the diff and the chosen template verbatim |
| Prompt.PromptDeterminesDiff | ollama/server/app2.py:224-229 | requests differing only in the diff give equal prompts only for equal diffs |
| Prompt.DefaultConfigPrompt | ollama/server/app2.py:207-229 | with no configuration the prompt asks for `feat({scope}): {summary}` with scope and summary guidance |
| Prompt.RawResponseText | ollama/server/app2.py:236 | the reply's text, stripped; empty when the reply has none; the result is already stripped |
| Prompt.CommitMessage | ollama/server/app2.py:233-238 | the model's reply to the built prompt, through the extractor with the chosen template |
| Prompt.CommitMessageFailsIffBlank | ollama/server/app2.py:233-238 | the endpoint fails exactly when the reply has no text or only whitespace |
| Prompt.CommitMessageIsOneLine | ollama/server/app2.py:233-238 | every message the endpoint returns is one line without surrounding whitespace |
| Prompt.DefaultConfigEcho | ollama/server/app2.py:207-238 | with no configured template, the echoed `feat(<scope>): <summary>` gives `feat(): update files` |

## Left out

- **The web layer is not modelled:** FastAPI, the `DiffRequest` model, `Query`
  parameters, JSON responses and `HTTPException`. The `model` and `lang` query defaults
  (`llama3`, `ko`) become plain parameters. Every failure leads to an HTTP 500. The
  model shows that failure as the `Err` result instead.
- `ollama.generate` is a function parameter `generate` returning the reply's `response`
  field, if any. Its `ResponseError` and network behaviour are left out.
- `load_config` is left out: reading `.autocommitrc.json` in the working directory
  once at start-up (app2.py:32, 53), its JSON errors, and its empty default on failure. The configuration is a `Config` value. Only string values are modelled
  for `commit_template` and `template_instructions`, so non-string values (which `.get`
  would also return) are outside the model.
- Logging (`logger.info/debug/warning/error`) has no observable effect on results and is
  left out.
- `app.py`, the older single-template version of the service, is not part of this model.
- **Text handling is ASCII-only.** `str.strip`, `\s` and `str.isspace` use ASCII
  whitespace. `\w` is `[A-Za-z0-9_]`, and `re.IGNORECASE` folds only ASCII letters.
  Unicode whitespace, word characters and case folding are left out.
- `Strings.SplitLines`: splits at `\n` only. Python's `splitlines` also breaks at
  `\r`, `\r\n`, `\v`, `\f`, `\x1c`-`\x1e`, `\x85` and the Unicode line separators.
- `Prompt.Format`: the base prompt is given already parsed into literal text and
  replacement fields. Parsing `{{`/`}}` escapes, and the `KeyError` an unknown field
  would raise, are not modelled; the base prompt has neither.

