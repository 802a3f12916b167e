/**
 * The commit template used when the configuration names none: `feat({scope}): {summary}`.
 * It is assembled from its pieces so that proofs about it can follow the pieces.
 */
module CommitTemplate {
  import opened Strings
  import opened Placeholders

  const Head := "feat("
  const Middle := "): "
  const ScopeName := "scope"
  const SummaryName := "summary"

  const DefaultTemplate := Head + "{" + ScopeName + "}" + Middle + "{" + SummaryName + "}"

  /** What the extractor compares a reply with: the template with each `{name}` rewritten to `<name>`. */
  const CleanDefaultTemplate := Head + "<" + ScopeName + ">" + Middle + "<" + SummaryName + ">"

  /** The assembled constants spell the default template and its cleaned form out. */
  lemma DefaultTemplateText()
    ensures DefaultTemplate == "feat({scope}): {summary}"
    ensures CleanDefaultTemplate == "feat(<scope>): <summary>"
  {
  }

  /** The default template names `scope` then `summary`, and its cleaned form is `feat(<scope>): <summary>`. */
  lemma DefaultTemplatePlaceholders()
    ensures FindPlaceholders(DefaultTemplate) == [ScopeName, SummaryName]
    ensures CleanTemplate(DefaultTemplate) == CleanDefaultTemplate
  {
    assert forall k :: 0 <= k < |ScopeName| ==> IsWordChar(ScopeName[k]);
    assert forall k :: 0 <= k < |SummaryName| ==> IsWordChar(SummaryName[k]);
    assert DefaultTemplate == Head + ("{" + ScopeName + "}" + (Middle + ("{" + SummaryName + "}" + [])));
    assert CleanDefaultTemplate == Head + ("<" + ScopeName + ">" + (Middle + ("<" + SummaryName + ">" + [])));
    TwoPlaceholders(Head, ScopeName, Middle, SummaryName);
    TwoPlaceholdersClean(Head, ScopeName, Middle, SummaryName);
  }
}
