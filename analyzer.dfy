/** `DiffAnalyzer.generate_commit_message` once the staged changes are known:
    no changes give a fixed sentinel; otherwise the digest goes into the
    prompt, the prompt goes to the text generator, and its answer is either
    formatted or, when the call fails, reported as an error string. */
module Analyzer {
  import opened Summarizer
  import opened Formatter
  import opened Whitespace

  /** What the generation call gives back: the response text, or the text of
      the exception it raised. */
  datatype Generation = Generated(text: string) | Failed(description: string)

  const NoStagedChanges := "No staged changes found"
  const ErrorPrefix := "Error generating commit message: "

  /** The fixed instruction text before and after the digest. Its wording is
      not part of this model. */
  datatype PromptTemplate = PromptTemplate(lead: string, rules: string)

  /** The prompt: the digest spliced into the template. */
  function BuildPrompt(template: PromptTemplate, digest: string): (prompt: string)
    ensures |template.lead| + |digest| <= |prompt|
    ensures prompt[..|template.lead|] == template.lead
    ensures prompt[|template.lead|..|template.lead| + |digest|] == digest
    ensures prompt[|template.lead| + |digest|..] == template.rules
  {
    template.lead + digest + template.rules
  }

  /** The string `generate_commit_message` returns for the given staged
      changes when the generator answers `generate(prompt, maxTokens)`. */
  function CommitMessage(changes: seq<Change>, template: PromptTemplate, maxTokens: int,
                         generate: (string, int) -> Generation): string
  {
    if changes == [] then NoStagedChanges
    else
      match generate(BuildPrompt(template, Summary(changes)), maxTokens)
      case Generated(text) => FormatResponse(text)
      case Failed(description) => ErrorPrefix + description
  }

  /** `generate_commit_message(max_tokens)`, with the staged changes and the
      generation call passed in. */
  method GenerateCommitMessage(changes: seq<Change>, template: PromptTemplate, maxTokens: int,
                               generate: (string, int) -> Generation)
    returns (message: string)
    ensures message == CommitMessage(changes, template, maxTokens, generate)
  {
    if changes == [] {
      return NoStagedChanges;
    }
    var changesText := PrepareDiffSummary(changes);
    var prompt := BuildPrompt(template, changesText);
    var response := generate(prompt, maxTokens);
    match response
    case Generated(text) =>
      message := FormatResponse(text);
    case Failed(description) =>
      message := ErrorPrefix + description;
  }

  /** With nothing staged the answer is the sentinel, whatever the generator
      would have said: it is never consulted. */
  lemma NoChangesNeverGenerate(template: PromptTemplate, maxTokens: int,
                               g1: (string, int) -> Generation, g2: (string, int) -> Generation)
    ensures CommitMessage([], template, maxTokens, g1) == NoStagedChanges
    ensures CommitMessage([], template, maxTokens, g1) == CommitMessage([], template, maxTokens, g2)
  {
  }

  /** With changes staged, the generator is consulted once, on the prompt
      that carries the digest: generators that agree there give the same
      message. */
  lemma OnlyTheDigestPromptIsGenerated(changes: seq<Change>, template: PromptTemplate, maxTokens: int,
                                       g1: (string, int) -> Generation, g2: (string, int) -> Generation)
    requires g1(BuildPrompt(template, Summary(changes)), maxTokens)
          == g2(BuildPrompt(template, Summary(changes)), maxTokens)
    ensures CommitMessage(changes, template, maxTokens, g1) == CommitMessage(changes, template, maxTokens, g2)
  {
  }

  /** A failed generation is reported as the error prefix followed by the
      failure's text. */
  lemma FailureIsReported(changes: seq<Change>, template: PromptTemplate, maxTokens: int,
                          generate: (string, int) -> Generation, description: string)
    requires changes != []
    requires generate(BuildPrompt(template, Summary(changes)), maxTokens) == Failed(description)
    ensures CommitMessage(changes, template, maxTokens, generate) == ErrorPrefix + description
  {
  }

  /** A successful generation yields the formatted response: trimmed, with
      the response's text intact, and already in formatted form. */
  lemma SuccessIsFormatted(changes: seq<Change>, template: PromptTemplate, maxTokens: int,
                           generate: (string, int) -> Generation, text: string)
    requires changes != []
    requires generate(BuildPrompt(template, Summary(changes)), maxTokens) == Generated(text)
    ensures var message := CommitMessage(changes, template, maxTokens, generate);
            && message == FormatResponse(text)
            && NoEdgeSpace(message)
            && Squeeze(message) == Squeeze(text)
            && FormatResponse(message) == message
  {
    FormatIsTrimmed(text);
    FormatKeepsText(text);
    FormatIsIdempotent(text);
  }
}
