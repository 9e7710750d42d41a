# diffwhisperer commit-message core, in Dafny

This project models the deterministic part of `DiffAnalyzer`, the class in
diffwhisperer that turns staged git changes into a commit message by asking a
language model. It covers:

- the diff digest that goes into the prompt: per file, the file name, the
  counts of added and removed lines, and up to three sample change lines;
- the scope label, which is the most frequent top-level directory, with
  "misc" as the fallback;
- the tidying of the model's answer into a title, a blank line and a body;
- the shape of `generate_commit_message`:
  - a fixed sentinel when nothing is staged;
  - the formatted answer when generation succeeds;
  - an error string when generation fails.

The staged changes are an input, a sequence of (path, diff text) pairs. The
language-model call is a function parameter that returns either generated
text or a failure description.

Modules:

- `Strings` models Python's `str.split` with a one-character separator,
  `str.join`, `str(n)` for counts, and the search for the first "\n\n".
- `Whitespace` models `str.strip()` over the exact character set that
  `str.isspace()` accepts.
- `Paths` models `Path(p).parts` and `Path(p).name` for relative
  '/'-separated paths.
- `Scope` models `_determine_scope`. `Counter` is a table of rows kept in
  first-seen order, and `most_common(1)` is the first row of maximal count.
- `Summarizer` models `_prepare_diff_summary`. A method with the source's loop
  is proved equal to the specification function `Summary`, and lemmas state
  what the digest contains.
- `Formatter` models the response formatting at the end of
  `generate_commit_message`.
- `Analyzer` models `generate_commit_message` as a function plus a method
  proved equal to it.

The docstring of `generate_commit_message` (analyzer.py:94-95) promises a
message "with title and detailed explanation". The function returns one
string: `title.strip() + "\n\n" + body.strip()`, or the stripped response
when that has no blank line. `Formatter.FormatSplitsOnce` shows that the title
and the body can be read back from that string.

## Model

| member | source | states |
|---|---|---|
| `Strings.Split` | diffwhisperer/analyzer.py:54 | `diff.split('\n')` yields one more piece than there are newlines; no piece contains a newline; every character of a piece comes from the diff |
| `Strings.JoinSplit` | diffwhisperer/analyzer.py:54 | joining the split pieces with the separator gives the original text back |
| `Strings.SplitJoin` | diffwhisperer/analyzer.py:54 | splitting pieces that were joined with a separator none of them contains gives the pieces back |
| `Strings.SplitAt` | diffwhisperer/analyzer.py:54 | when the first separator is at position i, the first piece is the text before it and the rest is split after it |
| `Strings.Join` | diffwhisperer/analyzer.py:65 | specification function without a contract: `sep.join(parts)`, the parts with the separator between neighbours; `JoinSplit` and `SplitJoin` state what it means |
| `Strings.SplitConcat` | diffwhisperer/analyzer.py:54 | splitting `a + sep + b` gives the pieces of `a` followed by those of `b` |
| `Strings.NatToString` | diffwhisperer/analyzer.py:60 | a count is rendered as a non-empty string of decimal digits with no leading zero |
| `Strings.DecimalRoundTrip` | diffwhisperer/analyzer.py:60 | reading back the rendered digits gives the count |
| `Strings.FindBlankLine` | diffwhisperer/analyzer.py:151 | finds the first occurrence of "\n\n", or none exactly when the text has no blank line |
| `Strings.SplitOnBlankLinesJoin` | diffwhisperer/analyzer.py:69 | pieces joined by "\n\n" are recovered by splitting on "\n\n", provided no piece contains a blank line or ends in a newline |
| `Strings.JoinedLinesHaveNoBlankLine` | diffwhisperer/analyzer.py:65 | non-empty, newline-free lines joined by "\n" contain no blank line and do not end in a newline |
| `Whitespace.IsSpace` | diffwhisperer/analyzer.py:148 | specification predicate without a contract: the characters `str.isspace()` accepts, as the code points Python classes as whitespace |
| `Whitespace.Strip` | diffwhisperer/analyzer.py:148 | the result of `strip()` neither starts nor ends with whitespace and is no longer than the input |
| `Whitespace.StripIsSlice` | diffwhisperer/analyzer.py:148 | `strip()` keeps one contiguous slice of the input, starting right after the leading whitespace |
| `Whitespace.StripDropsOnlySpace` | diffwhisperer/analyzer.py:148 | the kept slice fits in the input, and everything `strip()` drops after it is whitespace |
| `Whitespace.StripKeepsText` | diffwhisperer/analyzer.py:148 | stripping removes only whitespace: the non-whitespace characters are unchanged |
| `Whitespace.StripFixedPoint` | diffwhisperer/analyzer.py:158 | stripping leaves a string unchanged exactly when it has no edge whitespace |
| `Whitespace.StripEmptyIffBlank` | diffwhisperer/analyzer.py:148 | the stripped text is empty exactly when the input is all whitespace |
| `Paths.Parts` | diffwhisperer/analyzer.py:40 | every component is non-empty, is not ".", contains no '/', and uses only characters of the path |
| `Paths.Name` | diffwhisperer/analyzer.py:51 | the file name contains no '/' and uses only characters of the path |
| `Paths.PartsOfJoin` | diffwhisperer/analyzer.py:40 | the components of `a/b` are those of `a` followed by those of `b`, so repeated separators and "." leave no trace |
| `Paths.PartsOfSegments` | diffwhisperer/analyzer.py:40 | a path spelled from proper components has exactly those components, and its name is the last one |
| `Scope.Label` | diffwhisperer/analyzer.py:40 | the label of a path is a proper path component: non-empty, not ".", without '/' |
| `Scope.Labels` | diffwhisperer/analyzer.py:40 | one label per path, in input order: the i-th label is the label of the i-th path, and each is a proper path component |
| `Scope.LabelOfSegments` | diffwhisperer/analyzer.py:40 | a path spelled from proper components is labelled by its first component when it has more than one, and "misc" when it has only one |
| `Scope.Bump` | diffwhisperer/analyzer.py:43 | a table with a label bumped is never empty; `BumpUpdates` states the update itself |
| `Scope.Tally` | diffwhisperer/analyzer.py:43 | the table of a non-empty label list is non-empty; `TallyCounts` states what it holds |
| `Scope.BumpUpdates` | diffwhisperer/analyzer.py:43 | counting one more label increments that label's row and leaves the others alone, or appends a row with count 1 for a new label |
| `Scope.TallyCounts` | diffwhisperer/analyzer.py:43 | `Counter(dirs)` has one row per distinct label, holds each label's number of occurrences, and lists the rows in first-seen order |
| `Scope.MostCommonIndex` | diffwhisperer/analyzer.py:44 | `most_common(1)` picks a row whose count no row exceeds, and every earlier row has a strictly smaller count |
| `Scope.DetermineScope` | diffwhisperer/analyzer.py:34-44 | no paths give "misc"; otherwise the scope is one of the paths' labels |
| `Scope.FirstMaximalRowIsEarliestMode` | diffwhisperer/analyzer.py:43-44 | in a table that counts the labels in first-seen order, the first row of maximal count holds the most frequent label that appears first |
| `Scope.ScopeIsEarliestMode` | diffwhisperer/analyzer.py:34-44 | no paths give "misc"; otherwise the scope is a label that no other label outnumbers, and among equally frequent labels it is the one that appears first |
| `Scope.EarliestModeIsUnique` | diffwhisperer/analyzer.py:44 | at most one label is the most frequent label that appears first |
| `Scope.ScopeIsUnique` | diffwhisperer/analyzer.py:34-44 | any label that is the most frequent and appears first is the scope that is returned |
| `Summarizer.StartsWith` | diffwhisperer/analyzer.py:55-56 | specification predicate without a contract: `line.startswith(c)` for a one-character prefix, which also serves line 63 |
| `Summarizer.IsChangeLine` | diffwhisperer/analyzer.py:63 | specification predicate without a contract: the condition `l.startswith('+') or l.startswith('-')`; `ChangeLines` and `CountsPartitionChangeLines` state its use |
| `Summarizer.DiffLines` | diffwhisperer/analyzer.py:54 | specification function without a contract: `diff.split('\n')`, whose meaning `Strings.Split`, `JoinSplit` and `SplitJoin` state |
| `Summarizer.CountsSuffix` | diffwhisperer/analyzer.py:60 | specification function without a contract: the text `" ({added} added, {removed} removed)"`; `Strings.NatToString` and `DecimalRoundTrip` state how the counts are rendered |
| `Summarizer.LinesStartingWith` | diffwhisperer/analyzer.py:55-56 | the filtered lines are diff lines that start with the given character |
| `Summarizer.LinesStartingWithKeeps` | diffwhisperer/analyzer.py:55-56 | no line that starts with the character is dropped by the filter |
| `Summarizer.LinesStartingWithCounts` | diffwhisperer/analyzer.py:55-56 | each line that starts with the character is kept as often as it occurs, and no other line is kept, so the counts are the lengths of Python's filtered lists |
| `Summarizer.LinesStartingWithConcat` | diffwhisperer/analyzer.py:55-56 | filtering keeps diff order: the kept lines of two runs are those of the first run followed by those of the second |
| `Summarizer.Added` | diffwhisperer/analyzer.py:55 | specification function without a contract: the number of diff lines starting with '+'; `CountsPartitionChangeLines` and `LinesStartingWithCounts` state what it counts |
| `Summarizer.Removed` | diffwhisperer/analyzer.py:56 | specification function without a contract: the number of diff lines starting with '-'; `CountsPartitionChangeLines` and `LinesStartingWithCounts` state what it counts |
| `Summarizer.Samples` | diffwhisperer/analyzer.py:63 | specification function without a contract: the first three change lines; `SamplesAreFirstChangeLines` states what it holds |
| `Summarizer.Header` | diffwhisperer/analyzer.py:58-60 | specification function without a contract: the "File: " line; `HeaderNamesFile` states its shape |
| `Summarizer.Block` | diffwhisperer/analyzer.py:58-65 | specification function without a contract: one file's block; `BlockIsJoinedLines` and `BlockSplitsIntoLines` state its lines |
| `Summarizer.Blocks` | diffwhisperer/analyzer.py:49-67 | specification function without a contract: the blocks in input order; `SummaryIsBlocks` states it |
| `Summarizer.Summary` | diffwhisperer/analyzer.py:69 | specification function without a contract: the blocks joined by "\n\n"; `PrepareDiffSummary` is proved equal to it and `SummaryIsBlocks` states what it holds |
| `Summarizer.ChangeLines` | diffwhisperer/analyzer.py:63 | a line is a change line exactly when it is a diff line starting with '+' or '-' |
| `Summarizer.ChangeLinesConcat` | diffwhisperer/analyzer.py:63 | filtering keeps diff order: the change lines of two runs of lines are those of the first run followed by those of the second |
| `Summarizer.CountsPartitionChangeLines` | diffwhisperer/analyzer.py:55-63 | the added count plus the removed count equals the number of change lines |
| `Summarizer.FileHeadersAreCounted` | diffwhisperer/analyzer.py:55-63 | lines are classified by their first character only, so the "--- a/..." and "+++ b/..." file headers of a git diff count as removed and added lines and can be sampled |
| `Summarizer.SamplesAreFirstChangeLines` | diffwhisperer/analyzer.py:62-65 | there are min(3, added + removed) samples; they are the first change lines in diff order; there are none exactly when both counts are zero |
| `Summarizer.HeaderNamesFile` | diffwhisperer/analyzer.py:58-60 | the header starts with "File: " and the file name; it is exactly that when no line was added or removed, and otherwise it is that followed by " (<added> added, <removed> removed)" |
| `Summarizer.HeaderHasNoNewline` | diffwhisperer/analyzer.py:58-60 | for a path without a newline, the header is one non-empty line |
| `Summarizer.SamplesHaveNoNewline` | diffwhisperer/analyzer.py:63 | each sample is a non-empty line |
| `Summarizer.BlockIsJoinedLines` | diffwhisperer/analyzer.py:58-65 | a block is its header, then "Changes:" and the samples when there are any, joined by newlines |
| `Summarizer.BlockSplitsIntoLines` | diffwhisperer/analyzer.py:58-65 | read back line by line, a block gives its header, then "Changes:" and the samples, and it has more than one line exactly when some line was added or removed |
| `Summarizer.MapSeq` | diffwhisperer/analyzer.py:49-67 | appending one result per element, in order, gives one result per element, and the i-th result is that of the i-th element |
| `Summarizer.SummarizeFile` | diffwhisperer/analyzer.py:51-65 | one pass of the loop body builds exactly the block of that file |
| `Summarizer.BlockNamesFile` | diffwhisperer/analyzer.py:58-65 | every block starts with "File: " and the file name |
| `Summarizer.BlockHasNoBlankLine` | diffwhisperer/analyzer.py:58-65 | the block of a path without a newline has no blank line and does not end in a newline |
| `Summarizer.SummaryReadsBack` | diffwhisperer/analyzer.py:69 | for a non-empty change list whose paths contain no newline, splitting the digest on blank lines gives the blocks back |
| `Summarizer.PrepareDiffSummary` | diffwhisperer/analyzer.py:46-69 | the loop builds the digest `Summary(changes)`: one block per file, in input order, joined by blank lines |
| `Summarizer.SummaryIsBlocks` | diffwhisperer/analyzer.py:46-69 | no files give the empty digest; there is one block per file, in input order; each block starts by naming its file; when there is at least one file and no path contains a newline, splitting the digest on blank lines gives the blocks back |
| `Formatter.FormatResponse` | diffwhisperer/analyzer.py:148-159 | formatting only removes whitespace, so the message is never longer than the response |
| `Formatter.TitleAndBodyAreNonEmpty` | diffwhisperer/analyzer.py:151-158 | when the stripped response has a blank line, the title before the first one and the body after it are both non-empty, and the title has no blank line |
| `Formatter.FormatSplitsOnce` | diffwhisperer/analyzer.py:148-159 | a response without a blank line is only stripped; otherwise the message's first blank line follows the stripped title, and what follows is the stripped body, blank lines inside the body included |
| `Formatter.FormatIsTrimmed` | diffwhisperer/analyzer.py:148-159 | the message never starts or ends with whitespace |
| `Formatter.FormatKeepsText` | diffwhisperer/analyzer.py:148-159 | formatting only moves whitespace: the non-whitespace text of the message is that of the response |
| `Formatter.FormatIsEmptyOnlyForBlankResponse` | diffwhisperer/analyzer.py:148-154 | the message is empty exactly when the response is all whitespace, and otherwise it starts with a non-whitespace character |
| `Formatter.FormatIsIdempotent` | diffwhisperer/analyzer.py:148-159 | formatting an already formatted message changes nothing |
| `Analyzer.BuildPrompt` | diffwhisperer/analyzer.py:108-109 | the prompt is the opening instruction text, then the digest verbatim, then the closing instructions |
| `Analyzer.CommitMessage` | diffwhisperer/analyzer.py:97-162 | specification function without a contract: the string `generate_commit_message` returns; the lemmas below state its cases |
| `Analyzer.GenerateCommitMessage` | diffwhisperer/analyzer.py:97-162 | the method returns `CommitMessage(...)`: the sentinel for no changes; otherwise the formatted answer, or the error prefix followed by the failure text |
| `Analyzer.NoChangesNeverGenerate` | diffwhisperer/analyzer.py:97-100 | with nothing staged the result is "No staged changes found", whatever the generator would answer |
| `Analyzer.OnlyTheDigestPromptIsGenerated` | diffwhisperer/analyzer.py:106-146 | the generator is consulted only on the prompt that carries the digest, with `max_tokens`: generators that agree there give the same message |
| `Analyzer.FailureIsReported` | diffwhisperer/analyzer.py:161-162 | a failed generation gives "Error generating commit message: " followed by the failure's text |
| `Analyzer.SuccessIsFormatted` | diffwhisperer/analyzer.py:137-159 | a successful generation gives the formatted response, which is trimmed, keeps the response's text, and is already in formatted form |

## Left out

- `DiffAnalyzer.__init__` (lines 15-32): opening the repository and choosing or validating the Gemini model are I/O and foreign calls.
- `get_staged_changes` (lines 71-85): reading the index and running `git diff --cached` is I/O. The staged changes are an input to the model.
- Staged changes are a sequence of (path, diff) pairs, not a dictionary. `get_staged_changes` concatenates `index.diff("HEAD")` and `index.diff(None)` (lines 76-79), so one path can be listed twice; the dictionary assignment at line 83 keeps the path at its first position. The second assignment only overwrites the value, and that value comes from the same `git diff --cached` command. The model takes the resulting pairs as given and does not itself require distinct paths.
- The call to `generate_content`, with its `temperature`, `top_p` and `top_k` settings, is an external service. It is a function parameter that returns `Generated(text)` or `Failed(description)`, and `str(e)` is the failure's description.
- The prompt's instruction text (lines 108-135) is a `PromptTemplate` parameter holding the text before and after the digest. Its wording is not transcribed.
- `COMMIT_TYPES` (line 13) is not used by any modelled operation.
- `changed_files` (line 103) is computed and never used. `_determine_scope` is modelled on its own because `generate_commit_message` does not call it.
- Paths.Parts: absolute paths and Windows separators are not modelled. The model covers the relative POSIX paths that git reports, so a leading "/" is not kept as a root component.
- Python strings are sequences of code points. The model uses Dafny's `char`, which covers every Unicode scalar value, and no encoding or normalisation is involved.
- Lone surrogate code points (U+D800 to U+DFFF), which a Python `str` can hold, are not Unicode scalar values and so cannot occur in the model's strings.
- The default `max_tokens=300` of `generate_commit_message` (line 87) is not modelled as a default: `maxTokens` is an explicit parameter, passed unchanged to the generator.
