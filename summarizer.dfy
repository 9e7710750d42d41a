/** `DiffAnalyzer._prepare_diff_summary`: the compact digest of the staged
    diffs that is spliced into the prompt. Each file gets a block

      File: <name>[ (<added> added, <removed> removed)]
      [Changes:
      <up to three lines that start with '+' or '-'>]

    and the blocks are joined with a blank line. Lines are classified only by
    their first character, so the "+++ b/..." and "--- a/..." header lines of
    a git diff are counted and sampled like any other. */
module Summarizer {
  import opened Strings
  import opened Paths

  /** One staged file: its path and the text of its staged diff. */
  datatype Change = Change(path: string, diff: string)

  /** Python's `line.startswith(c)` for a one-character prefix. */
  predicate StartsWith(line: string, c: char) {
    |line| > 0 && line[0] == c
  }

  predicate IsChangeLine(line: string) {
    StartsWith(line, '+') || StartsWith(line, '-')
  }

  /** `[l for l in lines if l.startswith(c)]`. */
  function LinesStartingWith(lines: seq<string>, c: char): (r: seq<string>)
    ensures |r| <= |lines|
    ensures forall i :: 0 <= i < |r| ==> StartsWith(r[i], c) && r[i] in lines
    decreases |lines|
  {
    if lines == [] then []
    else (if StartsWith(lines[0], c) then [lines[0]] else []) + LinesStartingWith(lines[1..], c)
  }

  /** `[l for l in lines if l.startswith('+') or l.startswith('-')]`. */
  function ChangeLines(lines: seq<string>): (r: seq<string>)
    ensures forall l :: l in r <==> l in lines && IsChangeLine(l)
    decreases |lines|
  {
    if lines == [] then []
    else
      assert lines == [lines[0]] + lines[1..];
      (if IsChangeLine(lines[0]) then [lines[0]] else []) + ChangeLines(lines[1..])
  }

  /** `diff.split('\n')`. */
  function DiffLines(c: Change): seq<string> {
    Split(c.diff, '\n')
  }

  /** The number of diff lines that start with '+'. */
  function Added(c: Change): nat {
    |LinesStartingWith(DiffLines(c), '+')|
  }

  /** The number of diff lines that start with '-'. */
  function Removed(c: Change): nat {
    |LinesStartingWith(DiffLines(c), '-')|
  }

  /** The change lines kept as context: Python's `[...][:3]`. */
  function Samples(c: Change): seq<string> {
    var lines := ChangeLines(DiffLines(c));
    lines[..if |lines| < 3 then |lines| else 3]
  }

  /** The text `f" ({added} added, {removed} removed)"`. */
  function CountsSuffix(added: nat, removed: nat): string {
    " (" + NatToString(added) + " added, " + NatToString(removed) + " removed)"
  }

  /** The first line of a block: the file name, with the counts when either is nonzero. */
  function Header(c: Change): string {
    if Added(c) > 0 || Removed(c) > 0 then "File: " + Name(c.path) + CountsSuffix(Added(c), Removed(c))
    else "File: " + Name(c.path)
  }

  /** The block one file contributes to the digest. */
  function Block(c: Change): string {
    if Samples(c) == [] then Header(c) else Header(c) + ("\nChanges:\n" + Join(Samples(c), "\n"))
  }

  /** `[f(x) for x in xs]`, built by appending one result at a time. */
  function MapSeq<A, B>(f: A -> B, xs: seq<A>): (ys: seq<B>)
    ensures |ys| == |xs|
    ensures forall i :: 0 <= i < |xs| ==> ys[i] == f(xs[i])
    decreases |xs|
  {
    if xs == [] then [] else MapSeq(f, xs[..|xs| - 1]) + [f(xs[|xs| - 1])]
  }

  /** The blocks of the changes, in input order. */
  function Blocks(changes: seq<Change>): seq<string> {
    MapSeq(Block, changes)
  }

  /** The digest: the blocks, in input order, joined by a blank line. */
  function Summary(changes: seq<Change>): string {
    Join(Blocks(changes), "\n\n")
  }

  /** The lines of a block: its header, then "Changes:" and the sample lines
      when there are any. */
  function BlockLines(c: Change): seq<string> {
    [Header(c)] + (if Samples(c) == [] then [] else ["Changes:"] + Samples(c))
  }

  /** The body of `_prepare_diff_summary`'s loop: the block of one file. */
  method SummarizeFile(c: Change) returns (summary: string)
    ensures summary == Block(c)
  {
    var filename := Name(c.path);
    var lines := Split(c.diff, '\n');
    var added := |LinesStartingWith(lines, '+')|;
    var removed := |LinesStartingWith(lines, '-')|;
    summary := "File: " + filename;
    if added > 0 || removed > 0 {
      summary := summary + CountsSuffix(added, removed);
    }
    assert summary == Header(c);
    var changeLines := ChangeLines(lines);
    changeLines := changeLines[..if |changeLines| < 3 then |changeLines| else 3];
    assert changeLines == Samples(c);
    if changeLines != [] {
      summary := summary + ("\nChanges:\n" + Join(changeLines, "\n"));
    }
  }

  /** `_prepare_diff_summary(staged_changes)`: one block per change, in input
      order, appended to a list that is finally joined by blank lines. */
  method PrepareDiffSummary(changes: seq<Change>) returns (digest: string)
    ensures digest == Summary(changes)
  {
    var summaryParts: seq<string> := [];
    for i := 0 to |changes|
      invariant summaryParts == Blocks(changes[..i])
    {
      var summary := SummarizeFile(changes[i]);
      assert changes[..i + 1][..i] == changes[..i];
      summaryParts := summaryParts + [summary];
    }
    assert changes[..|changes|] == changes;
    digest := Join(summaryParts, "\n\n");
  }

  /** Filtering change lines keeps their order: the change lines of two runs
      of lines are those of the first run followed by those of the second. */
  lemma {:induction false} ChangeLinesConcat(a: seq<string>, b: seq<string>)
    ensures ChangeLines(a + b) == ChangeLines(a) + ChangeLines(b)
    decreases |a|
  {
    if a == [] {
      assert a + b == b;
    } else {
      assert (a + b)[0] == a[0];
      assert (a + b)[1..] == a[1..] + b;
      ChangeLinesConcat(a[1..], b);
    }
  }

  /** Every change line is counted exactly once: as added or as removed. */
  lemma {:induction false} CountsPartitionChangeLines(lines: seq<string>)
    ensures |LinesStartingWith(lines, '+')| + |LinesStartingWith(lines, '-')| == |ChangeLines(lines)|
    decreases |lines|
  {
    if lines != [] {
      CountsPartitionChangeLines(lines[1..]);
    }
  }

  /** The samples are the first min(3, k) of the k lines that start with '+'
      or '-', in diff order, and there are none exactly when both counts are zero. */
  lemma SamplesAreFirstChangeLines(c: Change)
    ensures |Samples(c)| == if Added(c) + Removed(c) < 3 then Added(c) + Removed(c) else 3
    ensures Samples(c) == ChangeLines(DiffLines(c))[..|Samples(c)|]
    ensures Samples(c) == [] <==> Added(c) + Removed(c) == 0
    ensures forall i :: 0 <= i < |Samples(c)| ==> IsChangeLine(Samples(c)[i]) && Samples(c)[i] in DiffLines(c)
  {
    CountsPartitionChangeLines(DiffLines(c));
    var lines := ChangeLines(DiffLines(c));
    forall i | 0 <= i < |Samples(c)|
      ensures IsChangeLine(Samples(c)[i]) && Samples(c)[i] in DiffLines(c)
    {
      assert Samples(c)[i] == lines[i] && lines[i] in lines;
    }
  }

  /** The header names the file, and is followed by " (<added> added,
      <removed> removed)" exactly when some line was added or removed. */
  lemma HeaderNamesFile(c: Change)
    ensures |"File: " + Name(c.path)| <= |Header(c)|
    ensures Header(c)[..|"File: " + Name(c.path)|] == "File: " + Name(c.path)
    ensures Header(c) == "File: " + Name(c.path) <==> Added(c) + Removed(c) == 0
    ensures Added(c) + Removed(c) > 0 ==>
              Header(c) == "File: " + Name(c.path) + CountsSuffix(Added(c), Removed(c))
  {
  }

  /** The filter drops no line that starts with `c`. */
  lemma {:induction false} LinesStartingWithKeeps(lines: seq<string>, c: char, l: string)
    requires l in lines && StartsWith(l, c)
    ensures l in LinesStartingWith(lines, c)
    decreases |lines|
  {
    if lines[0] != l {
      assert l in lines[1..];
      LinesStartingWithKeeps(lines[1..], c, l);
    }
  }

  /** Filtering keeps diff order: the lines of two runs that start with `c`
      are those of the first run followed by those of the second. */
  lemma {:induction false} LinesStartingWithConcat(a: seq<string>, b: seq<string>, c: char)
    ensures LinesStartingWith(a + b, c) == LinesStartingWith(a, c) + LinesStartingWith(b, c)
    decreases |a|
  {
    if a == [] {
      assert a + b == b;
    } else {
      assert (a + b)[0] == a[0];
      assert (a + b)[1..] == a[1..] + b;
      LinesStartingWithConcat(a[1..], b, c);
    }
  }

  /** Every occurrence of a line that starts with `c` is kept, and no other
      line: so `Added` and `Removed` count repeated lines once per occurrence. */
  lemma {:induction false} LinesStartingWithCounts(lines: seq<string>, c: char)
    ensures forall l :: multiset(LinesStartingWith(lines, c))[l] ==
                          if StartsWith(l, c) then multiset(lines)[l] else 0
    decreases |lines|
  {
    if lines != [] {
      LinesStartingWithCounts(lines[1..], c);
      var head: seq<string> := if StartsWith(lines[0], c) then [lines[0]] else [];
      assert lines == [lines[0]] + lines[1..];
      assert multiset(lines) == multiset([lines[0]]) + multiset(lines[1..]);
      assert multiset(LinesStartingWith(lines, c)) == multiset(head) + multiset(LinesStartingWith(lines[1..], c));
    }
  }

  /** Lines are told apart by their first character only, so the "--- a/..."
      and "+++ b/..." file headers of a git diff count as a removed and an
      added line, and are kept among the change lines. */
  lemma FileHeadersAreCounted(c: Change, oldPath: string, newPath: string)
    requires "--- " + oldPath in DiffLines(c) && "+++ " + newPath in DiffLines(c)
    ensures Added(c) > 0 && Removed(c) > 0
    ensures "--- " + oldPath in ChangeLines(DiffLines(c)) && "+++ " + newPath in ChangeLines(DiffLines(c))
  {
    var removedHeader, addedHeader := "--- " + oldPath, "+++ " + newPath;
    assert StartsWith(removedHeader, '-') && StartsWith(addedHeader, '+');
    LinesStartingWithKeeps(DiffLines(c), '-', removedHeader);
    LinesStartingWithKeeps(DiffLines(c), '+', addedHeader);
  }

  lemma HeaderHasNoNewline(c: Change)
    requires '\n' !in c.path
    ensures Header(c) != [] && '\n' !in Header(c)
  {
    var added, removed := NatToString(Added(c)), NatToString(Removed(c));
    assert IsDecimal(added) && IsDecimal(removed);
    assert '\n' !in added && '\n' !in removed;
    assert '\n' !in Name(c.path);
  }

  lemma SamplesHaveNoNewline(c: Change)
    ensures forall i :: 0 <= i < |Samples(c)| ==> Samples(c)[i] != [] && '\n' !in Samples(c)[i]
  {
    SamplesAreFirstChangeLines(c);
    forall i | 0 <= i < |Samples(c)| ensures Samples(c)[i] != [] && '\n' !in Samples(c)[i] {
      var k :| 0 <= k < |DiffLines(c)| && DiffLines(c)[k] == Samples(c)[i];
    }
  }

  /** A block is its lines joined by newlines. */
  lemma BlockIsJoinedLines(c: Change)
    ensures Block(c) == Join(BlockLines(c), "\n")
  {
    var samples := Samples(c);
    if samples != [] {
      var tail := ["Changes:"] + samples;
      assert tail[1..] == samples;
      assert Join(tail, "\n") == "Changes:" + "\n" + Join(samples, "\n");
      assert BlockLines(c)[1..] == tail;
      assert Join(BlockLines(c), "\n") == Header(c) + "\n" + Join(tail, "\n");
    }
  }

  /** Read back line by line, a block is its header followed, when the diff
      has change lines, by "Changes:" and the sample lines. */
  lemma BlockSplitsIntoLines(c: Change)
    requires '\n' !in c.path
    ensures Split(Block(c), '\n') == BlockLines(c)
    ensures |BlockLines(c)| > 1 <==> Added(c) + Removed(c) > 0
    ensures forall i :: 0 <= i < |BlockLines(c)| ==> BlockLines(c)[i] != [] && '\n' !in BlockLines(c)[i]
  {
    SamplesAreFirstChangeLines(c);
    HeaderHasNoNewline(c);
    SamplesHaveNoNewline(c);
    BlockIsJoinedLines(c);
    var lines := BlockLines(c);
    forall i | 0 <= i < |lines| ensures lines[i] != [] && '\n' !in lines[i] {
      if i >= 2 {
        assert lines[i] == Samples(c)[i - 2];
      }
    }
    SplitJoin(lines, '\n');
  }

  /** A block starts by naming its file. */
  lemma BlockNamesFile(c: Change)
    ensures |"File: " + Name(c.path)| <= |Block(c)|
    ensures Block(c)[..|"File: " + Name(c.path)|] == "File: " + Name(c.path)
  {
    HeaderNamesFile(c);
    var h := Header(c);
    assert |"File: " + Name(c.path)| <= |h|;
    if Samples(c) != [] {
      assert Block(c)[..|h|] == h;
    }
  }

  /** A block of a path without a newline holds no blank line and does not
      end in a newline, so it can sit between blank-line separators. */
  lemma BlockHasNoBlankLine(c: Change)
    requires '\n' !in c.path
    ensures NoBlankLine(Block(c)) && !EndsWithNewline(Block(c))
  {
    BlockSplitsIntoLines(c);
    BlockIsJoinedLines(c);
    JoinedLinesHaveNoBlankLine(BlockLines(c));
  }

  /** Splitting the digest of a non-empty change list on blank lines gives
      the blocks back, when no path contains a newline. */
  lemma SummaryReadsBack(changes: seq<Change>)
    requires changes != []
    requires forall i :: 0 <= i < |changes| ==> '\n' !in changes[i].path
    ensures SplitOnBlankLines(Summary(changes)) == Blocks(changes)
  {
    var blocks := Blocks(changes);
    forall i | 0 <= i < |blocks|
      ensures NoBlankLine(blocks[i]) && !EndsWithNewline(blocks[i])
    {
      BlockHasNoBlankLine(changes[i]);
    }
    SplitOnBlankLinesJoin(blocks);
  }

  /** The digest holds one block per change, in input order, separated by
      blank lines: splitting it on blank lines gives the blocks back, and each
      block starts by naming its file. No changes give the empty digest. */
  lemma SummaryIsBlocks(changes: seq<Change>)
    ensures changes == [] ==> Summary(changes) == ""
    ensures |Blocks(changes)| == |changes|
    ensures forall i :: 0 <= i < |changes| ==>
              Blocks(changes)[i] == Block(changes[i])
              && |"File: " + Name(changes[i].path)| <= |Blocks(changes)[i]|
              && Blocks(changes)[i][..|"File: " + Name(changes[i].path)|] == "File: " + Name(changes[i].path)
    ensures changes != [] && (forall i :: 0 <= i < |changes| ==> '\n' !in changes[i].path) ==>
              SplitOnBlankLines(Summary(changes)) == Blocks(changes)
  {
    var blocks := Blocks(changes);
    forall i | 0 <= i < |changes|
      ensures blocks[i] == Block(changes[i])
      ensures |"File: " + Name(changes[i].path)| <= |blocks[i]|
      ensures blocks[i][..|"File: " + Name(changes[i].path)|] == "File: " + Name(changes[i].path)
    {
      BlockNamesFile(changes[i]);
    }
    if changes != [] && (forall i :: 0 <= i < |changes| ==> '\n' !in changes[i].path) {
      SummaryReadsBack(changes);
    }
  }
}
