/** Text helpers shared by the summarizer and the formatter: Python's
    `str.split` with a one-character separator, `str.join`, decimal rendering
    of counts, and the search for the first blank line ("\n\n"). */
module Strings {

  datatype Option<T> = None | Some(value: T)

  /** The position of the first occurrence of `x` in `xs`. */
  function FirstIndex<T(==)>(xs: seq<T>, x: T): (i: nat)
    requires x in xs
    ensures i < |xs| && xs[i] == x && x !in xs[..i]
    decreases |xs|
  {
    var init := xs[..|xs| - 1];
    if x in init then
      var i := FirstIndex(init, x);
      assert init[..i] == xs[..i];
      i
    else |xs| - 1
  }

  /** An occurrence with no earlier one is the first. */
  lemma FirstIndexIs<T>(xs: seq<T>, x: T, k: nat)
    requires k < |xs| && xs[k] == x && x !in xs[..k]
    ensures FirstIndex(xs, x) == k
  {
    var i := FirstIndex(xs, x);
    assert xs[..i + 1][i] == x;
    assert xs[..k + 1][k] == x;
  }

  /** Python's `s.split(sep)` for a one-character separator: the pieces of `s`
      between occurrences of `sep`, scanning left to right, so the empty
      string gives one empty piece. */
  function Split(s: string, sep: char): (pieces: seq<string>)
    ensures |pieces| == multiset(s)[sep] + 1
    ensures forall i :: 0 <= i < |pieces| ==> sep !in pieces[i]
    ensures forall i, c :: 0 <= i < |pieces| && c in pieces[i] ==> c in s
    decreases |s|
  {
    if sep !in s then
      assert multiset(s)[sep] == 0;
      [s]
    else
      var i := FirstIndex(s, sep);
      assert s == s[..i] + [sep] + s[i + 1..];
      assert multiset(s) == multiset(s[..i]) + multiset([sep]) + multiset(s[i + 1..]);
      [s[..i]] + Split(s[i + 1..], sep)
  }

  /** Python's `sep.join(parts)`. */
  function Join(parts: seq<string>, sep: string): string
    decreases |parts|
  {
    if |parts| == 0 then ""
    else if |parts| == 1 then parts[0]
    else parts[0] + sep + Join(parts[1..], sep)
  }

  /** Joining a piece in front of non-empty pieces puts the separator between them. */
  lemma JoinCons(p: string, rest: seq<string>, sep: string)
    requires |rest| > 0
    ensures Join([p] + rest, sep) == p + sep + Join(rest, sep)
  {
    assert ([p] + rest)[0] == p && ([p] + rest)[1..] == rest;
  }

  /** Joining the pieces back with the separator gives the original text. */
  lemma {:induction false} JoinSplit(s: string, sep: char)
    ensures Join(Split(s, sep), [sep]) == s
    decreases |s|
  {
    if sep in s {
      var i := FirstIndex(s, sep);
      JoinSplit(s[i + 1..], sep);
      JoinCons(s[..i], Split(s[i + 1..], sep), [sep]);
      assert s == s[..i] + [sep] + s[i + 1..];
    }
  }

  /** When the first separator is at `i`, the first piece ends there. */
  lemma SplitAt(s: string, sep: char, i: nat)
    requires i < |s| && s[i] == sep && sep !in s[..i]
    ensures Split(s, sep) == [s[..i]] + Split(s[i + 1..], sep)
  {
    FirstIndexIs(s, sep, i);
  }

  /** Joining two non-empty runs of parts puts one separator between their joins. */
  lemma {:induction false} JoinConcat(p: seq<string>, q: seq<string>, sep: string)
    requires |p| > 0 && |q| > 0
    ensures Join(p + q, sep) == Join(p, sep) + sep + Join(q, sep)
    decreases |p|
  {
    if |p| == 1 {
      JoinCons(p[0], q, sep);
      assert p + q == [p[0]] + q;
    } else {
      JoinConcat(p[1..], q, sep);
      assert p + q == [p[0]] + (p[1..] + q);
      JoinCons(p[0], p[1..] + q, sep);
      JoinCons(p[0], p[1..], sep);
      assert [p[0]] + p[1..] == p;
    }
  }

  /** A separator-free first piece is split off at the separator after it. */
  lemma SplitAfterPiece(p: string, sep: char, t: string)
    requires sep !in p
    ensures Split(p + [sep] + t, sep) == [p] + Split(t, sep)
  {
    var s := p + [sep] + t;
    assert s[..|p|] == p && s[|p| + 1..] == t;
    SplitAt(s, sep, |p|);
  }

  /** Splitting separator-free pieces joined by the separator gives them back. */
  lemma {:induction false} SplitJoin(parts: seq<string>, sep: char)
    requires |parts| > 0
    requires forall i :: 0 <= i < |parts| ==> sep !in parts[i]
    ensures Split(Join(parts, [sep]), sep) == parts
    decreases |parts|
  {
    if |parts| > 1 {
      var p, rest := parts[0], parts[1..];
      JoinCons(p, rest, [sep]);
      assert [p] + rest == parts;
      SplitAfterPiece(p, sep, Join(rest, [sep]));
      SplitJoin(rest, sep);
    }
  }

  /** Splitting text made of two texts around one separator splits each half. */
  lemma SplitConcat(a: string, sep: char, b: string)
    ensures Split(a + [sep] + b, sep) == Split(a, sep) + Split(b, sep)
  {
    var p, q := Split(a, sep), Split(b, sep);
    JoinSplit(a, sep);
    JoinSplit(b, sep);
    JoinConcat(p, q, [sep]);
    assert forall i :: 0 <= i < |p + q| ==> sep !in (p + q)[i] by {
      forall i | 0 <= i < |p + q| ensures sep !in (p + q)[i] {
        if i < |p| {
          assert (p + q)[i] == p[i];
        } else {
          assert (p + q)[i] == q[i - |p|];
        }
      }
    }
    SplitJoin(p + q, sep);
  }

  predicate IsDecimal(s: string) {
    forall i :: 0 <= i < |s| ==> '0' <= s[i] <= '9'
  }

  function Digit(d: nat): (c: char)
    requires d < 10
    ensures '0' <= c <= '9' && c as int - '0' as int == d
  {
    ('0' as int + d) as char
  }

  /** Python's `str(n)` for a natural number: its canonical decimal digits. */
  function NatToString(n: nat): (s: string)
    ensures |s| > 0 && IsDecimal(s)
    ensures |s| > 1 ==> s[0] != '0'
    decreases n
  {
    if n < 10 then [Digit(n)] else NatToString(n / 10) + [Digit(n % 10)]
  }

  /** The number a string of decimal digits denotes. */
  function DecimalValue(s: string): nat
    requires IsDecimal(s)
    decreases |s|
  {
    if s == [] then 0
    else 10 * DecimalValue(s[..|s| - 1]) + (s[|s| - 1] as int - '0' as int)
  }

  /** Reading back the rendered digits gives the number. */
  lemma {:induction false} DecimalRoundTrip(n: nat)
    ensures DecimalValue(NatToString(n)) == n
    decreases n
  {
    if n >= 10 {
      DecimalRoundTrip(n / 10);
      var s := NatToString(n);
      assert s[..|s| - 1] == NatToString(n / 10);
    }
  }

  /** A blank line, the two-character separator "\n\n", starts at index `i`. */
  predicate BlankAt(s: string, i: int) {
    0 <= i && i + 1 < |s| && s[i] == '\n' && s[i + 1] == '\n'
  }

  predicate NoBlankLine(s: string) {
    forall i :: 0 <= i < |s| ==> !BlankAt(s, i)
  }

  predicate EndsWithNewline(s: string) {
    |s| > 0 && s[|s| - 1] == '\n'
  }

  /** The first blank line at or after index `k`, as Python's `str.find` scans. */
  function FindBlankLineFrom(s: string, k: nat): (r: Option<nat>)
    requires k <= |s|
    ensures r.None? ==> forall i :: k <= i ==> !BlankAt(s, i)
    ensures r.Some? ==> k <= r.value && BlankAt(s, r.value)
    ensures r.Some? ==> forall i :: k <= i < r.value ==> !BlankAt(s, i)
    decreases |s| - k
  {
    if k + 1 >= |s| then None
    else if BlankAt(s, k) then Some(k)
    else FindBlankLineFrom(s, k + 1)
  }

  /** The index of the first "\n\n" in `s`, if there is one. */
  function FindBlankLine(s: string): (r: Option<nat>)
    ensures r.None? <==> NoBlankLine(s)
    ensures r.Some? ==> BlankAt(s, r.value) && forall i :: 0 <= i < r.value ==> !BlankAt(s, i)
  {
    FindBlankLineFrom(s, 0)
  }

  /** Python's `s.split("\n\n")`: the pieces between blank lines, scanning left to right. */
  function SplitOnBlankLines(s: string): (pieces: seq<string>)
    ensures |pieces| > 0
    decreases |s|
  {
    match FindBlankLine(s)
    case None => [s]
    case Some(i) => [s[..i]] + SplitOnBlankLines(s[i + 2..])
  }

  /** After a piece with no blank line and no trailing newline, the first blank
      line is the separator that follows it. */
  lemma FirstBlankLineAfterPiece(p: string, t: string)
    requires NoBlankLine(p) && !EndsWithNewline(p)
    ensures FindBlankLine(p + "\n\n" + t) == Some(|p|)
  {
    var s := p + "\n\n" + t;
    assert BlankAt(s, |p|);
    forall i | 0 <= i < |p|
      ensures !BlankAt(s, i)
    {
      if i + 1 < |p| {
        assert !BlankAt(p, i);
      }
    }
  }

  /** Pieces free of blank lines and trailing newlines, joined by "\n\n", are
      recovered exactly by splitting on blank lines. */
  lemma {:induction false} SplitOnBlankLinesJoin(parts: seq<string>)
    requires |parts| > 0
    requires forall i :: 0 <= i < |parts| ==> NoBlankLine(parts[i]) && !EndsWithNewline(parts[i])
    ensures SplitOnBlankLines(Join(parts, "\n\n")) == parts
    decreases |parts|
  {
    if |parts| == 1 {
      assert FindBlankLine(parts[0]).None?;
    } else {
      var rest := Join(parts[1..], "\n\n");
      var s := parts[0] + "\n\n" + rest;
      assert Join(parts, "\n\n") == s;
      FirstBlankLineAfterPiece(parts[0], rest);
      assert s[..|parts[0]|] == parts[0];
      assert s[|parts[0]| + 2..] == rest;
      SplitOnBlankLinesJoin(parts[1..]);
      assert [parts[0]] + parts[1..] == parts;
    }
  }

  /** Newline-free, non-empty lines joined by "\n" contain no blank line and
      do not end with a newline. */
  lemma {:induction false} JoinedLinesHaveNoBlankLine(lines: seq<string>)
    requires forall i :: 0 <= i < |lines| ==> lines[i] != [] && '\n' !in lines[i]
    ensures NoBlankLine(Join(lines, "\n")) && !EndsWithNewline(Join(lines, "\n"))
    decreases |lines|
  {
    if |lines| == 1 {
      var s := lines[0];
      forall i | 0 <= i < |s| ensures s[i] != '\n' {
        assert s[i] in s;
      }
    } else if |lines| > 1 {
      JoinedLinesHaveNoBlankLine(lines[1..]);
      JoinStartsWithFirst(lines[1..], "\n");
      var rest := Join(lines[1..], "\n");
      var s := lines[0] + "\n" + rest;
      assert Join(lines, "\n") == s;
      assert rest[0] == lines[1][0] && lines[1][0] in lines[1];
      forall i | 0 <= i < |s| ensures !BlankAt(s, i) {
        if i < |lines[0]| {
          assert s[i] == lines[0][i] && lines[0][i] in lines[0];
        } else if i == |lines[0]| {
          assert s[i + 1] == rest[0];
        } else {
          assert !BlankAt(rest, i - |lines[0]| - 1);
        }
      }
      assert s[|s| - 1] == rest[|rest| - 1];
    }
  }


  /** A join begins with its first part. */
  lemma JoinStartsWithFirst(parts: seq<string>, sep: string)
    requires |parts| > 0
    ensures |parts[0]| <= |Join(parts, sep)| && Join(parts, sep)[..|parts[0]|] == parts[0]
  {
  }
}
