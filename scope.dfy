/** `DiffAnalyzer._determine_scope`: the most frequent top-level directory among
    the changed paths, where a tie goes to the label seen first. */
module Scope {
  import opened Strings
  import opened Paths

  /** The label for a file at the top of the tree, and for an empty change list. */
  const Fallback := "misc"

  /** The label one path contributes: its first component when it has more
      than one, otherwise the fallback. */
  function Label(path: string): (dir: string)
    ensures IsSegment(dir)
  {
    var parts := Parts(path);
    if |parts| > 1 then parts[0] else Fallback
  }

  /** The label of each path, in input order. */
  function Labels(paths: seq<string>): (labels: seq<string>)
    ensures |labels| == |paths|
    ensures forall i :: 0 <= i < |labels| ==> IsSegment(labels[i])
    ensures forall i :: 0 <= i < |paths| ==> labels[i] == Label(paths[i])
  {
    seq(|paths|, i requires 0 <= i < |paths| => Label(paths[i]))
  }

  /** A path spelled from proper components is labelled by its first
      component when it has more than one, and by the fallback otherwise. */
  lemma LabelOfSegments(segs: seq<string>)
    requires |segs| > 0
    requires forall i :: 0 <= i < |segs| ==> IsSegment(segs[i])
    ensures Label(Join(segs, "/")) == if |segs| > 1 then segs[0] else Fallback
  {
    PartsOfSegments(segs);
  }

  /** One row of a `Counter`: a label and how often it was seen. */
  datatype Entry = Entry(key: string, count: nat)

  function KeysOf(t: seq<Entry>): seq<string> {
    seq(|t|, k requires 0 <= k < |t| => t[k].key)
  }

  predicate DistinctKeys(t: seq<Entry>) {
    forall i, j :: 0 <= i < j < |t| ==> t[i].key != t[j].key
  }

  /** `counter[x] += 1` on a table kept in insertion order: the row of `x` is
      bumped in place, or a new row is appended. */
  function Bump(t: seq<Entry>, x: string): (t': seq<Entry>)
    ensures |t'| > 0
    decreases |t|
  {
    if t == [] then [Entry(x, 1)]
    else if t[0].key == x then [Entry(x, t[0].count + 1)] + t[1..]
    else [t[0]] + Bump(t[1..], x)
  }

  /** `Counter(xs)`: the table built by bumping each label in turn. */
  function Tally(xs: seq<string>): (t: seq<Entry>)
    ensures |xs| > 0 ==> |t| > 0
    decreases |xs|
  {
    if xs == [] then [] else Bump(Tally(xs[..|xs| - 1]), xs[|xs| - 1])
  }

  /** `max(rows, key=count)`, which `most_common(1)` uses: the first row whose
      count no other row exceeds. */
  function MostCommonIndex(t: seq<Entry>): (m: nat)
    requires |t| > 0
    ensures m < |t|
    ensures forall k :: 0 <= k < |t| ==> t[k].count <= t[m].count
    ensures forall k :: 0 <= k < m ==> t[k].count < t[m].count
    decreases |t|
  {
    if |t| == 1 then 0
    else
      var m := MostCommonIndex(t[..|t| - 1]);
      if t[|t| - 1].count > t[m].count then |t| - 1 else m
  }

  /** `_determine_scope(paths)`: "misc" for no paths, otherwise one of the
      paths' labels. */
  function DetermineScope(paths: seq<string>): (scope: string)
    ensures paths == [] ==> scope == Fallback
    ensures paths != [] ==> scope in Labels(paths)
  {
    if paths == [] then Fallback
    else
      var labels := Labels(paths);
      var t := Tally(labels);
      TallyCounts(labels);
      t[MostCommonIndex(t)].key
  }

  /** `m` occurs in `labels`, no label occurs more often, and among the labels
      that occur as often, `m` appears first. */
  ghost predicate IsEarliestMode(labels: seq<string>, m: string) {
    && m in labels
    && (forall l :: l in labels ==> multiset(labels)[l] <= multiset(labels)[m])
    && (forall l :: l in labels && multiset(labels)[l] == multiset(labels)[m] ==>
          FirstIndex(labels, m) <= FirstIndex(labels, l))
  }

  /** Bumping an existing label increments its row and nothing else; a new
      label gets a row of its own at the end. */
  lemma {:induction false} BumpUpdates(t: seq<Entry>, x: string)
    requires DistinctKeys(t)
    ensures |Bump(t, x)| == if x in KeysOf(t) then |t| else |t| + 1
    ensures forall k :: 0 <= k < |t| ==>
              Bump(t, x)[k] == if t[k].key == x then Entry(x, t[k].count + 1) else t[k]
    ensures x !in KeysOf(t) ==> Bump(t, x)[|t|] == Entry(x, 1)
    decreases |t|
  {
    if t != [] {
      assert KeysOf(t) == [t[0].key] + KeysOf(t[1..]);
      if t[0].key == x {
        forall k | 1 <= k < |t| ensures t[k].key != x { }
      } else {
        BumpUpdates(t[1..], x);
        assert Bump(t, x) == [t[0]] + Bump(t[1..], x);
      }
    }
  }

  /** Every row names a label of `xs` and holds its number of occurrences. */
  predicate CountsOccurrences(xs: seq<string>, t: seq<Entry>) {
    forall k :: 0 <= k < |t| ==> t[k].key in xs && t[k].count == multiset(xs)[t[k].key]
  }

  /** Every label of `xs` has a row. */
  predicate CoversLabels(xs: seq<string>, t: seq<Entry>) {
    forall x :: x in xs ==> x in KeysOf(t)
  }

  /** Rows appear in the order their labels first appear in `xs`. */
  ghost predicate InFirstSeenOrder(xs: seq<string>, t: seq<Entry>) {
    forall i, j :: 0 <= i < j < |t| && t[i].key in xs && t[j].key in xs ==>
      FirstIndex(xs, t[i].key) < FirstIndex(xs, t[j].key)
  }

  lemma FirstIndexAppend(ys: seq<string>, x: string, l: string)
    requires l in ys + [x]
    ensures FirstIndex(ys + [x], l) == if l in ys then FirstIndex(ys, l) else |ys|
  {
    assert (ys + [x])[..|ys|] == ys;
  }

  lemma BumpKeepsCounts(ys: seq<string>, x: string, t0: seq<Entry>)
    requires DistinctKeys(t0) && CountsOccurrences(ys, t0) && CoversLabels(ys, t0)
    ensures CountsOccurrences(ys + [x], Bump(t0, x))
    ensures DistinctKeys(Bump(t0, x))
  {
    BumpUpdates(t0, x);
    var xs, t := ys + [x], Bump(t0, x);
    assert x in KeysOf(t0) <==> x in ys;
    forall k | 0 <= k < |t| ensures t[k].key in xs && t[k].count == multiset(xs)[t[k].key] {
      if k < |t0| {
        assert t0[k].key in ys;
      }
    }
    forall i, j | 0 <= i < j < |t| ensures t[i].key != t[j].key {
      if j < |t0| {
        assert t0[i].key != t0[j].key;
      } else {
        assert KeysOf(t0)[i] == t0[i].key;
      }
    }
  }

  lemma BumpKeepsCover(ys: seq<string>, x: string, t0: seq<Entry>)
    requires DistinctKeys(t0) && CoversLabels(ys, t0)
    ensures CoversLabels(ys + [x], Bump(t0, x))
  {
    BumpUpdates(t0, x);
    var t := Bump(t0, x);
    forall y | y in ys + [x] ensures y in KeysOf(t) {
      if y in KeysOf(t0) {
        var k :| 0 <= k < |t0| && KeysOf(t0)[k] == y;
        assert KeysOf(t)[k] == y;
      } else {
        assert y == x;
        assert KeysOf(t)[|t0|] == x;
      }
    }
  }

  lemma BumpKeepsOrder(ys: seq<string>, x: string, t0: seq<Entry>)
    requires DistinctKeys(t0) && CountsOccurrences(ys, t0) && CoversLabels(ys, t0)
    requires InFirstSeenOrder(ys, t0)
    ensures InFirstSeenOrder(ys + [x], Bump(t0, x))
  {
    BumpUpdates(t0, x);
    var xs, t := ys + [x], Bump(t0, x);
    assert x in KeysOf(t0) <==> x in ys;
    forall i, j | 0 <= i < j < |t| && t[i].key in xs && t[j].key in xs
      ensures FirstIndex(xs, t[i].key) < FirstIndex(xs, t[j].key)
    {
      var a, b := t[i].key, t[j].key;
      assert a == t0[i].key && a in ys;
      FirstIndexAppend(ys, x, a);
      FirstIndexAppend(ys, x, b);
      if j < |t0| {
        assert b == t0[j].key && b in ys;
        assert FirstIndex(ys, a) < FirstIndex(ys, b);
      } else {
        assert b == x && x !in ys;
      }
    }
  }

  /** The tally has one row per distinct label, counts its occurrences, and
      lists the rows in order of first appearance. */
  lemma {:induction false} TallyCounts(xs: seq<string>)
    ensures DistinctKeys(Tally(xs))
    ensures CountsOccurrences(xs, Tally(xs))
    ensures CoversLabels(xs, Tally(xs))
    ensures InFirstSeenOrder(xs, Tally(xs))
    decreases |xs|
  {
    if xs != [] {
      var ys, x := xs[..|xs| - 1], xs[|xs| - 1];
      assert xs == ys + [x];
      TallyCounts(ys);
      BumpKeepsCounts(ys, x, Tally(ys));
      BumpKeepsCover(ys, x, Tally(ys));
      BumpKeepsOrder(ys, x, Tally(ys));
    }
  }

  /** In a table that counts `xs` in first-seen order, the first row of
      maximal count holds the earliest mode of `xs`. */
  lemma FirstMaximalRowIsEarliestMode(xs: seq<string>, t: seq<Entry>, m: nat)
    requires DistinctKeys(t) && CountsOccurrences(xs, t) && CoversLabels(xs, t) && InFirstSeenOrder(xs, t)
    requires m < |t|
    requires forall k :: 0 <= k < |t| ==> t[k].count <= t[m].count
    requires forall k :: 0 <= k < m ==> t[k].count < t[m].count
    ensures IsEarliestMode(xs, t[m].key)
  {
    var scope := t[m].key;
    forall l | l in xs
      ensures multiset(xs)[l] <= multiset(xs)[scope]
      ensures multiset(xs)[l] == multiset(xs)[scope] ==> FirstIndex(xs, scope) <= FirstIndex(xs, l)
    {
      var k :| 0 <= k < |t| && KeysOf(t)[k] == l;
      assert t[k].key == l;
    }
  }

  /** `DetermineScope` returns "misc" for no paths, and otherwise the most
      frequent label, ties going to the label that appears first. */
  lemma ScopeIsEarliestMode(paths: seq<string>)
    ensures paths == [] ==> DetermineScope(paths) == Fallback
    ensures paths != [] ==> IsEarliestMode(Labels(paths), DetermineScope(paths))
  {
    if paths != [] {
      var labels := Labels(paths);
      TallyCounts(labels);
      var t := Tally(labels);
      FirstMaximalRowIsEarliestMode(labels, t, MostCommonIndex(t));
    }
  }

  /** At most one label is the earliest mode. */
  lemma EarliestModeIsUnique(labels: seq<string>, m1: string, m2: string)
    requires IsEarliestMode(labels, m1) && IsEarliestMode(labels, m2)
    ensures m1 == m2
  {
    assert FirstIndex(labels, m1) == FirstIndex(labels, m2);
  }

  /** `DetermineScope` is the only label with the earliest-mode property. */
  lemma ScopeIsUnique(paths: seq<string>, m: string)
    requires IsEarliestMode(Labels(paths), m)
    ensures m == DetermineScope(paths)
  {
    ScopeIsEarliestMode(paths);
    EarliestModeIsUnique(Labels(paths), m, DetermineScope(paths));
  }
}
