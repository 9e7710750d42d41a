/** The two pieces of `pathlib` the analyzer uses: `Path(p).parts` and
    `Path(p).name`, for the relative, '/'-separated paths git reports. */
module Paths {
  import opened Strings

  /** A component `pathlib` keeps: not empty, not ".", and free of '/'. */
  predicate IsSegment(p: string) {
    p != "" && p != "." && '/' !in p
  }

  /** The pieces `pathlib` keeps: it drops the empty pieces that repeated or
      trailing separators produce and the "." pieces. */
  function KeepSegments(pieces: seq<string>): (segs: seq<string>)
    ensures |segs| <= |pieces|
    ensures forall i :: 0 <= i < |segs| ==> segs[i] in pieces && segs[i] != "" && segs[i] != "."
    decreases |pieces|
  {
    if pieces == [] then []
    else (if pieces[0] == "" || pieces[0] == "." then [] else [pieces[0]]) + KeepSegments(pieces[1..])
  }

  /** `Path(path).parts` for a relative path. */
  function Parts(path: string): (parts: seq<string>)
    ensures forall i :: 0 <= i < |parts| ==> IsSegment(parts[i])
    ensures forall i, c :: 0 <= i < |parts| && c in parts[i] ==> c in path
  {
    var pieces := Split(path, '/');
    var parts := KeepSegments(pieces);
    assert forall i :: 0 <= i < |parts| ==> exists j :: 0 <= j < |pieces| && pieces[j] == parts[i];
    parts
  }

  /** `Path(path).name`: the last component, or "" when there is none. */
  function Name(path: string): (name: string)
    ensures '/' !in name
    ensures forall c :: c in name ==> c in path
  {
    var parts := Parts(path);
    if parts == [] then "" else parts[|parts| - 1]
  }

  lemma {:induction false} KeepSegmentsConcat(a: seq<string>, b: seq<string>)
    ensures KeepSegments(a + b) == KeepSegments(a) + KeepSegments(b)
    decreases |a|
  {
    if a == [] {
      assert a + b == b;
    } else {
      assert (a + b)[0] == a[0];
      assert (a + b)[1..] == a[1..] + b;
      KeepSegmentsConcat(a[1..], b);
    }
  }

  lemma {:induction false} KeepSegmentsOfSegments(segs: seq<string>)
    requires forall i :: 0 <= i < |segs| ==> IsSegment(segs[i])
    ensures KeepSegments(segs) == segs
    decreases |segs|
  {
    if segs != [] {
      KeepSegmentsOfSegments(segs[1..]);
      assert [segs[0]] + segs[1..] == segs;
    }
  }

  /** Joining two paths with '/' joins their components: repeated separators
      and "." components leave no trace. */
  lemma PartsOfJoin(a: string, b: string)
    ensures Parts(a + "/" + b) == Parts(a) + Parts(b)
  {
    SplitConcat(a, '/', b);
    KeepSegmentsConcat(Split(a, '/'), Split(b, '/'));
  }

  /** A path spelled from proper components has exactly those components, and
      its name is the last one. */
  lemma PartsOfSegments(segs: seq<string>)
    requires |segs| > 0
    requires forall i :: 0 <= i < |segs| ==> IsSegment(segs[i])
    ensures Parts(Join(segs, "/")) == segs
    ensures Name(Join(segs, "/")) == segs[|segs| - 1]
  {
    SplitJoin(segs, '/');
    KeepSegmentsOfSegments(segs);
  }
}
