/** Python's `str.strip()` with no argument, over the fixed set of characters
    that `str.isspace()` accepts. */
module Whitespace {

  /** The characters `str.isspace()` accepts: U+0009..U+000D, U+001C..U+0020,
      U+0085, U+00A0, U+1680, U+2000..U+200A, U+2028, U+2029, U+202F, U+205F
      and U+3000. */
  predicate IsSpace(c: char) {
    || ('\t' <= c <= '\r')
    || ('\U{1C}' <= c <= ' ')
    || c == '\U{85}' || c == '\U{A0}' || c == '\U{1680}'
    || ('\U{2000}' <= c <= '\U{200A}')
    || c == '\U{2028}' || c == '\U{2029}' || c == '\U{202F}' || c == '\U{205F}'
    || c == '\U{3000}'
  }

  predicate AllSpace(s: string) {
    forall i :: 0 <= i < |s| ==> IsSpace(s[i])
  }

  /** Neither the first nor the last character is whitespace. */
  predicate NoEdgeSpace(s: string) {
    s == [] || (!IsSpace(s[0]) && !IsSpace(s[|s| - 1]))
  }

  /** The length of the run of whitespace that begins `s`. */
  function LeadingSpace(s: string): (k: nat)
    ensures k <= |s|
    ensures forall i :: 0 <= i < k ==> IsSpace(s[i])
    ensures k < |s| ==> !IsSpace(s[k])
    decreases |s|
  {
    if s != [] && IsSpace(s[0]) then 1 + LeadingSpace(s[1..]) else 0
  }

  /** The length of the run of whitespace that ends `s`. */
  function TrailingSpace(s: string): (k: nat)
    ensures k <= |s|
    ensures forall i :: |s| - k <= i < |s| ==> IsSpace(s[i])
    ensures k < |s| ==> !IsSpace(s[|s| - 1 - k])
    decreases |s|
  {
    if s != [] && IsSpace(s[|s| - 1]) then 1 + TrailingSpace(s[..|s| - 1]) else 0
  }

  /** Python's `s.strip()`: drop the leading and the trailing whitespace. */
  function Strip(s: string): (r: string)
    ensures NoEdgeSpace(r)
    ensures |r| <= |s|
  {
    var t := s[LeadingSpace(s)..];
    t[..|t| - TrailingSpace(t)]
  }

  /** The non-whitespace characters of `s`, in order: the text that stripping
      and re-spacing cannot change. */
  function Squeeze(s: string): (r: string)
    ensures |r| <= |s|
    ensures forall i :: 0 <= i < |r| ==> !IsSpace(r[i])
    decreases |s|
  {
    if s == [] then []
    else (if IsSpace(s[0]) then [] else [s[0]]) + Squeeze(s[1..])
  }

  lemma {:induction false} SqueezeConcat(a: string, b: string)
    ensures Squeeze(a + b) == Squeeze(a) + Squeeze(b)
    decreases |a|
  {
    if a != [] {
      var head: string := if IsSpace(a[0]) then [] else [a[0]];
      assert (a + b)[0] == a[0];
      assert (a + b)[1..] == a[1..] + b;
      SqueezeConcat(a[1..], b);
      calc {
        Squeeze(a + b);
        head + Squeeze(a[1..] + b);
        head + (Squeeze(a[1..]) + Squeeze(b));
        (head + Squeeze(a[1..])) + Squeeze(b);
        Squeeze(a) + Squeeze(b);
      }
    } else {
      assert a + b == b;
    }
  }

  lemma {:induction false} SqueezeAllSpace(s: string)
    requires AllSpace(s)
    ensures Squeeze(s) == []
    decreases |s|
  {
    if s != [] {
      SqueezeAllSpace(s[1..]);
    }
  }

  /** The stripped text is one slice of the input, starting after the
      leading whitespace. */
  lemma StripIsSlice(s: string)
    ensures LeadingSpace(s) + |Strip(s)| <= |s|
    ensures Strip(s) == s[LeadingSpace(s)..LeadingSpace(s) + |Strip(s)|]
  {
    var i := LeadingSpace(s);
    var t := s[i..];
    var r := t[..|t| - TrailingSpace(t)];
    assert Strip(s) == r;
    assert r == s[i..i + |r|];
  }

  /** Everything stripping drops after the kept slice is whitespace (what it
      drops before the slice is the leading run that `LeadingSpace` measures). */
  lemma StripDropsOnlySpace(s: string)
    ensures LeadingSpace(s) + |Strip(s)| <= |s|
    ensures AllSpace(s[LeadingSpace(s) + |Strip(s)|..])
  {
    var i := LeadingSpace(s);
    var t := s[i..];
    var k := TrailingSpace(t);
    assert |Strip(s)| == |t| - k;
    var after := s[i + |t| - k..];
    forall j | 0 <= j < |after| ensures IsSpace(after[j]) {
      assert after[j] == t[|t| - k + j];
    }
  }

  /** Stripping removes only whitespace. */
  lemma StripKeepsText(s: string)
    ensures Squeeze(Strip(s)) == Squeeze(s)
  {
    StripIsSlice(s);
    StripDropsOnlySpace(s);
    var i := LeadingSpace(s);
    var before := s[..i];
    forall j | 0 <= j < |before| ensures IsSpace(before[j]) {
      assert before[j] == s[j];
    }
    var j := i + |Strip(s)|;
    assert s == s[..i] + Strip(s) + s[j..];
    SqueezeConcat(s[..i] + Strip(s), s[j..]);
    SqueezeConcat(s[..i], Strip(s));
    SqueezeAllSpace(s[..i]);
    SqueezeAllSpace(s[j..]);
  }

  /** Stripping leaves a string unchanged exactly when it has no edge whitespace. */
  lemma StripFixedPoint(s: string)
    ensures Strip(s) == s <==> NoEdgeSpace(s)
  {
    if NoEdgeSpace(s) {
      assert LeadingSpace(s) == 0;
      assert s[0..] == s;
      if s != [] {
        assert TrailingSpace(s) == 0;
      }
    }
  }

  /** Stripping gives the empty string exactly when the input is all whitespace. */
  lemma StripEmptyIffBlank(s: string)
    ensures Strip(s) == [] <==> Squeeze(s) == []
  {
    StripKeepsText(s);
    var r := Strip(s);
    if r != [] {
      assert Squeeze(r) == [r[0]] + Squeeze(r[1..]);
    }
  }

  /** A string that starts with a non-whitespace character keeps it at the front. */
  lemma StripKeepsFirst(s: string)
    requires s != [] && !IsSpace(s[0])
    ensures Strip(s) != [] && Strip(s)[0] == s[0]
  {
    assert LeadingSpace(s) == 0;
    assert s[0..] == s;
    assert TrailingSpace(s) < |s|;
  }

  /** A string that ends with a non-whitespace character keeps it at the back. */
  lemma StripKeepsLast(s: string)
    requires s != [] && !IsSpace(s[|s| - 1])
    ensures Strip(s) != [] && Strip(s)[|Strip(s)| - 1] == s[|s| - 1]
  {
    var i := LeadingSpace(s);
    assert i < |s|;
    var t := s[i..];
    assert TrailingSpace(t) == 0;
  }
}
