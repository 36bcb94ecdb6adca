/** Slash-separated paths: `String.prototype.split` on one separator character,
    its inverse, `indexOf`, and `matchPath` (src/index.ts:60-78). */
module Paths {
  import opened Signals

  /** `segs.join(sep)`. */
  function JoinWith(segs: seq<string>, sep: char): string
    requires |segs| > 0
  {
    if |segs| == 1 then segs[0] else segs[0] + [sep] + JoinWith(segs[1..], sep)
  }

  /** `s.split(sep)` for a one-character separator: empty segments are kept, so
      the empty string is one empty segment and "/a" is ["", "a"]. */
  function Split(s: string, sep: char): (r: seq<string>)
    ensures |r| > 0
    ensures forall i :: 0 <= i < |r| ==> sep !in r[i]
    ensures JoinWith(r, sep) == s
  {
    if |s| == 0 then [""]
    else
      var rest := Split(s[1..], sep);
      if s[0] == sep then
        assert ([""] + rest)[1..] == rest;
        assert s == [sep] + s[1..];
        [""] + rest
      else
        var r := [[s[0]] + rest[0]] + rest[1..];
        assert r[1..] == rest[1..];
        assert s == [s[0]] + s[1..];
        r
  }

  /** A single separator-free piece splits to itself. */
  lemma SplitWithoutSeparator(a: string, sep: char)
    requires sep !in a
    ensures Split(a, sep) == [a]
  {
  }

  /** Splitting at a separator that follows a separator-free piece. */
  lemma {:induction false} SplitAfterPiece(a: string, sep: char, b: string)
    requires sep !in a
    ensures Split(a + [sep] + b, sep) == [a] + Split(b, sep)
  {
    if |a| == 0 {
      assert a + [sep] + b == [sep] + b;
      SplitSepCons(b, sep);
    } else {
      assert sep !in a[1..];
      SplitAfterPiece(a[1..], sep, b);
      SplitAfterPieceStep(a, sep, b);
    }
  }

  lemma SplitAfterPieceStep(a: string, sep: char, b: string)
    requires |a| > 0 && a[0] != sep
    requires Split(a[1..] + [sep] + b, sep) == [a[1..]] + Split(b, sep)
    ensures Split(a + [sep] + b, sep) == [a] + Split(b, sep)
  {
    var t := a[1..] + [sep] + b;
    assert a + [sep] + b == [a[0]] + t;
    SplitCons(a[0], t, sep);
    assert [a[0]] + a[1..] == a;
  }

  /** A leading separator closes an empty first segment. */
  lemma SplitSepCons(t: string, sep: char)
    ensures Split([sep] + t, sep) == [""] + Split(t, sep)
  {
    assert ([sep] + t)[1..] == t;
  }

  /** A character other than the separator extends the first segment. */
  lemma SplitCons(c: char, t: string, sep: char)
    requires c != sep
    ensures Split([c] + t, sep) == [[c] + Split(t, sep)[0]] + Split(t, sep)[1..]
  {
    assert ([c] + t)[1..] == t;
  }

  /** Split inverts JoinWith on separator-free segments (JoinWith inverts Split by
      Split's own contract), so the segment lists of two paths are equal exactly
      when the paths are. */
  lemma {:induction false} SplitJoin(segs: seq<string>, sep: char)
    requires |segs| > 0
    requires forall i :: 0 <= i < |segs| ==> sep !in segs[i]
    ensures Split(JoinWith(segs, sep), sep) == segs
  {
    if |segs| == 1 {
      SplitWithoutSeparator(segs[0], sep);
    } else {
      SplitJoin(segs[1..], sep);
      SplitAfterPiece(segs[0], sep, JoinWith(segs[1..], sep));
      assert [segs[0]] + segs[1..] == segs;
    }
  }

  /** Sequence `sub` occurs in `s` at position `i`. */
  predicate OccursAt(s: string, sub: string, i: int) {
    0 <= i && i + |sub| <= |s| && s[i..i + |sub|] == sub
  }

  function IndexFrom(s: string, sub: string, i: nat): (r: int)
    requires i <= |s| + 1
    ensures r == -1 || (i <= r && OccursAt(s, sub, r))
    ensures r == -1 ==> forall j :: i <= j ==> !OccursAt(s, sub, j)
    ensures r >= 0 ==> forall j :: i <= j < r ==> !OccursAt(s, sub, j)
    decreases |s| + 1 - i
  {
    if i + |sub| > |s| then -1
    else if s[i..i + |sub|] == sub then i
    else IndexFrom(s, sub, i + 1)
  }

  /** `s.indexOf(sub)`: the first position at which `sub` occurs, or -1. */
  function IndexOf(s: string, sub: string): (r: int)
    ensures r == -1 <==> forall j :: !OccursAt(s, sub, j)
    ensures r >= 0 ==> OccursAt(s, sub, r) && forall j :: 0 <= j < r ==> !OccursAt(s, sub, j)
    ensures r == 0 <==> sub <= s
  {
    var r := IndexFrom(s, sub, 0);
    assert sub <= s ==> OccursAt(s, sub, 0);
    r
  }

  /** The segments `matchPath` compares. */
  function Segments(path: string): seq<string> {
    Split(path, '/')
  }

  /** Some index below both segment counts holds different segments. */
  predicate SegmentsDiffer(p1: seq<string>, p2: seq<string>) {
    exists i :: 0 <= i < |p1| && i < |p2| && p1[i] != p2[i]
  }

  /** `matchPath(path, ref)`: Skip when the segment lists differ somewhere both
      have a segment, otherwise Break for equal paths and Normal when one
      segment list strictly extends the other. */
  function MatchPath(path: string, ref: string): (r: TReturn)
    ensures r == Break <==> path == ref
    ensures r == Normal <==> Segments(path) < Segments(ref) || Segments(ref) < Segments(path)
  {
    var p1 := Segments(path);
    var p2 := Segments(ref);
    if SegmentsDiffer(p1, p2) then Skip
    else if |p1| == |p2| then
      assert p1 == p2;
      Break
    else
      if |p1| < |p2| then assert p1 == p2[..|p1|]; Normal
      else assert p2 == p1[..|p2|]; Normal
  }

  /** `matchPath` as the source writes it: a while loop over the shorter length
      that returns Skip at the first differing segment. */
  method MatchPathLoop(path: string, ref: string) returns (r: TReturn)
    ensures r == MatchPath(path, ref)
  {
    var p1 := Segments(path);
    var p2 := Segments(ref);
    var l1 := |p1|;
    var l2 := |p2|;
    var l := if l1 > l2 then l2 else l1;
    var i := 0;
    while i < l
      invariant 0 <= i <= l
      invariant l == |p1| || l == |p2|
      invariant l <= |p1| && l <= |p2|
      invariant forall j :: 0 <= j < i ==> p1[j] == p2[j]
    {
      if p1[i] != p2[i] {
        return Skip;
      }
      i := i + 1;
    }
    r := if l1 == l2 then Break else Normal;
  }

  /** `matchPath` does not depend on the order of its arguments. */
  lemma MatchPathSymmetric(a: string, b: string)
    ensures MatchPath(a, b) == MatchPath(b, a)
  {
  }
}
