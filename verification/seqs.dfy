/** Generic sequence vocabulary shared by the two walkers: early exit ("stop at the
    first element that breaks") and the "remember the last hit" idiom the node
    locator uses to capture its result from inside a callback. */
module Seqs {

  datatype Option<+T> = None | Some(value: T)

  /** True when some element of `s` satisfies `p`. */
  predicate Exists<T>(s: seq<T>, p: T -> bool) {
    exists i :: 0 <= i < |s| && p(s[i])
  }

  /** The concatenation of a list of sequences, in order. */
  function Concat<T>(ss: seq<seq<T>>): seq<T> {
    if ss == [] then [] else ss[0] + Concat(ss[1..])
  }

  /** Dropping the head of a concatenation whose first part is not empty. */
  lemma DropHeadAppend<T>(a: seq<T>, b: seq<T>, c: seq<T>)
    requires a != []
    ensures (a + b)[0] == a[0]
    ensures (a + b)[1..] + c == a[1..] + (b + c)
    ensures [a[0]] + (a[1..] + c) == a + c
  {
  }

  lemma AppendAssoc<T>(a: seq<T>, b: seq<T>, c: seq<T>)
    ensures (a + b) + c == a + (b + c)
  {
  }

  /** An element satisfying `p` lies in one part or the other of a concatenation. */
  lemma ExistsAppend<T>(a: seq<T>, b: seq<T>, p: T -> bool)
    ensures Exists(a + b, p) <==> Exists(a, p) || Exists(b, p)
  {
    if Exists(a + b, p) {
      var i :| 0 <= i < |a + b| && p((a + b)[i]);
      if i >= |a| { assert p(b[i - |a|]); }
    }
    if Exists(b, p) {
      var i :| 0 <= i < |b| && p(b[i]);
      assert p((a + b)[i + |a|]);
    }
    if Exists(a, p) {
      var i :| 0 <= i < |a| && p(a[i]);
      assert p((a + b)[i]);
    }
  }

  /** The prefix of `s` that ends with the first element satisfying `stop`, or the
      whole of `s` when no element does: what a walk that aborts on `stop` sees. */
  function TakeThrough<T>(s: seq<T>, stop: T -> bool): (r: seq<T>)
    ensures |r| <= |s| && r == s[..|r|]
    ensures forall i :: 0 <= i < |r| - 1 ==> !stop(r[i])
    ensures Exists(s, stop) <==> |r| > 0 && stop(r[|r| - 1])
    ensures !Exists(s, stop) ==> r == s
  {
    if s == [] then []
    else if stop(s[0]) then [s[0]]
    else
      var rest := TakeThrough(s[1..], stop);
      assert Exists(s, stop) ==> Exists(s[1..], stop) by {
        if Exists(s, stop) {
          var i :| 0 <= i < |s| && stop(s[i]);
          assert i > 0 && stop(s[1..][i - 1]);
        }
      }
      assert Exists(s[1..], stop) ==> Exists(s, stop) by {
        if Exists(s[1..], stop) {
          var i :| 0 <= i < |s[1..]| && stop(s[1..][i]);
          assert stop(s[i + 1]);
        }
      }
      [s[0]] + rest
  }

  /** Some element of a non-empty sequence satisfies `p` exactly when its head
      or some element of its tail does. */
  lemma ExistsCons<T>(a: seq<T>, p: T -> bool)
    requires a != []
    ensures Exists(a, p) <==> p(a[0]) || Exists(a[1..], p)
  {
  }

  /** Truncating a concatenation: the second part is only reached when the first
      part holds no stopping element. */
  lemma {:induction false} TakeThroughAppend<T>(a: seq<T>, b: seq<T>, stop: T -> bool)
    ensures TakeThrough(a + b, stop)
         == if Exists(a, stop) then TakeThrough(a, stop) else a + TakeThrough(b, stop)
  {
    if a == [] {
      assert a + b == b;
    } else {
      DropHeadAppend(a, b, []);
      assert (a + b)[1..] == a[1..] + b;
      ExistsCons(a, stop);
      if !stop(a[0]) {
        TakeThroughAppend(a[1..], b, stop);
        assert TakeThrough(a + b, stop) == [a[0]] + TakeThrough(a[1..] + b, stop);
        if !Exists(a, stop) {
          DropHeadAppend(a, [], TakeThrough(b, stop));
        }
      }
    }
  }

  /** Truncating `[open] + inner + [close]` when `open` does not stop: the
      closing element is reached only if `inner` holds no stopping element. */
  lemma TakeThroughBracket<T>(open: T, inner: seq<T>, close: T, stop: T -> bool)
    requires !stop(open)
    ensures TakeThrough([open] + inner + [close], stop)
         == if Exists(inner, stop) then [open] + TakeThrough(inner, stop)
            else [open] + inner + [close]
    ensures Exists([open] + inner + [close], stop) == (Exists(inner, stop) || stop(close))
  {
    var s := [open] + inner + [close];
    assert s == [open] + (inner + [close]);
    assert s[0] == open && s[1..] == inner + [close];
    TakeThroughAppend(inner, [close], stop);
    ExistsAppend([open], inner + [close], stop);
    ExistsAppend(inner, [close], stop);
    assert !Exists([open], stop);
    assert Exists([close], stop) == stop(close) by {
      if stop(close) { assert stop([close][0]); }
    }
    assert TakeThrough([close], stop) == [close];
  }

  /** The first element of `s` satisfying `p`, if any. */
  function FirstWhere<T>(s: seq<T>, p: T -> bool): (r: Option<T>)
    ensures r.None? <==> !Exists(s, p)
    ensures r.Some? ==> exists i :: 0 <= i < |s| && s[i] == r.value && p(s[i]) &&
                                     forall j :: 0 <= j < i ==> !p(s[j])
  {
    if s == [] then None
    else if p(s[0]) then Some(s[0])
    else
      var rest := FirstWhere(s[1..], p);
      assert rest.Some? ==> exists i :: 0 <= i < |s| && s[i] == rest.value && p(s[i]) &&
                                        forall j :: 0 <= j < i ==> !p(s[j]) by {
        if rest.Some? {
          var k :| 0 <= k < |s[1..]| && s[1..][k] == rest.value && p(s[1..][k]) &&
                   forall j :: 0 <= j < k ==> !p(s[1..][j]);
          assert forall j :: 0 <= j < k + 1 ==> !p(s[j]) by {
            forall j | 0 <= j < k + 1 ensures !p(s[j]) {
              if j > 0 { assert s[j] == s[1..][j - 1]; }
            }
          }
          assert s[k + 1] == rest.value && p(s[k + 1]);
        }
      }
      rest
  }

  /** A variable that every element satisfying `p` overwrites, scanned left to
      right from `acc`: it ends up holding the LAST such element. */
  function Record<T>(s: seq<T>, p: T -> bool, acc: Option<T>): (r: Option<T>)
    ensures r.None? ==> acc.None? && !Exists(s, p)
    ensures r.Some? ==> r == acc || Exists(s, p)
  {
    if s == [] then acc
    else
      var r := Record(s[1..], p, if p(s[0]) then Some(s[0]) else acc);
      assert Exists(s[1..], p) ==> Exists(s, p) by {
        if Exists(s[1..], p) {
          var i :| 0 <= i < |s[1..]| && p(s[1..][i]);
          assert p(s[i + 1]);
        }
      }
      r
  }

  /** When the walk stops exactly at the elements that get recorded, the recorded
      value after the truncated walk is the first hit of the untruncated one. */
  lemma {:induction false} RecordThroughFirst<T>(s: seq<T>, stop: T -> bool, p: T -> bool)
    requires forall i :: 0 <= i < |s| ==> (stop(s[i]) <==> p(s[i]))
    ensures Record(TakeThrough(s, stop), p, None) == FirstWhere(s, p)
  {
    if s != [] {
      if stop(s[0]) {
        assert TakeThrough(s, stop) == [s[0]];
        assert Record([s[0]], p, None) == Record([s[0]][1..], p, Some(s[0]));
      } else {
        var t := TakeThrough(s[1..], stop);
        assert TakeThrough(s, stop) == [s[0]] + t;
        assert ([s[0]] + t)[1..] == t;
        RecordThroughFirst(s[1..], stop, p);
      }
    }
  }
}
