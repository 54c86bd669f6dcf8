/**
 * Python's ordering of `str` values (code point by code point, a proper
 * prefix first) and `sorted(...)` applied to a set of strings, which the
 * main block uses twice: on the set of raw names and on the set of
 * accepted names.
 */
module Ordering {

  /** Python's `a < b` on strings. */
  predicate Less(a: string, b: string)
    decreases |a|
  {
    if a == [] then b != []
    else if b == [] then false
    else if a[0] == b[0] then Less(a[1..], b[1..])
    else a[0] < b[0]
  }

  lemma {:induction false} LessIrreflexive(a: string)
    ensures !Less(a, a)
    decreases |a|
  {
    if a != [] { LessIrreflexive(a[1..]); }
  }

  lemma {:induction false} LessTransitive(a: string, b: string, c: string)
    requires Less(a, b) && Less(b, c)
    ensures Less(a, c)
    decreases |a|
  {
    if a != [] && a[0] == b[0] && b[0] == c[0] {
      LessTransitive(a[1..], b[1..], c[1..]);
    }
  }

  /** Any two different strings are ordered one way or the other. */
  lemma {:induction false} LessTotal(a: string, b: string)
    requires a != b
    ensures Less(a, b) || Less(b, a)
    decreases |a|
  {
    if a != [] && b != [] && a[0] == b[0] {
      assert a == [a[0]] + a[1..] && b == [b[0]] + b[1..];
      LessTotal(a[1..], b[1..]);
    }
  }

  lemma LessAsymmetric(a: string, b: string)
    requires Less(a, b)
    ensures !Less(b, a)
  {
    if Less(b, a) {
      LessTransitive(a, b, a);
      LessIrreflexive(a);
    }
  }

  /** Ascending with no element repeated. */
  predicate StrictlySorted(r: seq<string>) {
    forall i, j :: 0 <= i < j < |r| ==> Less(r[i], r[j])
  }

  function Elements<T>(r: seq<T>): set<T> {
    set x | x in r
  }

  lemma HeadIsElement(r: seq<string>)
    ensures r != [] ==> r[0] in Elements(r)
  {
  }

  /** A strictly sorted sequence holds each of its elements once. */
  lemma {:induction false} SortedDistinct(r: seq<string>)
    requires StrictlySorted(r)
    ensures |Elements(r)| == |r|
    decreases |r|
  {
    if r != [] {
      SortedDistinct(r[1..]);
      assert Elements(r) == {r[0]} + Elements(r[1..]);
      if r[0] in Elements(r[1..]) {
        var k :| 0 <= k < |r[1..]| && r[1..][k] == r[0];
        assert Less(r[0], r[k + 1]);
        LessIrreflexive(r[0]);
      }
    }
  }

  /** A set of strings has exactly one strictly sorted listing. */
  lemma {:induction false} SortedUnique(a: seq<string>, b: seq<string>)
    requires StrictlySorted(a) && StrictlySorted(b)
    requires Elements(a) == Elements(b)
    ensures a == b
    decreases |a|
  {
    if a == [] {
      HeadIsElement(b);
    } else {
      assert b != [] by { assert a[0] in Elements(a); }
      assert a[0] in Elements(b);
      assert b[0] in Elements(a);
      var k :| 0 <= k < |b| && b[k] == a[0];
      var m :| 0 <= m < |a| && a[m] == b[0];
      if a[0] != b[0] {
        assert k > 0 && m > 0;
        assert Less(b[0], a[0]) && Less(a[0], b[0]);
        LessAsymmetric(a[0], b[0]);
      }
      TailElements(a);
      TailElements(b);
      SortedUnique(a[1..], b[1..]);
      assert a == [a[0]] + a[1..] && b == [b[0]] + b[1..];
    }
  }

  lemma TailElements(r: seq<string>)
    requires StrictlySorted(r) && r != []
    ensures Elements(r[1..]) == Elements(r) - {r[0]}
  {
    if r[0] in r[1..] {
      var k :| 0 <= k < |r[1..]| && r[1..][k] == r[0];
      assert Less(r[0], r[k + 1]);
      LessIrreflexive(r[0]);
    }
    assert r == [r[0]] + r[1..];
  }

  /** Put `x` into its place in a strictly sorted sequence (no change if it is there). */
  function Insert(r: seq<string>, x: string): (res: seq<string>)
    requires StrictlySorted(r)
    ensures StrictlySorted(res)
    ensures Elements(res) == Elements(r) + {x}
    decreases |r|
  {
    if r == [] then [x]
    else if x == r[0] then r
    else if Less(x, r[0]) then
      assert forall j :: 0 < j < |r| ==> Less(x, r[j]) by {
        forall j | 0 < j < |r| ensures Less(x, r[j]) { LessTransitive(x, r[0], r[j]); }
      }
      assert Elements([x] + r) == Elements(r) + {x};
      [x] + r
    else
      LessTotal(x, r[0]);
      var tail := Insert(r[1..], x);
      assert forall y :: y in tail ==> Less(r[0], y) by {
        forall y | y in tail ensures Less(r[0], y) {
          assert y in Elements(tail);
          if y != x {
            var j :| 0 <= j < |r[1..]| && r[1..][j] == y;
            assert Less(r[0], r[j + 1]);
          }
        }
      }
      assert r == [r[0]] + r[1..];
      assert Elements([r[0]] + tail) == {r[0]} + Elements(tail);
      [r[0]] + tail
  }

  /** `sorted(s)` for a set of strings: every element once, ascending. */
  method Sorted(s: set<string>) returns (r: seq<string>)
    ensures StrictlySorted(r)
    ensures Elements(r) == s
    ensures |r| == |s|
  {
    r := [];
    var rest := s;
    while rest != {}
      invariant StrictlySorted(r)
      invariant Elements(r) !! rest
      invariant Elements(r) + rest == s
      decreases |rest|
    {
      var x :| x in rest;
      r := Insert(r, x);
      rest := rest - {x};
    }
    SortedDistinct(r);
  }
}
