/** Small shared vocabulary: optional values, sets of small numbers, and sequences. */
module Basics {
  datatype Option<+T> = None | Some(value: T)

  /** The numbers below n. */
  function Below(n: nat): (s: set<nat>)
    ensures forall x: nat :: x in s <==> x < n
  {
    if n == 0 then {} else Below(n - 1) + {n - 1}
  }

  lemma BelowNone()
    ensures Below(0) == {}
  {}

  lemma BelowNext(n: nat)
    ensures Below(n + 1) == Below(n) + {n}
  {}

  /** There are at most n numbers below n. */
  lemma {:induction false} AtMost(s: set<nat>, n: nat)
    requires forall x :: x in s ==> x < n
    ensures |s| <= n
  {
    if n == 0 {
      assert s == {};
    } else {
      var t := s - {n - 1};
      AtMost(t, n - 1);
      OneLess(s, n - 1);
    }
  }

  lemma OneLess<T>(s: set<T>, x: T)
    ensures |s| <= |s - {x}| + 1
  {
    if x in s { assert s == (s - {x}) + {x}; }
  }

  lemma Regroup<T>(a: seq<T>, b: seq<T>, c: seq<T>)
    ensures (a + b) + c == a + (b + c)
  {}

  lemma NothingBefore<T>(a: seq<T>, b: seq<T>)
    requires |a| == 0
    ensures a + b == b
  {}

  /** s with the elements es in place of those from position lo on. */
  ghost function Overwrite<T>(s: seq<T>, lo: nat, es: seq<T>): (r: seq<T>)
    requires lo + |es| <= |s|
    ensures |r| == |s|
  {
    s[..lo] + es + s[lo + |es|..]
  }

  lemma OverwriteSnoc<T>(s: seq<T>, lo: nat, es: seq<T>, e: T)
    requires lo + |es| < |s|
    ensures Overwrite(s, lo, es)[lo + |es| := e] == Overwrite(s, lo, es + [e])
  {}

  lemma OverwriteNothing<T>(s: seq<T>, lo: nat)
    requires lo <= |s|
    ensures Overwrite(s, lo, []) == s
  {}

  lemma OverwriteSlice<T>(s: seq<T>, lo: nat, es: seq<T>, a: nat, b: nat)
    requires lo + |es| <= |s| && a <= b <= |s|
    ensures Overwrite(s, lo, es)[lo..lo + |es|] == es
    ensures b <= lo || lo + |es| <= a ==> Overwrite(s, lo, es)[a..b] == s[a..b]
  {}

  /** Two stretches, one right after the other. */
  lemma OverwriteTwice<T>(s: seq<T>, lo: nat, a: seq<T>, b: seq<T>)
    requires lo + |a| + |b| <= |s|
    ensures Overwrite(Overwrite(s, lo, a), lo + |a|, b) == Overwrite(s, lo, a + b)
  {}

  /** While parts are filled their starts run up to their ends; moving those up by one makes them starts again. */
  method ShiftStarts<T>(ends: seq<T>, first: T) returns (starts: seq<T>)
    requires |ends| >= 1
    ensures |starts| == |ends| && starts[0] == first && forall k :: 1 <= k < |starts| ==> starts[k] == ends[k - 1]
  {
    starts := ends;
    var i := |ends| - 1;
    while i > 0
      invariant 0 <= i < |ends| == |starts|
      invariant forall k :: 0 <= k <= i ==> starts[k] == ends[k]
      invariant forall k :: i < k < |ends| ==> starts[k] == ends[k - 1]
    {
      starts := starts[i := starts[i - 1]];
      i := i - 1;
    }
    starts := starts[0 := first];
  }
}
