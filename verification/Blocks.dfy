/** How a parallel region splits n rows among its threads.  The bounds are defined by counting; method
    Block computes them with the division and products of the program. */
module Blocks {
  import opened Basics

  function Size(n: nat, threads: nat): nat
    requires threads >= 1
  {
    if n < threads then 0 else 1 + Size(n - threads, threads)
  }

  function Rest(n: nat, threads: nat): (rest: nat)
    requires threads >= 1
    ensures rest < threads
  {
    if n < threads then n else Rest(n - threads, threads)
  }

  /** The first row of block t: the first `rest` blocks have size + 1 rows, the others size. */
  function Start(size: nat, rest: nat, t: nat): nat {
    if t == 0 then 0 else Start(size, rest, t - 1) + size + (if t - 1 < rest then 1 else 0)
  }

  lemma {:induction false} SizeAndRest(n: nat, threads: nat)
    requires threads >= 1
    ensures Size(n, threads) * threads + Rest(n, threads) == n
    ensures Size(n, threads) == n / threads
  {
    if n >= threads {
      SizeAndRest(n - threads, threads);
      var k, r := Size(n - threads, threads), Rest(n, threads);
      assert (k + 1) * threads == k * threads + threads;
      Quotient(n, threads, k + 1, r);
    } else {
      Quotient(n, threads, 0, n);
    }
  }

  lemma Quotient(n: nat, d: nat, q: nat, r: nat)
    requires d >= 1 && q * d + r == n && r < d
    ensures q == n / d
  {
    var k := n / d;
    assert n == k * d + n % d;
    assert q < k ==> (q + 1) * d <= k * d;
    assert k < q ==> (k + 1) * d <= q * d;
  }

  lemma {:induction false} StartIs(size: nat, rest: nat, t: nat)
    ensures Start(size, rest, t) == if t < rest then t * (size + 1) else t * size + rest
  {
    if t > 0 {
      StartIs(size, rest, t - 1);
      assert t * (size + 1) == (t - 1) * (size + 1) + (size + 1);
      assert t * size == (t - 1) * size + size;
      assert t * (size + 1) == t * size + t;
    }
  }

  lemma {:induction false} StartsInOrder(size: nat, rest: nat, s: nat, t: nat)
    requires s <= t
    ensures Start(size, rest, s) <= Start(size, rest, t)
    decreases t - s
  {
    if s < t { StartsInOrder(size, rest, s, t - 1); }
  }

  /** Blocks lo[t]..hi[t] that lie one after the other from `from` to n. */
  ghost predicate Chained(lo: seq<nat>, hi: seq<nat>, from: nat, n: nat)
    decreases |lo|
  {
    && |lo| == |hi|
    && if lo == [] then from == n else lo[0] == from && from <= hi[0] && Chained(lo[1..], hi[1..], hi[0], n)
  }

  lemma {:induction false} BlockWithin(lo: seq<nat>, hi: seq<nat>, from: nat, n: nat, t: nat)
    requires Chained(lo, hi, from, n) && t < |lo|
    ensures from <= lo[t] <= hi[t] <= n
    decreases |lo|
  {
    if t > 0 {
      BlockWithin(lo[1..], hi[1..], hi[0], n, t - 1);
    } else if |lo| > 1 {
      BlockWithin(lo[1..], hi[1..], hi[0], n, 0);
    }
  }

  lemma {:induction false} BlocksInOrder(lo: seq<nat>, hi: seq<nat>, from: nat, n: nat, s: nat, t: nat)
    requires Chained(lo, hi, from, n) && s < t < |lo|
    ensures hi[s] <= lo[t] && (t == s + 1 ==> hi[s] == lo[t])
    decreases |lo|
  {
    if s > 0 {
      BlocksInOrder(lo[1..], hi[1..], hi[0], n, s - 1, t - 1);
    } else {
      BlockWithin(lo[1..], hi[1..], hi[0], n, t - 1);
    }
  }

  lemma {:induction false} LastBlock(lo: seq<nat>, hi: seq<nat>, from: nat, n: nat)
    requires lo != [] && Chained(lo, hi, from, n)
    ensures hi[|hi| - 1] == n
    decreases |lo|
  {
    if |lo| > 1 { LastBlock(lo[1..], hi[1..], hi[0], n); }
  }

  /** Every row is in some thread's block ... */
  lemma {:induction false} SomeBlock(lo: seq<nat>, hi: seq<nat>, from: nat, n: nat, i: nat) returns (t: nat)
    requires Chained(lo, hi, from, n) && from <= i < n
    ensures t < |lo| && lo[t] <= i < hi[t]
    decreases |lo|
  {
    if i < hi[0] {
      t := 0;
    } else {
      t := SomeBlock(lo[1..], hi[1..], hi[0], n, i);
      t := t + 1;
    }
  }

  /** ... and in one only. */
  lemma OneBlock(lo: seq<nat>, hi: seq<nat>, n: nat, s: nat, t: nat, i: nat)
    requires Chained(lo, hi, 0, n) && s < |lo| && t < |lo| && lo[s] <= i < hi[s] && lo[t] <= i < hi[t]
    ensures s == t
  {
    if s < t { BlocksInOrder(lo, hi, 0, n, s, t); }
    if t < s { BlocksInOrder(lo, hi, 0, n, t, s); }
  }

  lemma BoundsAre(size: nat, rest: nat, t: nat)
    ensures Start(size, rest, t) == if t < rest then t * (size + 1) else t * size + rest
    ensures Start(size, rest, t + 1) == if t < rest then (t + 1) * (size + 1) else (t + 1) * size + rest
  {
    StartIs(size, rest, t);
    StartIs(size, rest, t + 1);
    if t + 1 == rest { assert (t + 1) * (size + 1) == (t + 1) * size + (t + 1); }
  }

  /** What each thread computes for itself: the first row of its block and the row after its last one. */
  method Block(n: nat, threads: nat, t: nat) returns (ns: nat, ne: nat)
    requires t < threads
    ensures ns == Start(Size(n, threads), Rest(n, threads), t) && ne == Start(Size(n, threads), Rest(n, threads), t + 1)
  {
    SizeAndRest(n, threads);
    var size := n / threads;
    var rest := n - size * threads;
    BoundsAre(size, rest, t);
    if t < rest {
      ns, ne := t * (size + 1), (t + 1) * (size + 1);
    } else {
      ns, ne := t * size + rest, (t + 1) * size + rest;
    }
  }

  lemma LastBound(n: nat, threads: nat)
    requires threads >= 1
    ensures Start(Size(n, threads), Rest(n, threads), threads) == n
  {
    StartIs(Size(n, threads), Rest(n, threads), threads);
    SizeAndRest(n, threads);
  }

  lemma {:induction false} ChainedSnoc(lo: seq<nat>, hi: seq<nat>, from: nat, a: nat, b: nat)
    requires Chained(lo, hi, from, a) && a <= b
    ensures Chained(lo + [a], hi + [b], from, b)
    decreases |lo|
  {
    if lo != [] {
      assert (lo + [a])[1..] == lo[1..] + [a] && (hi + [b])[1..] == hi[1..] + [b];
      ChainedSnoc(lo[1..], hi[1..], hi[0], a, b);
    }
  }

  /** All threads' blocks. */
  method ThreadBlocks(n: nat, threads: nat) returns (lo: seq<nat>, hi: seq<nat>)
    requires threads >= 1
    ensures |lo| == |hi| == threads && Chained(lo, hi, 0, n)
  {
    lo, hi := [], [];
    for t := 0 to threads
      invariant |lo| == |hi| == t && Chained(lo, hi, 0, Start(Size(n, threads), Rest(n, threads), t))
    {
      var ns, ne := Block(n, threads, t);
      ChainedSnoc(lo, hi, 0, ns, ne);
      lo, hi := lo + [ns], hi + [ne];
    }
    LastBound(n, threads);
  }

  // ---- any interleaving of the threads

  /** Thread t stands at row pos[t] of its block. */
  ghost predicate Standing(n: nat, lo: seq<nat>, pos: seq<nat>, hi: seq<nat>) {
    && |pos| == |lo| && Chained(lo, hi, 0, n)
    && forall t :: 0 <= t < |pos| ==> lo[t] <= pos[t] <= hi[t]
  }

  /** The rows worked on so far. */
  ghost predicate DoneSoFar(lo: seq<nat>, pos: seq<nat>, done: set<nat>) {
    && |pos| == |lo|
    && (forall i :: i in done ==> exists t :: 0 <= t < |pos| && lo[t] <= i < pos[t])
    && (forall t, i :: 0 <= t < |pos| && lo[t] <= i < pos[t] ==> i in done)
  }

  lemma StandingStart(n: nat, lo: seq<nat>, hi: seq<nat>)
    requires Chained(lo, hi, 0, n)
    ensures Standing(n, lo, lo, hi) && DoneSoFar(lo, lo, {})
  {
    forall t | 0 <= t < |lo| ensures lo[t] <= hi[t] { BlockWithin(lo, hi, 0, n, t); }
  }

  /** The next row of a thread has not been worked on by any other. */
  lemma StandingNext(n: nat, lo: seq<nat>, pos: seq<nat>, hi: seq<nat>, done: set<nat>, t: nat)
    requires Standing(n, lo, pos, hi) && DoneSoFar(lo, pos, done) && t < |pos| && pos[t] < hi[t]
    ensures pos[t] < n && pos[t] !in done
    ensures Standing(n, lo, pos[t := pos[t] + 1], hi) && DoneSoFar(lo, pos[t := pos[t] + 1], done + {pos[t]})
  {
    BlockWithin(lo, hi, 0, n, t);
    NotYetDone(n, lo, pos, hi, done, t);
    var pos' := pos[t := pos[t] + 1];
    assert lo[t] <= pos[t] < pos'[t];
    forall i | i in done + {pos[t]} && i != pos[t] ensures exists s :: 0 <= s < |pos'| && lo[s] <= i < pos'[s] {
      var s :| 0 <= s < |pos| && lo[s] <= i < pos[s];
      assert lo[s] <= i < pos'[s];
    }
  }

  lemma NotYetDone(n: nat, lo: seq<nat>, pos: seq<nat>, hi: seq<nat>, done: set<nat>, t: nat)
    requires Standing(n, lo, pos, hi) && DoneSoFar(lo, pos, done) && t < |pos| && pos[t] < hi[t]
    ensures pos[t] !in done
  {
    if pos[t] in done {
      var s :| 0 <= s < |pos| && lo[s] <= pos[t] < pos[s];
      OneBlock(lo, hi, n, s, t, pos[t]);
    }
  }

  lemma AllDone(n: nat, lo: seq<nat>, pos: seq<nat>, hi: seq<nat>, done: set<nat>)
    requires Standing(n, lo, pos, hi) && DoneSoFar(lo, pos, done)
    requires forall t :: 0 <= t < |pos| ==> pos[t] >= hi[t]
    ensures done == Below(n) && pos == hi
  {
    forall i: nat | i < n ensures i in done {
      var t := SomeBlock(lo, hi, 0, n, i);
      assert lo[t] <= i < pos[t];
    }
    forall i | i in done ensures i in Below(n) {
      var t :| 0 <= t < |pos| && lo[t] <= i < pos[t];
      BlockWithin(lo, hi, 0, n, t);
    }
  }
}
