module Provenance {
  // m_get_depth: how deep the recorded computation of a temporary is.  Temporaries are reused, so the recorded
  // operands can form any graph, even a cyclic one; the walk goes on only to operands with a smaller timestamp.

  import opened Basics
  import opened ShadowRuntime

  /** Recorded operands exist. */
  ghost predicate Closed(nodes: map<Ptr, Temp>) {
    forall p :: p in nodes ==>
      && (nodes[p].trace.lhs.Some? ==> nodes[p].trace.lhs.value in nodes)
      && (nodes[p].trace.rhs.Some? ==> nodes[p].trace.rhs.value in nodes)
  }

  function Stamp(nodes: map<Ptr, Temp>, p: Ptr): nat { if p in nodes then nodes[p].trace.timestamp else 0 }

  /** An operand the walk goes on to. */
  function Older(nodes: map<Ptr, Temp>, p: Ptr, q: Option<Ptr>): (r: seq<Ptr>)
    ensures |r| <= 1
  {
    if q.Some? && q.value in nodes && Stamp(nodes, q.value) < Stamp(nodes, p) then [q.value] else []
  }

  function Kids(nodes: map<Ptr, Temp>, p: Ptr): (r: seq<Ptr>)
    ensures |r| <= 2 && forall i :: 0 <= i < |r| ==> Stamp(nodes, r[i]) < Stamp(nodes, p)
  {
    if p in nodes then Older(nodes, p, nodes[p].trace.lhs) + Older(nodes, p, nodes[p].trace.rhs) else []
  }

  // ------------------------------------------------------------------ heights and paths

  function Max(a: nat, b: nat): nat { if a < b then b else a }

  /** The height of p above the temporaries without older operands, counting nodes. */
  function Height(nodes: map<Ptr, Temp>, p: Ptr): nat
    decreases Stamp(nodes, p), 1, 0
  {
    1 + Highest(nodes, Kids(nodes, p), Stamp(nodes, p))
  }

  /** The greatest height in a list of temporaries older than `bound`. */
  function Highest(nodes: map<Ptr, Temp>, ps: seq<Ptr>, bound: nat): nat
    requires forall i :: 0 <= i < |ps| ==> Stamp(nodes, ps[i]) < bound
    decreases bound, 0, |ps|
  {
    if ps == [] then 0
    else Max(Highest(nodes, ps[..|ps| - 1], bound), Height(nodes, ps[|ps| - 1]))
  }

  /** The walk's result on a list: the greatest height in it. */
  function Deepest(nodes: map<Ptr, Temp>, ps: seq<Ptr>): nat {
    if ps == [] then 0 else Max(Deepest(nodes, ps[..|ps| - 1]), Height(nodes, ps[|ps| - 1]))
  }

  lemma {:induction false} HighestIs(nodes: map<Ptr, Temp>, ps: seq<Ptr>, bound: nat)
    requires forall i :: 0 <= i < |ps| ==> Stamp(nodes, ps[i]) < bound
    ensures Highest(nodes, ps, bound) == Deepest(nodes, ps)
  {
    if ps != [] { HighestIs(nodes, ps[..|ps| - 1], bound); }
  }

  /** The record of p names q as an operand, and q is older. */
  ghost predicate NamesOlder(nodes: map<Ptr, Temp>, p: Ptr, q: Ptr) {
    && p in nodes && q in nodes
    && (nodes[p].trace.lhs == Some(q) || nodes[p].trace.rhs == Some(q))
    && nodes[q].trace.timestamp < nodes[p].trace.timestamp
  }

  /** A path of recorded operands with strictly decreasing timestamps. */
  ghost predicate Path(nodes: map<Ptr, Temp>, ps: seq<Ptr>) {
    |ps| > 0 && (|ps| > 1 ==> NamesOlder(nodes, ps[0], ps[1]) && Path(nodes, ps[1..]))
  }

  /** Those are the operands the walk goes on to. */
  lemma KidsAre(nodes: map<Ptr, Temp>, p: Ptr, q: Ptr)
    ensures q in Kids(nodes, p) <==> NamesOlder(nodes, p, q)
  {
    if p in nodes {
      var l, r := Older(nodes, p, nodes[p].trace.lhs), Older(nodes, p, nodes[p].trace.rhs);
      assert q in l + r <==> q in l || q in r;
    }
  }

  lemma {:induction false} DeepestHas(nodes: map<Ptr, Temp>, ps: seq<Ptr>, p: Ptr)
    requires p in ps
    ensures Height(nodes, p) <= Deepest(nodes, ps)
  {
    if p != ps[|ps| - 1] {
      assert p in ps[..|ps| - 1];
      DeepestHas(nodes, ps[..|ps| - 1], p);
    }
  }

  lemma {:induction false} DeepestIsOne(nodes: map<Ptr, Temp>, ps: seq<Ptr>) returns (p: Ptr)
    requires ps != []
    ensures p in ps && Height(nodes, p) == Deepest(nodes, ps)
  {
    p := ps[|ps| - 1];
    if |ps| > 1 && Deepest(nodes, ps[..|ps| - 1]) > Height(nodes, p) {
      p := DeepestIsOne(nodes, ps[..|ps| - 1]);
    }
  }

  /** No such path from p is longer than its height ... */
  lemma {:induction false} PathsAreShort(nodes: map<Ptr, Temp>, ps: seq<Ptr>)
    requires Path(nodes, ps)
    ensures |ps| <= Height(nodes, ps[0])
    decreases |ps|
  {
    if |ps| > 1 {
      KidsAre(nodes, ps[0], ps[1]);
      PathsAreShort(nodes, ps[1..]);
      DeepestHas(nodes, Kids(nodes, ps[0]), ps[1]);
      HighestIs(nodes, Kids(nodes, ps[0]), Stamp(nodes, ps[0]));
    }
  }

  /** ... and one has that length. */
  lemma {:induction false} LongestPath(nodes: map<Ptr, Temp>, p: Ptr) returns (ps: seq<Ptr>)
    ensures Path(nodes, ps) && ps[0] == p && |ps| == Height(nodes, p)
    decreases Stamp(nodes, p)
  {
    var kids := Kids(nodes, p);
    HighestIs(nodes, kids, Stamp(nodes, p));
    if kids == [] {
      ps := [p];
    } else {
      var q := DeepestIsOne(nodes, kids);
      var i :| 0 <= i < |kids| && kids[i] == q;
      KidsAre(nodes, p, q);
      var rest := LongestPath(nodes, q);
      ps := [p] + rest;
      assert ps[1..] == rest && ps[1] == q;
    }
  }

  /** The depth is at most the timestamp plus one. */
  lemma {:induction false} HeightBound(nodes: map<Ptr, Temp>, p: Ptr)
    ensures Height(nodes, p) <= Stamp(nodes, p) + 1
    decreases Stamp(nodes, p)
  {
    var kids := Kids(nodes, p);
    HighestIs(nodes, kids, Stamp(nodes, p));
    if kids != [] {
      var q := DeepestIsOne(nodes, kids);
      var i :| 0 <= i < |kids| && kids[i] == q;
      HeightBound(nodes, q);
    }
  }

  // ------------------------------------------------------------------ the walk

  /** The greatest height among the first n entries of the work list; entries may be null. */
  function Deep(nodes: map<Ptr, Temp>, work: seq<Option<Ptr>>, n: nat): nat
    requires n <= |work|
  {
    if n == 0 then 0 else Max(Deep(nodes, work, n - 1), HeightOf(nodes, work[n - 1]))
  }

  function HeightOf(nodes: map<Ptr, Temp>, o: Option<Ptr>): nat { if o.Some? then Height(nodes, o.value) else 0 }

  /** What processing the first n entries appends to the work list. */
  function Appended(nodes: map<Ptr, Temp>, work: seq<Option<Ptr>>, n: nat): seq<Option<Ptr>>
    requires n <= |work|
  {
    if n == 0 then [] else Appended(nodes, work, n - 1) + KidsOf(nodes, work[n - 1])
  }

  function KidsOf(nodes: map<Ptr, Temp>, o: Option<Ptr>): seq<Option<Ptr>> {
    if o.Some? then Somes(Kids(nodes, o.value)) else []
  }

  function Somes(ps: seq<Ptr>): (r: seq<Option<Ptr>>)
    ensures |r| == |ps| && forall i :: 0 <= i < |ps| ==> r[i] == Some(ps[i])
  {
    seq(|ps|, i requires 0 <= i < |ps| => Some(ps[i]))
  }

  lemma {:induction false} DeepSame(nodes: map<Ptr, Temp>, a: seq<Option<Ptr>>, b: seq<Option<Ptr>>, n: nat)
    requires n <= |a| && n <= |b| && forall k :: 0 <= k < n ==> a[k] == b[k]
    ensures Deep(nodes, a, n) == Deep(nodes, b, n)
  {
    if n > 0 { DeepSame(nodes, a, b, n - 1); }
  }

  lemma {:induction false} DeepConcat(nodes: map<Ptr, Temp>, a: seq<Option<Ptr>>, b: seq<Option<Ptr>>,
                                      ab: seq<Option<Ptr>>, n: nat)
    requires n <= |b| && ab == a + b
    ensures Deep(nodes, ab, |a| + n) == Max(Deep(nodes, a, |a|), Deep(nodes, b, n))
  {
    if n == 0 {
      DeepSame(nodes, ab, a, |a|);
    } else {
      DeepConcat(nodes, a, b, ab, n - 1);
      DeepNext(nodes, ab, |a| + n);
      DeepNext(nodes, b, n);
      assert ab[|a| + n - 1] == b[n - 1];
    }
  }

  lemma DeepNext(nodes: map<Ptr, Temp>, work: seq<Option<Ptr>>, n: nat)
    requires 0 < n <= |work|
    ensures Deep(nodes, work, n) == Max(Deep(nodes, work, n - 1), HeightOf(nodes, work[n - 1]))
  {}

  lemma {:induction false} DeepSomes(nodes: map<Ptr, Temp>, ps: seq<Ptr>)
    ensures Deep(nodes, Somes(ps), |ps|) == Deepest(nodes, ps)
  {
    if ps != [] {
      var n := |ps| - 1;
      DeepSomes(nodes, ps[..n]);
      DeepSame(nodes, Somes(ps), Somes(ps[..n]), n);
    }
  }

  lemma HeightIs(nodes: map<Ptr, Temp>, p: Ptr, kids: seq<Option<Ptr>>)
    requires kids == Somes(Kids(nodes, p))
    ensures Height(nodes, p) == 1 + Deep(nodes, kids, |kids|)
  {
    HighestIs(nodes, Kids(nodes, p), Stamp(nodes, p));
    DeepSomes(nodes, Kids(nodes, p));
  }

  /** The heights of a level are one more than those of what it appends. */
  lemma {:induction false} LevelDown(nodes: map<Ptr, Temp>, work: seq<Option<Ptr>>, n: nat, next: seq<Option<Ptr>>)
    requires n <= |work| && (forall k :: 0 <= k < n ==> work[k].Some?) && next == Appended(nodes, work, n)
    ensures Deep(nodes, work, n) == if n == 0 then 0 else 1 + Deep(nodes, next, |next|)
    decreases n
  {
    if n > 0 {
      var before := Appended(nodes, work, n - 1);
      LevelDown(nodes, work, n - 1, before);
      LevelStep(nodes, work, n, before, KidsOf(nodes, work[n - 1]), next);
    }
  }

  lemma DeepNone(nodes: map<Ptr, Temp>, work: seq<Option<Ptr>>)
    ensures Deep(nodes, work, 0) == 0
  {}

  lemma LevelStep(nodes: map<Ptr, Temp>, work: seq<Option<Ptr>>, n: nat, before: seq<Option<Ptr>>,
                  kids: seq<Option<Ptr>>, next: seq<Option<Ptr>>)
    requires 0 < n <= |work| && work[n - 1].Some?
    requires kids == Somes(Kids(nodes, work[n - 1].value)) && next == before + kids
    requires n == 1 ==> before == []
    requires Deep(nodes, work, n - 1) == if n - 1 == 0 then 0 else 1 + Deep(nodes, before, |before|)
    ensures Deep(nodes, work, n) == 1 + Deep(nodes, next, |next|)
  {
    hide Deep, Height, Somes, Kids;
    assert n == 1 ==> Deep(nodes, before, |before|) == 0 by { DeepNone(nodes, before); }
    HeightIs(nodes, work[n - 1].value, kids);
    DeepConcat(nodes, before, kids, next, |kids|);
    DeepNext(nodes, work, n);
  }

  /** The size of the tree of all strictly decreasing paths from p: how many entries p causes in the list. */
  function Weight(nodes: map<Ptr, Temp>, p: Ptr): nat
    decreases Stamp(nodes, p)
  {
    var kids := Kids(nodes, p);
    1 + (if |kids| > 0 then Weight(nodes, kids[0]) else 0) + (if |kids| > 1 then Weight(nodes, kids[1]) else 0)
  }

  function WeightOf(nodes: map<Ptr, Temp>, o: Option<Ptr>): nat { if o.Some? then Weight(nodes, o.value) else 1 }

  function Load(nodes: map<Ptr, Temp>, work: seq<Option<Ptr>>, n: nat): nat
    requires n <= |work|
  {
    if n == 0 then 0 else Load(nodes, work, n - 1) + WeightOf(nodes, work[n - 1])
  }

  lemma {:induction false} LoadSame(nodes: map<Ptr, Temp>, a: seq<Option<Ptr>>, b: seq<Option<Ptr>>, n: nat)
    requires n <= |a| && n <= |b| && forall k :: 0 <= k < n ==> a[k] == b[k]
    ensures Load(nodes, a, n) == Load(nodes, b, n)
  {
    if n > 0 { LoadSame(nodes, a, b, n - 1); }
  }

  lemma {:induction false} LoadConcat(nodes: map<Ptr, Temp>, a: seq<Option<Ptr>>, b: seq<Option<Ptr>>,
                                      ab: seq<Option<Ptr>>, n: nat)
    requires n <= |b| && ab == a + b
    ensures Load(nodes, ab, |a| + n) == Load(nodes, a, |a|) + Load(nodes, b, n)
  {
    if n == 0 { LoadSame(nodes, ab, a, |a|); } else { LoadConcat(nodes, a, b, ab, n - 1); }
  }

  /** Processing a level takes one off the weight for every entry. */
  lemma {:induction false} LevelLighter(nodes: map<Ptr, Temp>, work: seq<Option<Ptr>>, n: nat, next: seq<Option<Ptr>>)
    requires n <= |work| && (forall k :: 0 <= k < n ==> work[k].Some?) && next == Appended(nodes, work, n)
    ensures Load(nodes, next, |next|) + n == Load(nodes, work, n)
    decreases n
  {
    if n > 0 {
      var before := Appended(nodes, work, n - 1);
      LevelLighter(nodes, work, n - 1, before);
      LighterStep(nodes, work, n, before, KidsOf(nodes, work[n - 1]), next);
    }
  }

  lemma LoadNext(nodes: map<Ptr, Temp>, work: seq<Option<Ptr>>, n: nat)
    requires 0 < n <= |work|
    ensures Load(nodes, work, n) == Load(nodes, work, n - 1) + WeightOf(nodes, work[n - 1])
  {}

  lemma LighterStep(nodes: map<Ptr, Temp>, work: seq<Option<Ptr>>, n: nat, before: seq<Option<Ptr>>,
                    kids: seq<Option<Ptr>>, next: seq<Option<Ptr>>)
    requires 0 < n <= |work| && work[n - 1].Some?
    requires kids == Somes(Kids(nodes, work[n - 1].value)) && next == before + kids
    requires Load(nodes, before, |before|) + (n - 1) == Load(nodes, work, n - 1)
    ensures Load(nodes, next, |next|) + n == Load(nodes, work, n)
  {
    hide Load, Weight, Kids, Somes;
    LoadNext(nodes, work, n);
    LoadConcat(nodes, before, kids, next, |kids|);
    LoadKids(nodes, work[n - 1].value, kids);
  }

  lemma LoadKids(nodes: map<Ptr, Temp>, p: Ptr, kids: seq<Option<Ptr>>)
    requires kids == Somes(Kids(nodes, p))
    ensures Load(nodes, kids, |kids|) + 1 == Weight(nodes, p)
  {
    if |kids| > 0 { assert Load(nodes, kids, 1) == Load(nodes, kids, 0) + WeightOf(nodes, kids[0]); }
    if |kids| > 1 { assert Load(nodes, kids, 2) == Load(nodes, kids, 1) + WeightOf(nodes, kids[1]); }
  }

  /** All recorded operand keys match the lock-key map. */
  ghost predicate KeysMatch(nodes: map<Ptr, Temp>, lock_key_map: seq<int>) {
    forall p :: p in nodes ==> OperandsAlive(nodes[p].trace, lock_key_map)
  }

  ghost predicate OperandsAlive(t: Trace, lock_key_map: seq<int>) {
    t.op1_lock < |lock_key_map| && t.op2_lock < |lock_key_map|
    && lock_key_map[t.op1_lock] == t.op1_key && lock_key_map[t.op2_lock] == t.op2_key
  }

  /** An entry the walk can go on from. */
  ghost predicate Good(nodes: map<Ptr, Temp>, lock_key_map: seq<int>, o: Option<Ptr>) {
    o.Some? && o.value in nodes && OperandsAlive(nodes[o.value].trace, lock_key_map)
  }

  ghost predicate GoodLevel(nodes: map<Ptr, Temp>, lock_key_map: seq<int>, work: seq<Option<Ptr>>) {
    forall k :: 0 <= k < |work| ==> Good(nodes, lock_key_map, work[k])
  }

  /** The list after d levels. */
  ghost function LevelAt(nodes: map<Ptr, Temp>, work: seq<Option<Ptr>>, d: nat): seq<Option<Ptr>> {
    if d == 0 then work else var w := LevelAt(nodes, work, d - 1); Appended(nodes, w, |w|)
  }

  /** The walk from `work` counts d levels: all before are complete, and this one is empty or has an entry that is
      null or whose operands' activations are gone. */
  ghost predicate Counts(nodes: map<Ptr, Temp>, lock_key_map: seq<int>, work: seq<Option<Ptr>>, d: nat) {
    && (forall e :: 0 <= e < d ==>
      |LevelAt(nodes, work, e)| > 0 && GoodLevel(nodes, lock_key_map, LevelAt(nodes, work, e)))
    && (|LevelAt(nodes, work, d)| == 0 || !GoodLevel(nodes, lock_key_map, LevelAt(nodes, work, d)))
  }

  /** The longest path from p has `depth` nodes. */
  ghost predicate IsLongest(nodes: map<Ptr, Temp>, p: Ptr, depth: nat) {
    && (exists ps :: Path(nodes, ps) && ps[0] == p && |ps| == depth)
    && (forall ps :: Path(nodes, ps) && ps[0] == p ==> |ps| <= depth)
  }

  class DepthWalk {
    var m_expr: seq<Option<Ptr>>

    /** An operand goes to the back of the list if it is older. */
    method PushOlder(nodes: map<Ptr, Temp>, p: Ptr, q: Option<Ptr>)
      requires p in nodes && (q.Some? ==> q.value in nodes)
      modifies this
      ensures m_expr == old(m_expr) + Somes(Older(nodes, p, q))
    {
      assert q.Some? ==> Somes([q.value]) == [q];
      if q != None {
        if nodes[q.value].trace.timestamp < nodes[p].trace.timestamp { m_expr := m_expr + [q]; }
      }
    }

    /** The entry at the front is replaced by its older operands at the back. */
    method Expand(nodes: map<Ptr, Temp>)
      requires Closed(nodes) && m_expr != [] && m_expr[0].Some? && m_expr[0].value in nodes
      modifies this
      ensures m_expr == old(m_expr)[1..] + KidsOf(nodes, old(m_expr)[0])
    {
      var p := m_expr[0].value;
      ghost var rest := m_expr[1..];
      PushOlder(nodes, p, nodes[p].trace.lhs);
      PushOlder(nodes, p, nodes[p].trace.rhs);
      SomesOfKids(nodes, p);
      m_expr := m_expr[1..];
    }

    /** One level: the entries in the list are replaced by all their older operands, unless one is null or has
        an operand whose activation is gone, which ends the walk with the rest of the list left behind. */
    method Level(nodes: map<Ptr, Temp>, lock_key_map: seq<int>) returns (done: bool)
      requires Closed(nodes) && Known(nodes, m_expr)
      modifies this
      ensures done ==> forall k :: 0 <= k < |old(m_expr)| ==> old(m_expr)[k].Some?
      ensures done ==> m_expr == Appended(nodes, old(m_expr), |old(m_expr)|) && Known(nodes, m_expr)
      ensures done ==> None !in m_expr
      ensures !done ==> m_expr != [] && (None in old(m_expr) || !KeysMatch(nodes, lock_key_map))
      ensures done <==> GoodLevel(nodes, lock_key_map, old(m_expr))
    {
      hide Appended, Kids, Older;
      ghost var work := m_expr;
      NothingAppended(nodes, work);
      var level, i := |m_expr|, 0;
      while level > 0
        invariant 0 <= i <= |work| && level == |work| - i && forall k :: 0 <= k < i ==> work[k].Some?
        invariant m_expr == work[i..] + Appended(nodes, work, i) && Known(nodes, m_expr)
        invariant forall k :: 0 <= k < i ==> Good(nodes, lock_key_map, work[k])
      {
        var cur := m_expr[0];
        assert cur == work[i];
        if cur == None { return false; }
        var t := nodes[cur.value].trace;
        if t.op1_lock >= |lock_key_map| || lock_key_map[t.op1_lock] != t.op1_key { return false; }
        if t.op2_lock >= |lock_key_map| || lock_key_map[t.op2_lock] != t.op2_key { return false; }
        Expand(nodes);
        ExpandKnown(nodes, work, i);
        level, i := level - 1, i + 1;
      }
      done := true;
      AppendedSome(nodes, work, |work|);
    }

    /** m_get_depth.  The walk always ends: every level takes weight off the list.  If it runs to the end, the
        depth is the greatest height of what was in the list, counted in nodes, and the list is empty again.
        It runs to the end if there was no null entry and all recorded keys match. */
    method GetDepth(nodes: map<Ptr, Temp>, lock_key_map: seq<int>, current: Option<Ptr>) returns (depth: nat)
      requires Closed(nodes) && Known(nodes, m_expr) && (current.Some? ==> current.value in nodes)
      modifies this
      ensures depth <= Deep(nodes, old(m_expr) + [current], |old(m_expr)| + 1)
      ensures m_expr == [] ==> depth == Deep(nodes, old(m_expr) + [current], |old(m_expr)| + 1)
      ensures None !in old(m_expr) && current.Some? && KeysMatch(nodes, lock_key_map) ==> m_expr == []
      ensures Counts(nodes, lock_key_map, old(m_expr) + [current], depth)
      ensures old(m_expr) == [] && current.Some? && KeysMatch(nodes, lock_key_map) ==>
        IsLongest(nodes, current.value, depth) && depth <= nodes[current.value].trace.timestamp + 1
    {
      hide Load, Appended, GoodLevel, IsLongest, KeysMatch, Deep, Known, Closed, Height;
      depth := 0;
      assert Known(nodes, m_expr + [current]) by { KnownMore(nodes, m_expr, current); }
      m_expr := m_expr + [current];
      ghost var start, total, whole := m_expr, Deep(nodes, m_expr, |m_expr|), None !in m_expr;
      while |m_expr| > 0
        invariant Known(nodes, m_expr) && depth + Deep(nodes, m_expr, |m_expr|) == total
        invariant whole ==> None !in m_expr
        invariant m_expr == LevelAt(nodes, start, depth)
        invariant forall e :: 0 <= e < depth ==>
          |LevelAt(nodes, start, e)| > 0 && GoodLevel(nodes, lock_key_map, LevelAt(nodes, start, e))
        decreases Load(nodes, m_expr, |m_expr|)
      {
        ghost var work := m_expr;
        var done := Level(nodes, lock_key_map);
        if !done { return; }
        assert LevelAt(nodes, start, depth + 1) == m_expr;
        LevelDone(nodes, work, m_expr);
        depth := depth + 1;
      }
      DeepNone(nodes, m_expr);
      if |start| == 1 && current.Some? { DepthIsLongestPath(nodes, current.value, depth); }
    }
  }

  lemma NothingAppended(nodes: map<Ptr, Temp>, work: seq<Option<Ptr>>)
    ensures Appended(nodes, work, 0) == [] && work[0..] + [] == work
  {}

  lemma KnownMore(nodes: map<Ptr, Temp>, work: seq<Option<Ptr>>, o: Option<Ptr>)
    requires Known(nodes, work) && (o.Some? ==> o.value in nodes)
    ensures Known(nodes, work + [o])
  {}

  lemma {:induction false} AppendedSome(nodes: map<Ptr, Temp>, work: seq<Option<Ptr>>, n: nat)
    requires n <= |work|
    ensures None !in Appended(nodes, work, n)
  {
    if n > 0 { AppendedSome(nodes, work, n - 1); }
  }

  lemma LevelDone(nodes: map<Ptr, Temp>, work: seq<Option<Ptr>>, next: seq<Option<Ptr>>)
    requires work != [] && (forall k :: 0 <= k < |work| ==> work[k].Some?) && next == Appended(nodes, work, |work|)
    ensures Deep(nodes, work, |work|) == 1 + Deep(nodes, next, |next|)
    ensures Load(nodes, next, |next|) < Load(nodes, work, |work|)
  {
    LevelDown(nodes, work, |work|, next);
    LevelLighter(nodes, work, |work|, next);
  }

  lemma SomesOfKids(nodes: map<Ptr, Temp>, p: Ptr)
    requires p in nodes
    ensures Somes(Older(nodes, p, nodes[p].trace.lhs)) + Somes(Older(nodes, p, nodes[p].trace.rhs))
      == Somes(Kids(nodes, p))
  {}

  /** Entries of the work list are recorded temporaries or null. */
  ghost predicate Known(nodes: map<Ptr, Temp>, work: seq<Option<Ptr>>) {
    forall k :: 0 <= k < |work| && work[k].Some? ==> work[k].value in nodes
  }

  lemma ExpandKnown(nodes: map<Ptr, Temp>, work: seq<Option<Ptr>>, i: nat)
    requires Closed(nodes) && i < |work| && Known(nodes, work[i..] + Appended(nodes, work, i)) && work[i].Some?
    ensures (work[i..] + Appended(nodes, work, i))[1..] + KidsOf(nodes, work[i])
      == work[i + 1..] + Appended(nodes, work, i + 1)
    ensures Known(nodes, work[i + 1..] + Appended(nodes, work, i + 1))
  {
    MoveOn(work, i, Appended(nodes, work, i), KidsOf(nodes, work[i]));
    assert (work[i..] + Appended(nodes, work, i))[0] == work[i];
    KnownNext(nodes, work[i..] + Appended(nodes, work, i), work[i].value,
              (work[i..] + Appended(nodes, work, i))[1..] + KidsOf(nodes, work[i]));
  }

  lemma MoveOn<T>(work: seq<T>, i: nat, a: seq<T>, b: seq<T>)
    requires i < |work|
    ensures (work[i..] + a)[1..] + b == work[i + 1..] + (a + b)
  {}

  lemma KnownNext(nodes: map<Ptr, Temp>, before: seq<Option<Ptr>>, p: Ptr, after: seq<Option<Ptr>>)
    requires Closed(nodes) && before != [] && before[0] == Some(p) && Known(nodes, before)
    requires after == before[1..] + KidsOf(nodes, Some(p))
    ensures Known(nodes, after)
  {
    forall k | 0 <= k < |after| && after[k].Some? ensures after[k].value in nodes {
      if k < |before| - 1 { assert after[k] == before[k + 1]; } else { KidKnown(nodes, p, k - (|before| - 1)); }
    }
  }

  lemma KidKnown(nodes: map<Ptr, Temp>, p: Ptr, k: nat)
    requires Closed(nodes) && k < |Kids(nodes, p)|
    ensures Kids(nodes, p)[k] in nodes
  {}

  /** What the depth means: starting with an empty list and matching keys, it is the number of nodes on the
      longest path of recorded operands with strictly decreasing timestamps, and at most the timestamp plus one. */
  lemma DepthIsLongestPath(nodes: map<Ptr, Temp>, p: Ptr, depth: nat)
    requires depth == Deep(nodes, [] + [Some(p)], 1)
    ensures IsLongest(nodes, p, depth) && (p in nodes ==> depth <= nodes[p].trace.timestamp + 1)
  {
    assert depth == Max(Deep(nodes, [] + [Some(p)], 0), HeightOf(nodes, Some(p)));
    HeightBound(nodes, p);
    var ps := LongestPath(nodes, p);
    forall qs | Path(nodes, qs) && qs[0] == p ensures |qs| <= depth { PathsAreShort(nodes, qs); }
  }
}
