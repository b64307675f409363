module VectorConservation {
  // Calls that only add: conservation, and the values that get lost.

  import opened Partitions
  import opened VectorParts
  import opened VectorHistory

  ghost predicate OnlyAdd(calls: seq<seq<VectorCall>>) {
    forall s, k :: 0 <= s < |calls| && 0 <= k < |calls[s]| ==> calls[s][k].add
  }

  /** What the first n calls give for component g. */
  ghost function Given(calls: seq<VectorCall>, part: seq<int>, n: nat, g: int): real
    requires ValidCalls(calls, part) && n <= |calls|
  {
    if n == 0 then 0.0 else Given(calls, part, n - 1, g) + SumAt(calls[n - 1].Contents(), g)
  }

  /** What the calls of the first n ranks give for component g, with or without those on ranks that own nothing. */
  ghost function GivenBy(rs: seq<RankState>, calls: seq<seq<VectorCall>>, part: seq<int>, n: nat, g: int,
                         all: bool): real
    requires n <= |rs| == |calls| && AllCalls(calls, part)
  {
    if n == 0 then 0.0
    else GivenBy(rs, calls, part, n - 1, g, all)
         + (if |rs[n - 1].data| == 0 && !all then 0.0 else Given(calls[n - 1], part, |calls[n - 1]|, g))
  }

  lemma {:induction false} ShareAdds(x: real, owned: bool, calls: seq<VectorCall>, part: seq<int>, n: nat, g: int)
    requires ValidCalls(calls, part) && n <= |calls| && forall k :: 0 <= k < n ==> calls[k].add
    ensures Share(x, owned, calls, part, n, g) == x + Given(calls, part, n, g)
  {
    if n > 0 { ShareAdds(x, owned, calls, part, n - 1, g); }
  }

  /** If all calls add, a component is its old value plus all that was given for it on ranks that own something. */
  lemma {:induction false} AddOnlyIsSum(rs: seq<RankState>, calls: seq<seq<VectorCall>>, part: seq<int>, owner: nat,
                                        n: nat, g: int)
    requires IsPartition(part) && Matches(rs, part) && n <= |rs| == |calls| && AllCalls(calls, part) && OnlyAdd(calls)
    requires owner < |rs| && part[owner] <= g < part[owner + 1]
    ensures SumOfShares(rs, calls, part, n, g)
      == (if owner < n then rs[owner].data[g - part[owner]] else 0.0) + GivenBy(rs, calls, part, n, g, false)
  {
    if n > 0 {
      AddOnlyIsSum(rs, calls, part, owner, n - 1, g);
      var p := n - 1;
      MatchesAt(rs, part, p);
      assert p < owner ==> part[p + 1] <= part[owner];
      assert owner < p ==> part[owner + 1] <= part[p];
      var r := rs[p];
      ShareAdds(if OwnsIndex(r, g) then r.data[g - r.start] else 0.0, OwnsIndex(r, g), calls[p], part, |calls[p]|, g);
    }
  }

  ghost predicate CallNames(calls: seq<VectorCall>, part: seq<int>, n: nat, g: int)
    requires ValidCalls(calls, part) && n <= |calls|
  {
    n > 0 && (Names(calls[n - 1].Contents(), |calls[n - 1].indices|, g) || CallNames(calls, part, n - 1, g))
  }

  /** No rank that owns nothing gives anything for component g. */
  ghost predicate NoneAstray(rs: seq<RankState>, calls: seq<seq<VectorCall>>, part: seq<int>, n: nat, g: int)
    requires n <= |rs| == |calls| && AllCalls(calls, part)
  {
    n == 0 ||
    (&& NoneAstray(rs, calls, part, n - 1, g)
     && (|rs[n - 1].data| == 0 ==> !CallNames(calls[n - 1], part, |calls[n - 1]|, g)))
  }

  /** The same calls with other values. */
  ghost predicate SameIndices(calls: seq<seq<VectorCall>>, calls': seq<seq<VectorCall>>) {
    |calls| == |calls'| && forall s :: 0 <= s < |calls| ==> SameShape(calls[s], calls'[s])
  }

  ghost predicate SameShape(calls: seq<VectorCall>, calls': seq<VectorCall>) {
    |calls| == |calls'| && forall k :: 0 <= k < |calls| ==>
      calls[k].add == calls'[k].add && calls[k].indices == calls'[k].indices && |calls[k].values| == |calls'[k].values|
  }

  /** Plain conservation: nothing that is given gets lost, whatever the values. */
  ghost predicate Conserves(rs: seq<RankState>, calls: seq<seq<VectorCall>>, part: seq<int>, g: int)
    requires |rs| == |calls|
  {
    forall calls' :: SameIndices(calls, calls') && AllCalls(calls', part) ==>
      GivenBy(rs, calls', part, |rs|, g, false) == GivenBy(rs, calls', part, |rs|, g, true)
  }

  /** Values given on a rank that owns nothing are lost: it conserves exactly if there are none. */
  lemma LostExactly(rs: seq<RankState>, calls: seq<seq<VectorCall>>, part: seq<int>, g: int)
    requires |rs| == |calls| && AllCalls(calls, part)
    ensures Conserves(rs, calls, part, g) <==> NoneAstray(rs, calls, part, |rs|, g)
  {
    if NoneAstray(rs, calls, part, |rs|, g) {
      forall calls' | SameIndices(calls, calls') && AllCalls(calls', part)
        ensures GivenBy(rs, calls', part, |rs|, g, false) == GivenBy(rs, calls', part, |rs|, g, true)
      {
        NothingAstray(rs, calls, calls', part, |rs|, g);
      }
    } else {
      var calls' := AllOnes(calls);
      OnesValid(calls, part);
      SomethingAstray(rs, calls, calls', part, |rs|, g);
    }
  }

  lemma {:induction false} NotNamed(calls: seq<VectorCall>, calls': seq<VectorCall>, part: seq<int>, n: nat, g: int)
    requires ValidCalls(calls, part) && ValidCalls(calls', part) && SameShape(calls, calls') && n <= |calls|
    requires !CallNames(calls, part, n, g)
    ensures Given(calls', part, n, g) == 0.0
  {
    if n > 0 {
      NotNamed(calls, calls', part, n - 1, g);
      NamesSame(calls[n - 1].Contents(), calls'[n - 1].Contents(), |calls[n - 1].indices|, g);
      SumNotNamed(calls'[n - 1].Contents(), |calls[n - 1].indices|, g);
    }
  }

  lemma {:induction false} NamesSame(cs: seq<Contribution>, cs': seq<Contribution>, n: nat, g: int)
    requires n <= |cs| == |cs'| && forall k :: 0 <= k < |cs| ==> cs[k].index == cs'[k].index
    ensures Names(cs, n, g) == Names(cs', n, g)
  {
    if n > 0 { NamesSame(cs, cs', n - 1, g); }
  }

  lemma {:induction false} SumNotNamed(cs: seq<Contribution>, n: nat, g: int)
    requires n <= |cs| && !Names(cs, n, g)
    ensures SumTo(cs, n, g) == 0.0
  {
    if n > 0 { SumNotNamed(cs, n - 1, g); }
  }

  lemma {:induction false} NothingAstray(rs: seq<RankState>, calls: seq<seq<VectorCall>>, calls': seq<seq<VectorCall>>,
                                         part: seq<int>, n: nat, g: int)
    requires n <= |rs| == |calls| && AllCalls(calls, part) && AllCalls(calls', part) && SameIndices(calls, calls')
    requires NoneAstray(rs, calls, part, n, g)
    ensures GivenBy(rs, calls', part, n, g, false) == GivenBy(rs, calls', part, n, g, true)
  {
    if n > 0 {
      NothingAstray(rs, calls, calls', part, n - 1, g);
      if |rs[n - 1].data| == 0 { NotNamed(calls[n - 1], calls'[n - 1], part, |calls[n - 1]|, g); }
    }
  }

  // ---- and with a value of 1 everywhere what is astray is missed

  ghost function Ones(calls: seq<VectorCall>): (r: seq<VectorCall>)
    ensures |r| == |calls| && forall k :: 0 <= k < |calls| ==>
      r[k] == VectorCall(calls[k].add, calls[k].indices, seq(|calls[k].values|, _ => 1.0))
  {
    seq(|calls|, k requires 0 <= k < |calls| =>
      VectorCall(calls[k].add, calls[k].indices, seq(|calls[k].values|, _ => 1.0)))
  }

  ghost function AllOnes(calls: seq<seq<VectorCall>>): (r: seq<seq<VectorCall>>)
    ensures |r| == |calls| && forall s :: 0 <= s < |calls| ==> r[s] == Ones(calls[s])
  {
    seq(|calls|, s requires 0 <= s < |calls| => Ones(calls[s]))
  }

  lemma OnesValid(calls: seq<seq<VectorCall>>, part: seq<int>)
    requires AllCalls(calls, part)
    ensures AllCalls(AllOnes(calls), part) && SameIndices(calls, AllOnes(calls))
  {
    forall s | 0 <= s < |calls| ensures ValidCalls(Ones(calls[s]), part) && SameShape(calls[s], Ones(calls[s])) {
      forall k | 0 <= k < |calls[s]| ensures Ones(calls[s])[k].Valid(part) {
        assert calls[s][k].Valid(part);
        OneValid(calls[s][k], Ones(calls[s])[k], part);
      }
    }
  }

  lemma OneValid(c: VectorCall, c': VectorCall, part: seq<int>)
    requires c.Valid(part) && c'.add == c.add && c'.indices == c.indices && |c'.values| == |c.values|
    ensures c'.Valid(part)
  {
    if c.add {
      forall k | 0 <= k < |c.indices| ensures part[0] <= c'.Contents()[k].index < part[|part| - 1] {
        assert c'.Contents()[k].index == c.Contents()[k].index;
      }
    }
  }

  lemma {:induction false} SumOfOnes(cs: seq<Contribution>, n: nat, g: int)
    requires n <= |cs| && forall k :: 0 <= k < |cs| ==> cs[k].value == 1.0
    ensures SumTo(cs, n, g) >= if Names(cs, n, g) then 1.0 else 0.0
  {
    if n > 0 { SumOfOnes(cs, n - 1, g); }
  }

  lemma {:induction false} GivenOnes(calls: seq<VectorCall>, part: seq<int>, n: nat, g: int)
    requires ValidCalls(calls, part) && ValidCalls(Ones(calls), part) && n <= |calls|
    ensures Given(Ones(calls), part, n, g) >= if CallNames(calls, part, n, g) then 1.0 else 0.0
  {
    if n > 0 {
      GivenOnes(calls, part, n - 1, g);
      var cs, cs' := calls[n - 1].Contents(), Ones(calls)[n - 1].Contents();
      NamesSame(cs, cs', |cs|, g);
      SumOfOnes(cs', |cs|, g);
    }
  }

  lemma {:induction false} SomethingAstray(rs: seq<RankState>, calls: seq<seq<VectorCall>>,
                                           calls': seq<seq<VectorCall>>, part: seq<int>, n: nat, g: int)
    requires n <= |rs| == |calls| && AllCalls(calls, part) && AllCalls(calls', part) && calls' == AllOnes(calls)
    ensures GivenBy(rs, calls', part, n, g, true) - GivenBy(rs, calls', part, n, g, false)
      >= if NoneAstray(rs, calls, part, n, g) then 0.0 else 1.0
  {
    hide Given, CallNames, VectorCall.Valid;
    if n > 0 {
      SomethingAstray(rs, calls, calls', part, n - 1, g);
      GivenOnes(calls[n - 1], part, |calls[n - 1]|, g);
    }
  }
}
