/** Collecting what every rank has for one receiver: gathering the non-empty shares in the order of the
    senders' ranks is gathering all shares. */
module Ranks {
  ghost function Share<T>(shares: seq<seq<T>>, s: int): seq<T> { if 0 <= s < |shares| then shares[s] else [] }

  /** The shares of the first n ranks, rank after rank. */
  ghost function Gather<T>(shares: seq<seq<T>>, n: nat): seq<T>
    requires n <= |shares|
  {
    if n == 0 then [] else Gather(shares, n - 1) + shares[n - 1]
  }

  /** The shares of the first n of the listed ranks. */
  ghost function Listed<T>(ranks: seq<int>, shares: seq<seq<T>>, n: nat): seq<T>
    requires n <= |ranks|
  {
    if n == 0 then [] else Listed(ranks, shares, n - 1) + Share(shares, ranks[n - 1])
  }

  lemma ListedNone<T>(ranks: seq<int>, shares: seq<seq<T>>)
    ensures Listed(ranks, shares, 0) == []
  {}

  lemma ListedNext<T>(ranks: seq<int>, shares: seq<seq<T>>, n: nat)
    requires n < |ranks|
    ensures Listed(ranks, shares, n + 1) == Listed(ranks, shares, n) + Share(shares, ranks[n])
  {}

  /** The listed ranks increase, are in range, and include every rank that has something. */
  ghost predicate Lists<T>(ranks: seq<int>, shares: seq<seq<T>>) {
    && (forall j :: 0 <= j < |ranks| ==> 0 <= ranks[j] < |shares|)
    && (forall i, j :: 0 <= i < j < |ranks| ==> ranks[i] < ranks[j])
    && (forall s :: 0 <= s < |shares| && shares[s] != [] ==> s in ranks)
  }

  /** The first n listed ranks are those before upto. */
  ghost predicate Upto(ranks: seq<int>, n: nat, upto: nat)
    requires n <= |ranks|
  {
    (n > 0 ==> ranks[n - 1] < upto) && (n < |ranks| ==> upto <= ranks[n])
  }

  /** Rank s is the last of the first n listed, or has nothing. */
  lemma LastRank<T>(ranks: seq<int>, shares: seq<seq<T>>, n: nat, s: nat)
    requires Lists(ranks, shares) && n <= |ranks| && s < |shares|
    requires (n > 0 ==> ranks[n - 1] <= s) && (n < |ranks| ==> s < ranks[n])
    ensures (n > 0 && ranks[n - 1] == s) || (shares[s] == [] && (n > 0 ==> ranks[n - 1] < s))
  {}

  lemma UptoBack<T>(ranks: seq<int>, shares: seq<seq<T>>, n: nat, upto: nat)
    requires Lists(ranks, shares) && n <= |ranks| && 0 < upto <= |shares| && Upto(ranks, n, upto)
    ensures if n > 0 && ranks[n - 1] == upto - 1 then Upto(ranks, n - 1, upto - 1)
            else Upto(ranks, n, upto - 1) && shares[upto - 1] == []
  {
    LastRank(ranks, shares, n, upto - 1);
  }

  lemma GatherNothing<T>(shares: seq<seq<T>>, upto: nat)
    requires 0 < upto <= |shares| && shares[upto - 1] == []
    ensures Gather(shares, upto) == Gather(shares, upto - 1)
  {}

  lemma GatherListed<T>(ranks: seq<int>, shares: seq<seq<T>>, n: nat, upto: nat)
    requires 0 < n <= |ranks| && 0 < upto <= |shares| && ranks[n - 1] == upto - 1
    requires Listed(ranks, shares, n - 1) == Gather(shares, upto - 1)
    ensures Listed(ranks, shares, n) == Gather(shares, upto)
  {}

  lemma NoneBefore<T>(ranks: seq<int>, shares: seq<seq<T>>, n: nat)
    requires Lists(ranks, shares) && n <= |ranks| && Upto(ranks, n, 0)
    ensures Listed(ranks, shares, n) == Gather(shares, 0)
  {}

  lemma {:induction false} ListedUpto<T>(ranks: seq<int>, shares: seq<seq<T>>, n: nat, upto: nat)
    requires Lists(ranks, shares) && n <= |ranks| && upto <= |shares| && Upto(ranks, n, upto)
    ensures Listed(ranks, shares, n) == Gather(shares, upto)
    decreases upto
  {
    hide Lists, Upto, Listed, Gather;
    if upto == 0 {
      NoneBefore(ranks, shares, n);
    } else {
      UptoBack(ranks, shares, n, upto);
      if n > 0 && ranks[n - 1] == upto - 1 {
        ListedUpto(ranks, shares, n - 1, upto - 1);
        GatherListed(ranks, shares, n, upto);
      } else {
        ListedUpto(ranks, shares, n, upto - 1);
        GatherNothing(shares, upto);
      }
    }
  }

  /** Whoever is left out of such a list has nothing to give. */
  lemma ListedIsGather<T>(ranks: seq<int>, shares: seq<seq<T>>)
    requires Lists(ranks, shares)
    ensures Listed(ranks, shares, |ranks|) == Gather(shares, |shares|)
  {
    ListedUpto(ranks, shares, |ranks|, |shares|);
  }
}
