module MatrixExchange {
  // The whole system of processors: after their calls they send and receive stashed rows; then the matrix is
  // assembled and read.

  import opened SparseRows
  import opened AuxMatrix
  import opened Messages
  import opened Contacts
  import opened Packing
  import opened Ranks
  import opened Unpacking
  import opened Exchange
  import opened MatrixValues
  import opened Histories
  import opened MatrixHistory
  import opened MatrixRanks
  import opened MatrixSent
  import opened OffProcStashes

  // ------------------------------------------------------------------ the exchange

  ghost predicate ValidRanks(ranks: seq<Rank>) { forall s :: 0 <= s < |ranks| ==> ranks[s].Valid() }

  /** What each processor packs. */
  ghost function Stashes(ranks: seq<Rank>): (r: seq<seq<RowOp>>)
    requires ValidRanks(ranks)
    ensures |r| == |ranks| && forall s :: 0 <= s < |ranks| ==> r[s] == ranks[s].Packs()
  {
    seq(|ranks|, s requires 0 <= s < |ranks| && ValidRanks(ranks) => ranks[s].Packs())
  }

  /** The row updates that reach processor me: those of its own calls, then what all ranks have stashed for it. */
  ghost function Arrivals(ranks: seq<Rank>, owner: int -> int, me: nat): seq<RowOp>
    requires ValidRanks(ranks)
  {
    Gather(Shares(Stashes(ranks), owner, me), |ranks|)
  }

  ghost function Whole(ranks: seq<Rank>, owner: int -> int, me: nat): seq<Change>
    requires ValidRanks(ranks) && me < |ranks|
  {
    History(ranks[me].qs) + Changes(true, Arrivals(ranks, owner, me))
  }

  /** Processor me receives. */
  method ReceiveRows(mat: RowMatrix, ghost mails: seq<Mail>, ghost ranks: seq<Rank>, ghost owner: int -> int,
                     ghost me: nat, msgs: seq<Message>)
    requires ValidRanks(ranks) && me < |ranks| && mat.Valid() && mat.first == ranks[me].first
      && |mat.rows| == ranks[me].rows
    requires mat.Contents() == ApplyAll(Empty(ranks[me].rows), mat.first, History(ranks[me].qs))
    requires AllMailed(mails, Stashes(ranks), owner) && Transported(mails, me, msgs)
    modifies mat.Repr
    ensures mat.Valid() && fresh(mat.Repr - old(mat.Repr))
    ensures Replayed(mat.Contents(), mat.first, Whole(ranks, owner, me))
  {
    hide AllMailed, Transported, Replayed, ApplyAll, ApplyOps, RowMatrix.Valid;
    Receive(mails, Stashes(ranks), owner, me, msgs, mat);
    CallIsChanges(Empty(ranks[me].rows), mat.first, History(ranks[me].qs), true, Arrivals(ranks, owner, me));
    AfterEmpty(Empty(ranks[me].rows), mat.first, Whole(ranks, owner, me));
  }

  /** Assembly on any number of threads, and a query. */
  method AssembleGet(mat: RowMatrix, ghost h: seq<Change>, col_0: int, col_n: int, base: int, num_threads: nat,
                     ncols: seq<nat>, rows: seq<int>, cols: seq<int>, values: array<real>)
    requires mat.Valid() && num_threads >= 1 && Replayed(mat.Contents(), mat.first, h)
    requires |ncols| == |rows| && Prefix(ncols, |ncols|) <= |cols| == values.Length
    modifies values
    ensures AllReads(values[..], h, Query(mat.first, |mat.rows|, col_0, col_n, ncols, rows, cols))
  {
    hide AllReads, Replayed, Prefix, ParCsr.Holds;
    ghost var m := mat.Contents();
    var par := Assemble(mat, col_0, col_n, base, num_threads);
    GetValues(par, ncols, rows, cols, values, m);
    AllRead(m, h, QueryOf(par, m, ncols, rows, cols), values[..]);
  }

  /** The other half: processor me receives, the matrix is assembled on any number of threads, and read.  Every
      entry asked for is what the processor's own calls and then all row updates stashed for it leave there. */
  method ReceiveAssembleGet(mat: RowMatrix, ghost mails: seq<Mail>, ghost ranks: seq<Rank>, ghost owner: int -> int,
                            ghost me: nat, msgs: seq<Message>, col_0: int, col_n: int, base: int, num_threads: nat,
                            ncols: seq<nat>, rows: seq<int>, cols: seq<int>, values: array<real>)
    requires ValidRanks(ranks) && me < |ranks| && mat.Valid() && mat.first == ranks[me].first
      && |mat.rows| == ranks[me].rows
    requires mat.Contents() == ApplyAll(Empty(ranks[me].rows), mat.first, History(ranks[me].qs))
    requires AllMailed(mails, Stashes(ranks), owner) && Transported(mails, me, msgs)
    requires num_threads >= 1 && |ncols| == |rows| && Prefix(ncols, |ncols|) <= |cols| == values.Length
      && values !in mat.Repr
    modifies mat.Repr, values
    ensures AllReads(values[..], Whole(ranks, owner, me),
                     Query(ranks[me].first, ranks[me].rows, col_0, col_n, ncols, rows, cols))
  {
    hide *;
    ReceiveRows(mat, mails, ranks, owner, me, msgs);
    AssembleGet(mat, Whole(ranks, owner, me), col_0, col_n, base, num_threads, ncols, rows, cols, values);
  }

  // ------------------------------------------------------------------ what arrives

  /** Leaving out rows of other owners does not matter for an owner's entries. */
  lemma {:induction false} RowsForEffects(ops: seq<RowOp>, n: nat, owner: int -> int, row: int, col: int)
    requires n <= |ops| && row >= 0
    ensures EffectsOf(true, RowsFor(ops, n, owner, owner(row)), row, col) == EffectsOf(true, ops[..n], row, col)
  {
    if n > 0 {
      hide EffectsOf;
      RowsForEffects(ops, n - 1, owner, row, col);
      var before, op := RowsFor(ops, n - 1, owner, owner(row)), ops[n - 1];
      assert ops[..n] == ops[..n - 1] + [op];
      EffectsOfNext(true, ops[..n - 1], op, row, col);
      EffectsOfNext(true, before, op, row, col);
      assert before + [] == before;
      var es := EffectsOf(true, ops[..n - 1], row, col);
      assert es + [] == es;
    }
  }

  /** What the calls of the first n processors but me left to be sent for an entry, processor after processor. */
  ghost function SentByOthers(ranks: seq<Rank>, n: nat, me: nat, row: int, col: int): seq<Effect>
    requires ValidRanks(ranks) && n <= |ranks|
  {
    if n == 0 then []
    else SentByOthers(ranks, n - 1, me, row, col)
         + (if n - 1 == me then []
            else SentOf(ranks[n - 1].qs, |ranks[n - 1].qs|, ranks[n - 1].first, ranks[n - 1].rows, false, row, col))
  }

  /** All that is done to an entry of processor me: its own calls, then what is sent. */
  ghost function AllCalls(ranks: seq<Rank>, me: nat, row: int, col: int): seq<Effect>
    requires ValidRanks(ranks) && me < |ranks|
  {
    Effects(History(ranks[me].qs), row, col) + SentByOthers(ranks, |ranks|, me, row, col)
  }

  /** Only processor me owns the row, and the lookup finds it. */
  ghost predicate OwnedBy(ranks: seq<Rank>, owner: int -> int, me: nat, row: int) {
    me < |ranks| && row >= 0 && owner(row) == me && forall s :: 0 <= s < |ranks| ==> (ranks[s].Owns(row) <==> s == me)
  }

  lemma {:induction false} ArrivalEffects(ranks: seq<Rank>, owner: int -> int, me: nat, n: nat, row: int, col: int,
                                          shares: seq<seq<RowOp>>)
    requires ValidRanks(ranks) && OwnedBy(ranks, owner, me, row) && n <= |ranks| && col != -1
    requires shares == Shares(Stashes(ranks), owner, me)
    ensures EffectsOf(true, Gather(shares, n), row, col) == SentByOthers(ranks, n, me, row, col)
  {
    hide EffectsOf, OwnedBy, RowsFor, Gather, Stashes, SentOf, Fitting, SentByOthers, Shares, StashOf, Rank.Packs;
    if n == 0 {
      NothingGathered(ranks, me, shares, row, col);
      NoEffects(true, row, col);
    } else {
      NextSent(ranks, n - 1, me, row, col);
      ArrivalEffects(ranks, owner, me, n - 1, row, col, shares);
      GatherEffects(shares, n - 1, row, col);
      ShareEffects(ranks, owner, me, n - 1, row, col, shares[n - 1]);
    }
  }

  lemma NothingGathered(ranks: seq<Rank>, me: nat, shares: seq<seq<RowOp>>, row: int, col: int)
    requires ValidRanks(ranks)
    ensures Gather(shares, 0) == [] && SentByOthers(ranks, 0, me, row, col) == []
  {}

  lemma NextSent(ranks: seq<Rank>, n: nat, me: nat, row: int, col: int)
    requires ValidRanks(ranks) && n < |ranks|
    ensures SentByOthers(ranks, n + 1, me, row, col)
      == SentByOthers(ranks, n, me, row, col)
       + if n == me then [] else SentOf(ranks[n].qs, |ranks[n].qs|, ranks[n].first, ranks[n].rows, false, row, col)
  {}

  lemma GatherEffects(shares: seq<seq<RowOp>>, n: nat, row: int, col: int)
    requires n < |shares|
    ensures EffectsOf(true, Gather(shares, n + 1), row, col)
         == EffectsOf(true, Gather(shares, n), row, col) + EffectsOf(true, shares[n], row, col)
  {
    EffectsOfConcat(true, Gather(shares, n), shares[n], row, col);
  }

  /** What one processor sends to the row's owner. */
  lemma ShareEffects(ranks: seq<Rank>, owner: int -> int, me: nat, s: nat, row: int, col: int, share: seq<RowOp>)
    requires ValidRanks(ranks) && OwnedBy(ranks, owner, me, row) && s < |ranks| && col != -1
    requires share == Shares(Stashes(ranks), owner, me)[s]
    ensures var r := ranks[s];
      EffectsOf(true, share, row, col) == if s == me then [] else SentOf(r.qs, |r.qs|, r.first, r.rows, false, row, col)
  {
    hide EffectsOf, RowsFor, StashOf, SentOf, Fitting;
    var r := ranks[s];
    RowsForEffects(r.Packs(), |r.Packs()|, owner, row, col);
    assert r.Packs()[..|r.Packs()|] == r.Packs();
    PacksSent(r, row, col);
    if s == me { OwnNotSent(r, |r.qs|, row, col); }
  }

  /** What is done to an entry in the end: the calls of its owner, then what every other processor sends, in the order
      of their ranks; nothing is lost, doubled or misrouted on the way. */
  lemma WholeIsAllCalls(ranks: seq<Rank>, owner: int -> int, me: nat, row: int, col: int)
    requires ValidRanks(ranks) && OwnedBy(ranks, owner, me, row) && col != -1
    ensures Effects(Whole(ranks, owner, me), row, col) == AllCalls(ranks, me, row, col)
  {
    hide Effects, Fitting, History;
    var own, arrivals := History(ranks[me].qs), Arrivals(ranks, owner, me);
    EffectsConcat(own, Changes(true, arrivals), row, col);
    ArrivalEffects(ranks, owner, me, |ranks|, row, col, Shares(Stashes(ranks), owner, me));
  }

  // ------------------------------------------------------------------ all processors

  /** All processors make their calls and pack; mat is the matrix of processor me. */
  method RunRanks(ranks: seq<Rank>, spaces: seq<seq<nat>>, owner: int -> int, me: nat)
    returns (mat: RowMatrix, mails: seq<Mail>)
    requires ValidRanks(ranks) && me < |ranks| && Monotone(owner)
    requires |spaces| == |ranks| && forall s :: 0 <= s < |ranks| ==> |spaces[s]| == ranks[s].rows
    ensures mat.Valid() && fresh(mat.Repr) && mat.first == ranks[me].first && |mat.rows| == ranks[me].rows
    ensures mat.Contents() == ApplyAll(Empty(ranks[me].rows), ranks[me].first, History(ranks[me].qs))
    ensures AllMailed(mails, Stashes(ranks), owner)
  {
    hide RowMatrix.Valid, Mailed, Monotone, ApplyAll, History, Fitting;
    mails := [];
    var m, mail := RunAndPack(ranks[me], spaces[me], owner);
    mat := m;
    for s := 0 to |ranks|
      invariant |mails| == s && mat.Valid() && fresh(mat.Repr) && mat.first == ranks[me].first
        && |mat.rows| == ranks[me].rows
      invariant mat.Contents() == ApplyAll(Empty(ranks[me].rows), ranks[me].first, History(ranks[me].qs))
      invariant forall k ::
        0 <= k < s ==> Mailed(mails[k].buf, mails[k].starts, ranks[k].Packs(), owner, mails[k].procs)
    {
      m, mail := RunAndPack(ranks[s], spaces[s], owner);
      mails := mails + [mail];
      if s == me { mat := m; }
    }
  }

  /** Every entry asked for is what all calls leave there.  (No column has the number -1.) */
  ghost predicate ReadsAll(values: seq<real>, ranks: seq<Rank>, me: nat, q: Query)
    requires ValidRanks(ranks) && me < |ranks| && q.Valid()
  {
    forall jj: nat, k: nat :: jj < |q.rows| ==> ReadsOne(values, ranks, me, q, jj, k)
  }

  ghost predicate ReadsOne(values: seq<real>, ranks: seq<Rank>, me: nat, q: Query, jj: nat, k: nat)
    requires ValidRanks(ranks) && me < |ranks| && q.Valid() && jj < |q.rows|
  {
    var at := q.Start(jj) + k;
    q.OwnsRow(jj) && k < q.ncols[jj] ==>
      && at < |values| && at < |q.cols|
      && (q.cols[at] != -1 ==> Leaves(values[at], AllCalls(ranks, me, q.rows[jj], q.cols[at]),
                                      OnDiagonal(q.rows[jj] - q.first_row, q.col_0, q.col_n, q.cols[at])))
  }

  /** The rows of processor me are its own and no other's, and the lookup finds them. */
  ghost predicate Partitioned(ranks: seq<Rank>, owner: int -> int, me: nat) {
    me < |ranks| && forall row :: ranks[me].Owns(row) ==> OwnedBy(ranks, owner, me, row)
  }

  /** The whole system: every processor makes its calls, the stashes travel (`transport` delivers each message once,
      in any order), and processor me assembles on any number of threads and answers a query.  Every entry asked for
      is what the calls of processor me and then what those of the others left to be sent, taken one processor
      after the other, leave there. */
  method RunExchangeGet(ranks: seq<Rank>, spaces: seq<seq<nat>>, owner: int -> int, me: nat,
                        transport: seq<Mail> -> seq<Message>, col_0: int, col_n: int, base: int, num_threads: nat,
                        ncols: seq<nat>, rows: seq<int>, cols: seq<int>, values: array<real>)
    requires ValidRanks(ranks) && Monotone(owner) && Partitioned(ranks, owner, me)
    requires |spaces| == |ranks| && forall s :: 0 <= s < |ranks| ==> |spaces[s]| == ranks[s].rows
    requires forall mails :: AllMailed(mails, Stashes(ranks), owner) ==> Transported(mails, me, transport(mails))
    requires num_threads >= 1 && |ncols| == |rows| && Prefix(ncols, |ncols|) <= |cols| == values.Length
    modifies values
    ensures ReadsAll(values[..], ranks, me, Query(ranks[me].first, ranks[me].rows, col_0, col_n, ncols, rows, cols))
  {
    hide ValidRanks, Monotone, AllMailed, Transported, Prefix, AllReads, ReadsAll, RowMatrix.Valid, ApplyAll,
      Rank.Valid,
      History;
    var mat, mails := RunRanks(ranks, spaces, owner, me);
    var msgs := transport(mails);
    ReceiveAssembleGet(mat, mails, ranks, owner, me, msgs, col_0, col_n, base, num_threads, ncols, rows, cols, values);
    ReadsAllCalls(ranks, owner, me, values[..],
      Query(ranks[me].first, ranks[me].rows, col_0, col_n, ncols, rows, cols));
  }

  lemma ReadsAllCalls(ranks: seq<Rank>, owner: int -> int, me: nat, values: seq<real>, q: Query)
    requires ValidRanks(ranks) && Partitioned(ranks, owner, me) && q.Valid()
    requires q.first_row == ranks[me].first && q.rows_here == ranks[me].rows
    requires AllReads(values, Whole(ranks, owner, me), q)
    ensures ReadsAll(values, ranks, me, q)
  {
    hide ValidRanks, Whole, AllCalls, Effects, Stored, Meant, Leaves, OwnedBy;
    forall jj: nat, k: nat | jj < |q.rows| ensures ReadsOne(values, ranks, me, q, jj, k) {
      assert Reads(values, Whole(ranks, owner, me), q, jj, k);
      if q.OwnsRow(jj) && k < q.ncols[jj] {
        var row, col := q.rows[jj], q.cols[q.Start(jj) + k];
        assert OwnedBy(ranks, owner, me, row);
        if col != -1 {
          WholeIsAllCalls(ranks, owner, me, row, col);
        }
      }
    }
  }
}
