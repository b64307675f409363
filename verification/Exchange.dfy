module Exchange {
  // The exchange as a whole.

  import opened SparseRows
  import opened AuxMatrix
  import opened Messages
  import opened Sorting
  import opened Contacts
  import opened Packing
  import opened Parts
  import opened Ranks
  import opened Unpacking

  /** What each rank has stashed for processor `me`, in stash order. */
  ghost function Shares(stashes: seq<seq<RowOp>>, owner: int -> int, me: int): (r: seq<seq<RowOp>>)
    ensures |r| == |stashes| && forall s :: 0 <= s < |stashes| ==> r[s] == RowsFor(stashes[s], |stashes[s]|, owner, me)
  {
    seq(|stashes|, s requires 0 <= s < |stashes| => RowsFor(stashes[s], |stashes[s]|, owner, me))
  }

  /** The messages that reach a processor, in whatever order: one from each rank that has rows for it. */
  ghost predicate Delivered(msgs: seq<Message>, shares: seq<seq<RowOp>>) {
    && (forall k :: 0 <= k < |msgs| ==> 0 <= msgs[k].from < |shares| && msgs[k].cells == Encode(shares[msgs[k].from]))
    && (forall j, k :: 0 <= j < k < |msgs| ==> msgs[j].from != msgs[k].from)
    && (forall s :: 0 <= s < |shares| && shares[s] != [] ==> From(msgs, s))
  }

  ghost predicate From(msgs: seq<Message>, s: int) { exists k :: 0 <= k < |msgs| && msgs[k].from == s }

  /** The senders with the places of their messages. */
  function Senders(msgs: seq<Message>): (r: seq<Keyed<nat>>)
    ensures |r| == |msgs| && forall k :: 0 <= k < |msgs| ==> r[k] == Keyed(msgs[k].from, k)
  {
    seq(|msgs|, k requires 0 <= k < |msgs| => Keyed(msgs[k].from, k))
  }

  /** hypre_qsort2i on the senders: the order in which messages are unpacked. */
  ghost predicate InRankOrder(order: seq<Keyed<nat>>, msgs: seq<Message>) {
    && |order| == |msgs|
    && (forall j :: 0 <= j < |order| ==> order[j].val < |msgs| && order[j].key == msgs[order[j].val].from)
    && (forall i, j :: 0 <= i < j < |order| ==> order[i].key < order[j].key)
    && (forall s :: From(msgs, s) ==> HasKey(order, s))
  }

  ghost predicate HasKey(order: seq<Keyed<nat>>, s: int) { exists j :: 0 <= j < |order| && order[j].key == s }

  lemma SortedIsRankOrder(order: seq<Keyed<nat>>, msgs: seq<Message>)
    requires Rearranged(Senders(msgs), order, 0, |msgs|) && SortedFrom(order, 0, |order|)
    requires forall j, k :: 0 <= j < k < |msgs| ==> msgs[j].from != msgs[k].from
    ensures InRankOrder(order, msgs)
  {
    var n, ss := |msgs|, Senders(msgs);
    forall j | 0 <= j < n ensures order[j].val < n && order[j].key == msgs[order[j].val].from {
      CountHas(order, 0, n, order[j]);
      CountHas(ss, 0, n, order[j]);
    }
    forall i, j | 0 <= i < j < n ensures order[i].key < order[j].key {
      if order[i].val == order[j].val { TwiceInSenders(order, msgs, i, j); }
    }
    forall s | From(msgs, s) ensures HasKey(order, s) {
      var k :| 0 <= k < n && msgs[k].from == s;
      CountHas(ss, 0, n, ss[k]);
      CountHas(order, 0, n, ss[k]);
    }
  }

  /** No message is there twice. */
  lemma TwiceInSenders(order: seq<Keyed<nat>>, msgs: seq<Message>, i: nat, j: nat)
    requires Rearranged(Senders(msgs), order, 0, |msgs|) && i < j < |order|
    ensures order[i] != order[j]
  {
    var n, x, ss := |msgs|, order[i], Senders(msgs);
    CountSplit(order, 0, j, n, x);
    CountHas(order, 0, j, x);
    CountHas(order, j, n, x);
    if order[j] == x {
      CountHas(ss, 0, n, x);
      CountSplit(ss, 0, x.val, n, x);
      CountHas(ss, 0, x.val, x);
      CountSplit(ss, x.val, x.val + 1, n, x);
      CountHas(ss, x.val + 1, n, x);
    }
  }

  /** The senders' ranks, in the order of unpacking. */
  ghost function RanksOf(order: seq<Keyed<nat>>): (r: seq<int>)
    ensures |r| == |order| && forall j :: 0 <= j < |order| ==> r[j] == order[j].key
  {
    seq(|order|, j requires 0 <= j < |order| => order[j].key)
  }

  lemma {:induction false} ApplyInParts(add: bool, m: seq<seq<Entry>>, first: int, a: seq<RowOp>, b: seq<RowOp>)
    ensures ApplyOps(add, ApplyOps(add, m, first, a), first, b) == ApplyOps(add, m, first, a + b)
    decreases |b|
  {
    if b == [] {
      assert a + b == a;
    } else {
      assert (a + b)[..|a + b| - 1] == a + b[..|b| - 1];
      ApplyInParts(add, m, first, a, b[..|b| - 1]);
    }
  }

  /** The messages of an inbox, in rank order. */
  method Argsort(inbox: Inbox) returns (order: seq<Keyed<nat>>)
    requires inbox.Valid() && forall j, k :: 0 <= j < k < |inbox.msgs| ==> inbox.msgs[j].from != inbox.msgs[k].from
    ensures InRankOrder(order, inbox.msgs)
  {
    ghost var msgs := inbox.msgs;
    var ids := inbox.id[..];
    forall k | 0 <= k < |msgs| ensures ids[k] == msgs[k].from {
      KeptAt(ids, inbox.vec_starts[..], inbox.v_elements[..], msgs, |msgs|, k);
    }
    var argsort := new Keyed<nat>[inbox.length](k requires 0 <= k =>
      if k < |ids| then Keyed(ids[k], k) else Keyed(0, 0));
    assert argsort[..] == Senders(msgs);
    Quicksort(argsort, 0, argsort.Length - 1);
    order := argsort[..];
    SortedIsRankOrder(order, msgs);
  }

  lemma RankOrderIsRanks(order: seq<Keyed<nat>>, msgs: seq<Message>, shares: seq<seq<RowOp>>)
    requires InRankOrder(order, msgs) && Delivered(msgs, shares)
    ensures Lists(RanksOf(order), shares)
  {
    forall s | 0 <= s < |shares| && shares[s] != [] ensures s in RanksOf(order) {
      assert HasKey(order, s);
      var j :| 0 <= j < |order| && order[j].key == s;
      assert RanksOf(order)[j] == s;
    }
  }

  /** Message k is in the buffer and is what rank s sent. */
  ghost predicate HoldsMessage(elements: seq<Cell>, starts: seq<int>, k: nat, rows: seq<RowOp>) {
    k + 1 < |starts| && 0 <= starts[k] < starts[k + 1] <= |elements|
      && elements[starts[k]..starts[k + 1]] == Encode(rows)
  }

  /** The first n messages in rank order are in the buffer. */
  ghost predicate Ready(elements: seq<Cell>, starts: seq<int>, order: seq<Keyed<nat>>, shares: seq<seq<RowOp>>, n: nat)
    requires n <= |order|
  {
    n == 0 ||
    (Ready(elements, starts, order, shares, n - 1)
      && HoldsMessage(elements, starts, order[n - 1].val, Share(shares, order[n - 1].key)))
  }

  lemma {:induction false} ReadyAt(elements: seq<Cell>, starts: seq<int>, order: seq<Keyed<nat>>,
                                   shares: seq<seq<RowOp>>, n: nat, i: nat)
    requires i < n <= |order| && Ready(elements, starts, order, shares, n)
    ensures HoldsMessage(elements, starts, order[i].val, Share(shares, order[i].key))
  {
    if i < n - 1 { ReadyAt(elements, starts, order, shares, n - 1, i); }
  }

  lemma MessageReady(id: seq<int>, starts: seq<int>, elements: seq<Cell>, msgs: seq<Message>, k: nat, rows: seq<RowOp>)
    requires |msgs| <= |id| && |msgs| < |starts| && Kept(id, starts, elements, msgs, |msgs|)
    requires k < |msgs| && msgs[k].cells == Encode(rows)
    ensures HoldsMessage(elements, starts, k, rows)
  {
    KeptAt(id, starts, elements, msgs, |msgs|, k);
  }

  lemma {:induction false} KeptIsReady(id: seq<int>, starts: seq<int>, elements: seq<Cell>, msgs: seq<Message>,
                                       order: seq<Keyed<nat>>, shares: seq<seq<RowOp>>, n: nat)
    requires |msgs| <= |id| && |msgs| < |starts| && Kept(id, starts, elements, msgs, |msgs|) && n <= |order|
    requires InRankOrder(order, msgs) && Delivered(msgs, shares)
    ensures Ready(elements, starts, order, shares, n)
  {
    if n > 0 {
      MessageReady(id, starts, elements, msgs, order[n - 1].val, Share(shares, order[n - 1].key));
      KeptIsReady(id, starts, elements, msgs, order, shares, n - 1);
    }
  }

  /** The rows m after the messages of the first n listed ranks. */
  ghost function AfterMessages(m: seq<seq<Entry>>, first: int, ranks: seq<int>, shares: seq<seq<RowOp>>,
                               n: nat): seq<seq<Entry>>
    requires n <= |ranks|
  {
    if n == 0 then m else ApplyOps(true, AfterMessages(m, first, ranks, shares, n - 1), first,
      Share(shares, ranks[n - 1]))
  }

  lemma NoOps(m: seq<seq<Entry>>, first: int)
    ensures ApplyOps(true, m, first, []) == m
  {}

  lemma {:induction false} AfterMessagesIs(m: seq<seq<Entry>>, first: int, ranks: seq<int>, shares: seq<seq<RowOp>>,
                                           n: nat)
    requires n <= |ranks|
    ensures AfterMessages(m, first, ranks, shares, n) == ApplyOps(true, m, first, Listed(ranks, shares, n))
  {
    hide ApplyOps;
    NoOps(m, first);
    if n > 0 {
      AfterMessagesIs(m, first, ranks, shares, n - 1);
      ApplyInParts(true, m, first, Listed(ranks, shares, n - 1), Share(shares, ranks[n - 1]));
    }
  }

  lemma AfterAll(m: seq<seq<Entry>>, first: int, order: seq<Keyed<nat>>, ranks: seq<int>, msgs: seq<Message>,
                 shares: seq<seq<RowOp>>)
    requires InRankOrder(order, msgs) && Delivered(msgs, shares) && ranks == RanksOf(order)
    ensures AfterMessages(m, first, ranks, shares, |ranks|) == ApplyOps(true, m, first, Gather(shares, |shares|))
  {
    AfterMessagesIs(m, first, ranks, shares, |ranks|);
    RankOrderIsRanks(order, msgs, shares);
    ListedIsGather(ranks, shares);
  }

  /** The message of the i-th sender. */
  method UnpackOne(elements: seq<Cell>, starts: seq<int>, order: seq<Keyed<nat>>, i: nat, mat: RowMatrix,
                   ghost shares: seq<seq<RowOp>>, ghost ranks: seq<int>, ghost m: seq<seq<Entry>>)
    requires mat.Valid() && i < |order| && ranks == RanksOf(order)
    requires mat.Contents() == AfterMessages(m, mat.first, ranks, shares, i)
    requires Ready(elements, starts, order, shares, |order|)
    modifies mat.Repr
    ensures mat.Valid() && fresh(mat.Repr - old(mat.Repr))
    ensures mat.Contents() == AfterMessages(m, mat.first, ranks, shares, i + 1)
  {
    ReadyAt(elements, starts, order, shares, |order|, i);
    var k := order[i].val;
    UnpackMessage(elements, starts[k], starts[k + 1], mat, Share(shares, order[i].key));
  }

  /** All messages, in the order of the senders' ranks. */
  method UnpackInOrder(elements: seq<Cell>, starts: seq<int>, order: seq<Keyed<nat>>, mat: RowMatrix,
                       ghost shares: seq<seq<RowOp>>, ghost ranks: seq<int>)
    requires mat.Valid() && ranks == RanksOf(order) && Ready(elements, starts, order, shares, |order|)
    modifies mat.Repr
    ensures mat.Valid() && fresh(mat.Repr - old(mat.Repr))
    ensures mat.Contents() == AfterMessages(old(mat.Contents()), mat.first, ranks, shares, |ranks|)
  {
    ghost var m := mat.Contents();
    for i := 0 to |order|
      invariant mat.Valid() && fresh(mat.Repr - old(mat.Repr))
      invariant mat.Contents() == AfterMessages(m, mat.first, ranks, shares, i)
    {
      UnpackOne(elements, starts, order, i, mat, shares, ranks, m);
    }
  }

  /** Unpacking an inbox: the matrix gets exactly the rows the ranks stashed for it, rank after rank, each
      in stash order, whatever the order of arrival. */
  method Unpack(inbox: Inbox, mat: RowMatrix, ghost shares: seq<seq<RowOp>>)
    requires inbox.Valid() && mat.Valid() && Delivered(inbox.msgs, shares)
    modifies mat.Repr
    ensures mat.Valid() && fresh(mat.Repr - old(mat.Repr))
    ensures mat.Contents() == ApplyOps(true, old(mat.Contents()), mat.first, Gather(shares, |shares|))
  {
    hide RowMatrix.Valid, Gather, ApplyOps, ApplyOp, InRankOrder, Ready;
    var starts, elements := inbox.vec_starts[..], inbox.v_elements[..];
    var order := Argsort(inbox);
    ghost var ranks := RanksOf(order);
    KeptIsReady(inbox.id[..], starts, elements, inbox.msgs, order, shares, |order|);
    AfterAll(mat.Contents(), mat.first, order, ranks, inbox.msgs, shares);
    UnpackInOrder(elements, starts, order, mat, shares, ranks);
  }

  // ------------------------------------------------------------------ from all stashes to one owner

  /** What a rank has packed. */
  datatype Mail = Mail(procs: seq<int>, buf: seq<Cell>, starts: seq<int>)

  /** Every rank has packed its stash. */
  ghost predicate AllMailed(mails: seq<Mail>, stashes: seq<seq<RowOp>>, owner: int -> int) {
    && |mails| == |stashes|
    && forall s :: 0 <= s < |mails| ==> Mailed(mails[s].buf, mails[s].starts, stashes[s], owner, mails[s].procs)
  }

  /** The cells at contact j's place in a packed buffer. */
  ghost predicate IsPart(mail: Mail, j: nat, cells: seq<Cell>) {
    && j < |mail.procs| && |mail.starts| == |mail.procs| + 1
    && 0 <= mail.starts[j] <= mail.starts[j + 1] <= |mail.buf| && cells == mail.buf[mail.starts[j]..mail.starts[j + 1]]
  }

  /** hypre_DataExchangeList: every rank that lists `me` as a contact delivers the part of its buffer packed
      for `me`, once; nothing is said about the order. */
  ghost predicate Transported(mails: seq<Mail>, me: int, msgs: seq<Message>) {
    && (forall k :: 0 <= k < |msgs| ==> 0 <= msgs[k].from < |mails| && PartFor(mails[msgs[k].from], me, msgs[k].cells))
    && (forall j, k :: 0 <= j < k < |msgs| ==> msgs[j].from != msgs[k].from)
    && (forall s :: 0 <= s < |mails| && me in mails[s].procs ==> From(msgs, s))
  }

  ghost predicate PartFor(mail: Mail, me: int, cells: seq<Cell>) {
    exists j :: 0 <= j < |mail.procs| && mail.procs[j] == me && IsPart(mail, j, cells)
  }

  /** A processor with rows in a stash is among those the rank contacts. */
  lemma {:induction false} OwnerContacted(ops: seq<RowOp>, n: nat, owner: int -> int, procs: seq<int>, me: int)
    requires n <= |ops| && OwnersIn(ops, n, owner, procs) && RowsFor(ops, n, owner, me) != []
    ensures me in procs
  {
    if owner(Actual(ops[n - 1].row)) != me { OwnerContacted(ops, n - 1, owner, procs, me); }
  }

  /** Packing and transport deliver to each processor exactly what the ranks have stashed for it. */
  lemma TransportDelivers(mails: seq<Mail>, stashes: seq<seq<RowOp>>, owner: int -> int, me: int, msgs: seq<Message>)
    requires AllMailed(mails, stashes, owner) && Transported(mails, me, msgs)
    ensures Delivered(msgs, Shares(stashes, owner, me))
  {
    var shares := Shares(stashes, owner, me);
    forall k | 0 <= k < |msgs| ensures 0 <= msgs[k].from < |shares| && msgs[k].cells == Encode(shares[msgs[k].from]) {
      var mail, ops := mails[msgs[k].from], stashes[msgs[k].from];
      PartIsShare(mail, ops, owner, me, msgs[k].cells);
    }
    forall s | 0 <= s < |shares| && shares[s] != [] ensures From(msgs, s) {
      OwnerContacted(stashes[s], |stashes[s]|, owner, mails[s].procs, me);
    }
  }

  lemma PartIsShare(mail: Mail, ops: seq<RowOp>, owner: int -> int, me: int, cells: seq<Cell>)
    requires Mailed(mail.buf, mail.starts, ops, owner, mail.procs) && PartFor(mail, me, cells)
    ensures cells == Encode(RowsFor(ops, |ops|, owner, me))
  {
    var j :| 0 <= j < |mail.procs| && mail.procs[j] == me && IsPart(mail, j, cells);
    SliceAt(mail.buf, mail.starts, MessageList(ops, owner, mail.procs), |mail.procs|, j);
  }

  /** The messages arriving one by one. */
  method Collect(msgs: seq<Message>) returns (inbox: Inbox)
    ensures inbox.Valid() && inbox.msgs == msgs
    ensures fresh(inbox) && fresh(inbox.id) && fresh(inbox.vec_starts) && fresh(inbox.v_elements)
  {
    inbox := new Inbox(5, 20);
    for k := 0 to |msgs|
      invariant inbox.Valid() && inbox.msgs == msgs[..k]
      invariant fresh(inbox) && fresh(inbox.id) && fresh(inbox.vec_starts) && fresh(inbox.v_elements)
    {
      inbox.FillResponse(msgs[k].from, msgs[k].cells);
    }
    assert msgs[..|msgs|] == msgs;
  }

  /** The whole exchange, for one receiving processor: all ranks pack their stashes, the messages arrive in any
      order, and are unpacked.  The receiver's matrix gets exactly the rows stashed for it, in the order of
      (sender's rank, place in the sender's stash). */
  method Receive(ghost mails: seq<Mail>, ghost stashes: seq<seq<RowOp>>, ghost owner: int -> int, ghost me: int,
                 msgs: seq<Message>, mat: RowMatrix)
    requires AllMailed(mails, stashes, owner) && Transported(mails, me, msgs) && mat.Valid()
    modifies mat.Repr
    ensures mat.Valid() && fresh(mat.Repr - old(mat.Repr))
    ensures mat.Contents()
      == ApplyOps(true, old(mat.Contents()), mat.first, Gather(Shares(stashes, owner, me), |stashes|))
  {
    hide *;
    TransportDelivers(mails, stashes, owner, me, msgs);
    var inbox := Collect(msgs);
    Unpack(inbox, mat, Shares(stashes, owner, me));
  }
}
