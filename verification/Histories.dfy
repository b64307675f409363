module Histories {
  // What a history of row updates leaves in a matrix: in the row buffers, and in the assembled matrix.

  import opened Basics
  import opened SparseRows
  import opened AuxMatrix
  import opened MatrixValues

  datatype Change = Change(add: bool, op: RowOp)

  ghost function ApplyAll(m: seq<seq<Entry>>, first: int, h: seq<Change>): (r: seq<seq<Entry>>)
    ensures |r| == |m|
  {
    if h == [] then m else ApplyOp(h[|h| - 1].add, ApplyAll(m, first, h[..|h| - 1]), first, h[|h| - 1].op)
  }

  lemma ApplyAllNext(m: seq<seq<Entry>>, first: int, h: seq<Change>, c: Change)
    ensures ApplyAll(m, first, h + [c]) == ApplyOp(c.add, ApplyAll(m, first, h), first, c.op)
  {
    assert (h + [c])[..|h|] == h;
  }

  /** What a history does to one entry of the whole matrix: overwriting and accumulating, in order. */
  ghost function FoldAll(x: Option<real>, h: seq<Change>, row: int, col: int): Option<real> {
    if h == [] then x
    else
      var y := FoldAll(x, h[..|h| - 1], row, col);
      var c := h[|h| - 1];
      if c.op.row == row then Fold(c.add, y, c.op.us, col) else y
  }

  // ------------------------------------------------------------------ what the row buffers hold

  /** The values a row buffer holds for one column after a history, from the values xs on. */
  ghost function ValuesAfter(xs: seq<real>, h: seq<Change>, row: int, col: int): seq<real> {
    if h == [] then xs
    else
      var ys := ValuesAfter(xs, h[..|h| - 1], row, col);
      var c := h[|h| - 1];
      if c.op.row == row then Taken(c.add, ys, Vals(c.op.us, col)) else ys
  }

  /** Any history, whatever its updates repeat. */
  lemma {:induction false} HistoryValues(m: seq<seq<Entry>>, first: int, h: seq<Change>, r: nat, col: int)
    requires r < |m|
    ensures Vals(ApplyAll(m, first, h)[r], col) == ValuesAfter(Vals(m[r], col), h, first + r, col)
  {
    if h != [] {
      var n := |h| - 1;
      HistoryValues(m, first, h[..n], r, col);
      RowUpdateVals(h[n].add, ApplyAll(m, first, h[..n])[r], h[n].op.us, col);
    }
  }

  /** No update of row r names a column twice that the row lacks at that moment. */
  ghost predicate NewOnceAlong(m: seq<seq<Entry>>, first: int, h: seq<Change>, r: nat)
    requires r < |m|
  {
    |h| == 0 ||
    (var before, c := h[..|h| - 1], h[|h| - 1];
     && NewOnceAlong(m, first, before, r)
     && (c.op.row == first + r ==> NewOnce(Cols(ApplyAll(m, first, before)[r]), Cols(c.op.us))))
  }

  /** A row that names no column twice stays so exactly as long as no update names a column twice that the row
      lacks, and then each entry is the in-order fold of the updates to it. */
  lemma {:induction false} HistoryTheorem(m: seq<seq<Entry>>, first: int, h: seq<Change>, r: nat, col: int)
    requires r < |m| && Distinct(Cols(m[r]))
    ensures Distinct(Cols(ApplyAll(m, first, h)[r])) <==> NewOnceAlong(m, first, h, r)
    ensures NewOnceAlong(m, first, h, r) ==>
      At(ApplyAll(m, first, h)[r], col) == FoldAll(At(m[r], col), h, first + r, col)
  {
    hide Distinct, NewOnce, At, Fold, Cols, RowUpdate;
    if h != [] {
      var n := |h| - 1;
      HistoryTheorem(m, first, h[..n], r, col);
      StepDistinct(h[n].add, ApplyAll(m, first, h[..n])[r], h[n].op.us, col);
    }
  }

  /** One update. */
  lemma StepDistinct(add: bool, row: seq<Entry>, us: seq<Entry>, c: int)
    ensures Distinct(Cols(RowUpdate(add, row, us))) <==> Distinct(Cols(row)) && NewOnce(Cols(row), Cols(us))
    ensures NewOnce(Cols(row), Cols(us)) ==> At(RowUpdate(add, row, us), c) == Fold(add, At(row, c), us, c)
  {
    if Distinct(Cols(row)) { RowUpdateDistinct(add, row, us); } else { RepeatsStay(add, row, us); }
    RowUpdateAt(add, row, us, c);
    if NewOnce(Cols(row), Cols(us)) && c !in Cols(row) {
      NewOnceVals(Cols(row), us, c);
      FoldOnce(add, us, c);
      ValsNone(row, c);
      AtIsFirst(row, c);
    }
  }

  // ------------------------------------------------------------------ what the assembled matrix holds

  /** The part of an update that concerns one entry: the values it gives, and whether it adds them. */
  datatype Effect = Effect(add: bool, vs: seq<real>)

  ghost function EffectOf(c: Change, row: int, col: int): seq<Effect> {
    if c.op.row == row && |Vals(c.op.us, col)| > 0 then [Effect(c.add, Vals(c.op.us, col))] else []
  }

  /** All that a history does to one entry, in order. */
  ghost function Effects(h: seq<Change>, row: int, col: int): seq<Effect> {
    if h == [] then [] else Effects(h[..|h| - 1], row, col) + EffectOf(h[|h| - 1], row, col)
  }

  ghost predicate AllGive(ts: seq<Effect>) { forall k :: 0 <= k < |ts| ==> |ts[k].vs| > 0 }

  ghost function FoldOf(x: Option<real>, ts: seq<Effect>): Option<real> {
    if |ts| == 0 then x
    else
      var y, t := FoldOf(x, ts[..|ts| - 1]), ts[|ts| - 1];
      Some(Combined(t.add, if y.Some? then y.value else 0.0, t.vs))
  }

  ghost function ValuesOf(xs: seq<real>, ts: seq<Effect>): seq<real> {
    if |ts| == 0 then xs else Taken(ts[|ts| - 1].add, ValuesOf(xs, ts[..|ts| - 1]), ts[|ts| - 1].vs)
  }

  lemma EffectsNext(h: seq<Change>, c: Change, row: int, col: int)
    ensures Effects(h + [c], row, col) == Effects(h, row, col) + EffectOf(c, row, col)
  {
    assert (h + [c])[..|h|] == h;
  }

  lemma {:induction false} EffectsConcat(a: seq<Change>, b: seq<Change>, row: int, col: int)
    ensures Effects(a + b, row, col) == Effects(a, row, col) + Effects(b, row, col)
    decreases |b|
  {
    hide *;
    if |b| == 0 {
      NoEffect(b, row, col);
      assert a + b == a;
    } else {
      var rest, c := b[..|b| - 1], b[|b| - 1];
      EffectsConcat(a, rest, row, col);
      EffectsNext(a + rest, c, row, col);
      EffectsNext(rest, c, row, col);
      assert a + b == (a + rest) + [c] && b == rest + [c];
    }
  }

  lemma NoEffect(h: seq<Change>, row: int, col: int)
    requires |h| == 0
    ensures Effects(h, row, col) == []
  {}

  lemma FoldOfNext(x: Option<real>, ts: seq<Effect>, e: Effect)
    ensures FoldOf(x, ts + [e]) == Some(Combined(e.add, if FoldOf(x, ts).Some? then FoldOf(x, ts).value else 0.0, e.vs))
  {
    assert (ts + [e])[..|ts|] == ts;
  }

  lemma ValuesOfNext(xs: seq<real>, ts: seq<Effect>, e: Effect)
    ensures ValuesOf(xs, ts + [e]) == Taken(e.add, ValuesOf(xs, ts), e.vs)
  {
    assert (ts + [e])[..|ts|] == ts;
  }

  lemma AllGiveNext(ts: seq<Effect>, e: Effect)
    requires AllGive(ts) && |e.vs| > 0
    ensures AllGive(ts + [e])
  {}

  /** One more change. */
  lemma EffectStep(x: Option<real>, xs: seq<real>, ts: seq<Effect>, c: Change, row: int, col: int)
    requires AllGive(ts)
    ensures FoldOf(x, ts + EffectOf(c, row, col))
      == if c.op.row == row then Fold(c.add, FoldOf(x, ts), c.op.us, col) else FoldOf(x, ts)
    ensures ValuesOf(xs, ts + EffectOf(c, row, col))
         == if c.op.row == row then Taken(c.add, ValuesOf(xs, ts), Vals(c.op.us, col)) else ValuesOf(xs, ts)
    ensures AllGive(ts + EffectOf(c, row, col))
  {
    hide FoldOf, ValuesOf, Fold, Taken, Vals, Combined, AllGive;
    var vs := Vals(c.op.us, col);
    FoldIs(c.add, FoldOf(x, ts), c.op.us, col);
    if c.op.row == row && |vs| > 0 {
      var e := Effect(c.add, vs);
      assert EffectOf(c, row, col) == [e];
      FoldOfNext(x, ts, e);
      ValuesOfNext(xs, ts, e);
      AllGiveNext(ts, e);
    } else {
      assert ts + EffectOf(c, row, col) == ts;
      if c.op.row == row { TakenNothing(c.add, ValuesOf(xs, ts), vs); }
    }
  }

  /** Both depend only on the updates to the entry. */
  lemma {:induction false} OnlyEffects(x: Option<real>, xs: seq<real>, h: seq<Change>, row: int, col: int)
    ensures FoldAll(x, h, row, col) == FoldOf(x, Effects(h, row, col))
    ensures ValuesAfter(xs, h, row, col) == ValuesOf(xs, Effects(h, row, col))
    ensures AllGive(Effects(h, row, col))
  {
    hide EffectOf, Fold, Taken, Vals;
    if h != [] {
      var before, c := h[..|h| - 1], h[|h| - 1];
      OnlyEffects(x, xs, before, row, col);
      EffectStep(x, xs, Effects(before, row, col), c, row, col);
    }
  }

  lemma TakenNothing(add: bool, xs: seq<real>, vs: seq<real>)
    requires |vs| == 0
    ensures Taken(add, xs, vs) == xs
  {}

  /** Whether what is read is the fold, whatever the values: the update that creates the entry gives it one value;
      or a later one overwrites the value that is read; or, on the diagonal, where the last value is read and
      later updates change the first, there is only that one update, and it overwrites. */
  ghost predicate Exact(ts: seq<Effect>, diagonal: bool) {
    || |ts| == 0 || |ts[0].vs| == 1
    || (if diagonal then |ts| == 1 && !ts[0].add else exists k :: 1 <= k < |ts| && !ts[k].add)
  }

  lemma {:induction false} CombinedSet(x: real, vs: seq<real>)
    requires |vs| > 0
    ensures Combined(false, x, vs) == vs[|vs| - 1]
    decreases |vs|
  {
    if |vs| > 1 { CombinedSet(vs[0], vs[1..]); }
  }

  /** The buffer has as many values as the first update gave, and only the first of them changes. */
  lemma {:induction false} ValuesKept(ts: seq<Effect>)
    requires |ts| > 0 && AllGive(ts)
    ensures var xs, vs := ValuesOf([], ts), ts[0].vs;
      |xs| == |vs| && xs[1..] == vs[1..]
        && (|ts| > 1 ==> xs[0] == Combined(ts[|ts| - 1].add, ValuesOf([], ts[..|ts| - 1])[0], ts[|ts| - 1].vs))
  {
    if |ts| > 1 { ValuesKept(ts[..|ts| - 1]); }
  }

  lemma {:induction false} ExactReads(ts: seq<Effect>, diagonal: bool)
    requires AllGive(ts) && Exact(ts, diagonal)
    ensures Held(ValuesOf([], ts), diagonal) == FoldOf(None, ts)
  {
    if |ts| > 0 {
      var n := |ts| - 1;
      var t := ts[n];
      ValuesKept(ts);
      if n == 0 {
        if |t.vs| > 1 {
          CombinedSet(0.0, t.vs);
        } else {
          assert t.vs == [t.vs[0]];
          CombinedOne(t.add, 0.0, t.vs[0], []);
        }
      } else if t.add || |ts[0].vs| == 1 {
        ExactReads(ts[..n], diagonal);
        ValuesKept(ts[..n]);
      } else {
        CombinedSet(ValuesOf([], ts[..n])[0], t.vs);
        CombinedSet(if FoldOf(None, ts[..n]).Some? then FoldOf(None, ts[..n]).value else 0.0, t.vs);
      }
    }
  }

  // ------------------------------------------------------------------ ... and that it is read so only then

  /** Rising values above lo, up to hi. */
  ghost predicate Rising(vs: seq<real>, lo: real, hi: real) {
    && (forall j :: 0 <= j < |vs| ==> lo < vs[j] <= hi)
    && forall i, j :: 0 <= i < j < |vs| ==> vs[i] < vs[j]
  }

  /** Updates whose values are positive and rise within the first update and above it. */
  ghost predicate Climbing(ts: seq<Effect>, top: real) {
    && (forall k :: 0 <= k < |ts| ==> |ts[k].vs| > 0 && Rising(ts[k].vs, 0.0, top))
    && forall k :: 1 <= k < |ts| ==> ts[k].vs[|ts[k].vs| - 1] > ts[0].vs[|ts[0].vs| - 1]
  }

  lemma {:induction false} CombinedLarge(add: bool, x: real, vs: seq<real>)
    requires |vs| > 0 && x >= 0.0 && forall j :: 0 <= j < |vs| ==> vs[j] > 0.0
    ensures Combined(add, x, vs) >= vs[|vs| - 1] > 0.0
    ensures add && (|vs| > 1 || x > 0.0) ==> Combined(add, x, vs) > vs[|vs| - 1]
    decreases |vs|
  {
    if |vs| > 1 { CombinedLarge(add, Combine(add, x, vs[0]), vs[1..]); }
  }

  lemma {:induction false} CombinedShift(x: real, y: real, vs: seq<real>)
    ensures Combined(true, y, vs) - Combined(true, x, vs) == y - x
    decreases |vs|
  {
    if |vs| > 0 { CombinedShift(x + vs[0], y + vs[0], vs[1..]); }
  }

  lemma {:induction false} FoldLarge(ts: seq<Effect>, top: real)
    requires |ts| > 0 && Climbing(ts, top)
    ensures var t, f := ts[|ts| - 1], FoldOf(None, ts);
      && f.Some? && f.value >= t.vs[|t.vs| - 1] > 0.0
      && (|ts| == 1 && t.add && |t.vs| > 1 ==> f.value > t.vs[|t.vs| - 1])
  {
    var n := |ts| - 1;
    if n > 0 { FoldLarge(ts[..n], top); }
    var y := FoldOf(None, ts[..n]);
    CombinedLarge(ts[n].add, if y.Some? then y.value else 0.0, ts[n].vs);
  }

  lemma ClimbsBefore(ts: seq<Effect>, top: real)
    requires |ts| > 1 && Climbing(ts, top)
    ensures Climbing(ts[..|ts| - 1], top)
  {}

  lemma {:induction false} FoldAbove(ts: seq<Effect>, top: real)
    requires |ts| > 0 && Climbing(ts, top) && |ts[0].vs| > 1 && forall k :: 1 <= k < |ts| ==> ts[k].add
    ensures FoldOf(None, ts).Some? && |ValuesOf([], ts)| > 0 && FoldOf(None, ts).value > ValuesOf([], ts)[0]
  {
    var n := |ts| - 1;
    if n == 0 {
      ValuesKept(ts);
      FoldLarge(ts, top);
    } else {
      ClimbsBefore(ts, top);
      FoldAbove(ts[..n], top);
      var x, y := ValuesOf([], ts[..n])[0], FoldOf(None, ts[..n]).value;
      CombinedShift(x, y, ts[n].vs);
      hide Climbing, Combined;
      assert FoldOf(None, ts).value == Combined(true, y, ts[n].vs);
      assert ValuesOf([], ts)[0] == Combined(true, x, ts[n].vs);
    }
  }

  /** On the diagonal the last value of the first update stays where it is. */
  lemma DiagonalBelow(ts: seq<Effect>, top: real)
    requires Climbing(ts, top) && !Exact(ts, true)
    ensures var xs, f := ValuesOf([], ts), FoldOf(None, ts);
      |xs| == |ts[0].vs| > 1 && xs[1..] == ts[0].vs[1..] && f.Some? && f.value > ts[0].vs[|ts[0].vs| - 1]
  {
    hide FoldOf, ValuesOf, Rising;
    ValuesKept(ts);
    FoldLarge(ts, top);
  }

  lemma OtherwiseMisread(ts: seq<Effect>, diagonal: bool, top: real)
    requires Climbing(ts, top) && !Exact(ts, diagonal)
    ensures ValueOf(Held(ValuesOf([], ts), diagonal)) != ValueOf(FoldOf(None, ts))
  {
    hide FoldOf, ValuesOf, Rising;
    if diagonal {
      hide Climbing, Exact;
      DiagonalBelow(ts, top);
      var xs, vs := ValuesOf([], ts), ts[0].vs;
      assert xs[|xs| - 1] == xs[1..][|xs| - 2] == vs[1..][|vs| - 2] == vs[|vs| - 1];
    } else {
      FoldAbove(ts, top);
    }
  }

  /** The same calls with other values. */
  ghost predicate SameShape(h: seq<Change>, h': seq<Change>) {
    |h| == |h'| && forall k :: 0 <= k < |h| ==>
      h[k].add == h'[k].add && h[k].op.row == h'[k].op.row && Cols(h[k].op.us) == Cols(h'[k].op.us)
  }

  lemma {:induction false} SameCols(us: seq<Entry>, us': seq<Entry>, c: int)
    requires Cols(us) == Cols(us')
    ensures |Vals(us, c)| == |Vals(us', c)|
  {
    if |us| > 0 {
      assert us[0].col == Cols(us)[0] == us'[0].col;
      assert Cols(us[1..]) == Cols(us)[1..] == Cols(us'[1..]);
      SameCols(us[1..], us'[1..], c);
    }
  }

  lemma {:induction false} ShapeOfEffects(h: seq<Change>, h': seq<Change>, row: int, col: int)
    requires SameShape(h, h')
    ensures var ts, ts' := Effects(h, row, col), Effects(h', row, col);
      |ts| == |ts'| && forall k :: 0 <= k < |ts| ==> ts[k].add == ts'[k].add && |ts[k].vs| == |ts'[k].vs|
  {
    if h != [] {
      var n := |h| - 1;
      ShapeOfEffects(h[..n], h'[..n], row, col);
      SameCols(h[n].op.us, h'[n].op.us, col);
    }
  }

  /** Values from + 1, from + 2, ... */
  ghost function Numbered(us: seq<Entry>, from: nat): (r: seq<Entry>)
    ensures |r| == |us|
  {
    seq(|us|, i requires 0 <= i < |us| => Entry(us[i].col, (from + i + 1) as real))
  }

  lemma {:induction false} NumberedRises(us: seq<Entry>, from: nat, c: int)
    ensures Rising(Vals(Numbered(us, from), c), from as real, (from + |us|) as real)
  {
    hide Vals;
    if |us| > 0 {
      var e, rest := Numbered(us, from)[0], Numbered(us[1..], from + 1);
      NumberedRises(us[1..], from + 1, c);
      assert Numbered(us, from) == [e] + rest;
      ValsCons(e, rest, c);
    } else {
      NoVals(Numbered(us, from), c);
    }
  }

  ghost function Size(h: seq<Change>): nat { if h == [] then 0 else Size(h[..|h| - 1]) + |h[|h| - 1].op.us| }

  /** A history with its values numbered from 1 on. */
  ghost function Renumbered(h: seq<Change>): (r: seq<Change>)
    ensures |r| == |h|
  {
    if h == [] then []
    else
      var c := h[|h| - 1];
      Renumbered(h[..|h| - 1]) + [Change(c.add, RowOp(c.op.row, Numbered(c.op.us, Size(h[..|h| - 1]))))]
  }

  lemma RenumberedNext(h: seq<Change>, c: Change)
    ensures Renumbered(h + [c]) == Renumbered(h) + [Change(c.add, RowOp(c.op.row, Numbered(c.op.us, Size(h))))]
    ensures Size(h + [c]) == Size(h) + |c.op.us|
  {
    assert (h + [c])[..|h|] == h;
  }

  lemma {:induction false} RenumberedShape(h: seq<Change>)
    ensures SameShape(h, Renumbered(h))
  {
    if h != [] {
      var n := |h| - 1;
      RenumberedShape(h[..n]);
      assert Cols(Numbered(h[n].op.us, Size(h[..n]))) == Cols(h[n].op.us);
    }
  }

  lemma {:induction false} RenumberedClimbs(h: seq<Change>, row: int, col: int)
    ensures Climbing(Effects(Renumbered(h), row, col), Size(h) as real)
  {
    hide *;
    if |h| == 0 {
      NoneClimbs(h, row, col);
    } else {
      var before, c := h[..|h| - 1], h[|h| - 1];
      RenumberedClimbs(before, row, col);
      RenumberedNext(before, c);
      assert h == before + [c];
      var c' := Change(c.add, RowOp(c.op.row, Numbered(c.op.us, Size(before))));
      EffectsNext(Renumbered(before), c', row, col);
      EffectRises(c, Size(before), row, col);
      ClimbOn(Effects(Renumbered(before), row, col), EffectOf(c', row, col), Size(before) as real, Size(h) as real);
    }
  }

  lemma NoneClimbs(h: seq<Change>, row: int, col: int)
    requires |h| == 0
    ensures Climbing(Effects(Renumbered(h), row, col), Size(h) as real)
  {}

  lemma EffectRises(c: Change, from: nat, row: int, col: int)
    ensures var es := EffectOf(Change(c.add, RowOp(c.op.row, Numbered(c.op.us, from))), row, col);
      |es| <= 1 && forall k ::
        0 <= k < |es| ==> |es[k].vs| > 0 && Rising(es[k].vs, from as real, (from + |c.op.us|) as real)
  {
    NumberedRises(c.op.us, from, col);
  }

  lemma ClimbOn(ts: seq<Effect>, more: seq<Effect>, mid: real, top: real)
    requires Climbing(ts, mid) && 0.0 <= mid <= top && |more| <= 1
    requires forall k :: 0 <= k < |more| ==> |more[k].vs| > 0 && Rising(more[k].vs, mid, top)
    ensures Climbing(ts + more, top)
  {}

  /** What the assembled matrix holds in one entry after a history on empty rows. */
  ghost function Stored(h: seq<Change>, row: int, col: int, diagonal: bool): real {
    var xs := ValuesAfter([], h, row, col);
    if |xs| == 0 then 0.0 else if diagonal then xs[|xs| - 1] else xs[0]
  }

  /** What the calls, taken in order, make of the entry. */
  ghost function Meant(h: seq<Change>, row: int, col: int): real {
    var x := FoldAll(None, h, row, col);
    if x.Some? then x.value else 0.0
  }

  /** v is what is read where the effects es have been: 0 if there were none, and else one of the values they leave in
      the row buffer, the first or on the diagonal the last; and it is what they mean where that can be. */
  ghost predicate Leaves(v: real, es: seq<Effect>, diagonal: bool) {
    var xs, x := ValuesOf([], es), FoldOf(None, es);
    && (|es| == 0 ==> v == 0.0)
    && (|es| > 0 ==> |xs| > 0 && v == if diagonal then xs[|xs| - 1] else xs[0])
    && (|es| > 0 && Exact(es, diagonal) ==> x == Some(v))
  }

  lemma StoredLeaves(v: real, h: seq<Change>, row: int, col: int, diagonal: bool)
    requires v == Stored(h, row, col, diagonal)
    ensures Leaves(v, Effects(h, row, col), diagonal)
  {
    var es := Effects(h, row, col);
    OnlyEffects(None, [], h, row, col);
    if |es| > 0 { ValuesKept(es); }
    if Exact(es, diagonal) { ExactReads(es, diagonal); }
  }

  /** Whether what is read after assembly is the in-order fold of the calls, for all values they may give. */
  lemma ReadsFold(h: seq<Change>, row: int, col: int, diagonal: bool)
    ensures (forall h' :: SameShape(h, h') ==> Stored(h', row, col, diagonal) == Meant(h', row, col))
       <==> Exact(Effects(h, row, col), diagonal)
  {
    var ts := Effects(h, row, col);
    if Exact(ts, diagonal) {
      forall h' | SameShape(h, h') ensures Stored(h', row, col, diagonal) == Meant(h', row, col) {
        ShapeOfEffects(h, h', row, col);
        OnlyEffects(None, [], h', row, col);
        ExactReads(Effects(h', row, col), diagonal);
      }
    } else {
      var h' := Renumbered(h);
      RenumberedShape(h);
      RenumberedClimbs(h, row, col);
      ShapeOfEffects(h, h', row, col);
      OnlyEffects(None, [], h', row, col);
      OtherwiseMisread(Effects(h', row, col), diagonal, Size(h) as real);
    }
  }

  ghost function Sum(vs: seq<real>): real { if |vs| == 0 then 0.0 else Sum(vs[..|vs| - 1]) + vs[|vs| - 1] }

  /** All values that are given from effect k on. */
  ghost function Given(es: seq<Effect>, k: nat): seq<real>
    requires k <= |es|
  {
    if k == |es| then [] else Given(es[..|es| - 1], k) + es[|es| - 1].vs
  }

  lemma {:induction false} SumConcat(a: seq<real>, b: seq<real>)
    ensures Sum(a + b) == Sum(a) + Sum(b)
  {
    if |b| == 0 {
      assert a + b == a;
    } else {
      SumConcat(a, b[..|b| - 1]);
      assert (a + b)[..|a + b| - 1] == a + b[..|b| - 1];
    }
  }

  lemma {:induction false} CombinedAdds(x: real, vs: seq<real>)
    ensures Combined(true, x, vs) == x + Sum(vs)
    decreases |vs|
  {
    if |vs| > 0 {
      CombinedAdds(x + vs[0], vs[1..]);
      SumConcat([vs[0]], vs[1..]);
      assert [vs[0]] + vs[1..] == vs && [vs[0]][..0] == [];
    }
  }

  /** The fold of the updates of an entry: the last value that was set, if any, plus all that has been added since. */
  lemma {:induction false} FoldIsSum(es: seq<Effect>, k: nat)
    requires AllGive(es) && k <= |es| && 0 < |es|
    requires (k > 0 ==> !es[k - 1].add) && forall j :: k <= j < |es| ==> es[j].add
    ensures FoldOf(None, es)
         == Some((if k == 0 then 0.0 else es[k - 1].vs[|es[k - 1].vs| - 1]) + Sum(Given(es, k)))
    decreases |es|
  {
    hide FoldOf, Combined, Sum, Given;
    var before, e := es[..|es| - 1], es[|es| - 1];
    var x := if FoldOf(None, before).Some? then FoldOf(None, before).value else 0.0;
    assert es == before + [e];
    FoldOfNext(None, before, e);
    if k == |es| {
      CombinedSet(x, e.vs);
      NoneGiven(es);
    } else {
      CombinedAdds(x, e.vs);
      GivenNext(es, k);
      SumConcat(Given(before, k), e.vs);
      if |before| > 0 { FoldIsSum(before, k); } else { NoneGiven(before); }
    }
  }

  lemma NoneGiven(es: seq<Effect>)
    ensures Sum(Given(es, |es|)) == 0.0 && (|es| == 0 ==> FoldOf(None, es) == None)
  {}

  lemma GivenNext(es: seq<Effect>, k: nat)
    requires k < |es|
    ensures Given(es, k) == Given(es[..|es| - 1], k) + es[|es| - 1].vs
  {}

  /** So where an entry is read exactly, it is the last value that was set plus all that has been added since. */
  lemma ReadsSum(v: real, es: seq<Effect>, diagonal: bool, k: nat)
    requires AllGive(es) && Exact(es, diagonal) && Leaves(v, es, diagonal) && k <= |es|
    requires (k > 0 ==> !es[k - 1].add) && forall j :: k <= j < |es| ==> es[j].add
    ensures v == (if k == 0 then 0.0 else es[k - 1].vs[|es[k - 1].vs| - 1]) + Sum(Given(es, k))
  {
    if |es| > 0 { FoldIsSum(es, k); }
  }

  // ------------------------------------------------------------------ two examples

  /** One update that names a new column twice leaves two entries for it.  Elsewhere than on the diagonal the
      first is read, and the second is lost; ... */
  lemma RepeatedColumnIsLost()
    ensures var us := [Entry(5, 1.0), Entry(5, 2.0)];
      var h := [Change(true, RowOp(0, us))];
      RowUpdate(true, [], us) == us && Stored(h, 0, 5, false) == 1.0 && Meant(h, 0, 5) == 3.0
  {
    var us := [Entry(5, 1.0), Entry(5, 2.0)];
    PutTwice(true, us);
    OneChange(true, us, 1.0, 2.0);
  }

  /** ... on the diagonal the last is read, which is what setting the entry twice means although the row buffer,
      with its two entries, says something else. */
  lemma RepeatedDiagonalIsRead()
    ensures var us := [Entry(5, 1.0), Entry(5, 2.0)];
      var h := [Change(false, RowOp(0, us))];
      && RowUpdate(false, [], us) == us && !NewOnce([], Cols(us)) && At(us, 5) == Some(1.0)
      && Stored(h, 0, 5, true) == 2.0 == Meant(h, 0, 5)
  {
    var us := [Entry(5, 1.0), Entry(5, 2.0)];
    PutTwice(false, us);
    OneChange(false, us, 1.0, 2.0);
    assert Cols(us) == [5, 5] && Cols(us)[1..] == [5];
    FindIs(us, 5, 0);
  }

  lemma PutTwice(add: bool, us: seq<Entry>)
    requires us == [Entry(5, 1.0), Entry(5, 2.0)]
    ensures RowUpdate(add, [], us) == us
  {
    var r1 := Put(add, [], 0, us[0]);
    assert r1 == [Entry(5, 1.0)] && us[1..] == [Entry(5, 2.0)];
    assert r1[..0] == [];
    var r2 := Put(add, r1, 0, us[1]);
    assert r2 == us && us[1..][1..] == [];
    assert PutAll(add, r1, 0, us[1..]) == PutAll(add, r2, 0, []);
  }

  /** A history of a single update that gives one entry two values. */
  lemma OneChange(add: bool, us: seq<Entry>, v: real, w: real)
    requires us == [Entry(5, v), Entry(5, w)]
    ensures var h := [Change(add, RowOp(0, us))];
      Stored(h, 0, 5, false) == v && Stored(h, 0, 5, true) == w && Meant(h, 0, 5) == if add then v + w else w
  {
    var h := [Change(add, RowOp(0, us))];
    assert us == [Entry(5, v)] + [Entry(5, w)];
    ValsConcat([Entry(5, v)], [Entry(5, w)], 5);
    ValsOne(Entry(5, v), 5);
    ValsOne(Entry(5, w), 5);
    var vs := [v] + [w];
    assert Vals(us, 5) == vs;
    OneEffect(h, add, us, vs);
    CombinedOne(add, 0.0, v, [w]);
    CombinedOne(add, Combine(add, 0.0, v), w, []);
  }

  lemma OneEffect(h: seq<Change>, add: bool, us: seq<Entry>, vs: seq<real>)
    requires h == [Change(add, RowOp(0, us))] && vs == Vals(us, 5) && |vs| > 0
    ensures FoldAll(None, h, 0, 5) == Some(Combined(add, 0.0, vs)) && ValuesAfter([], h, 0, 5) == vs
  {
    hide Combined, Vals;
    var e := Effect(add, vs);
    EffectsNext([], h[0], 0, 5);
    assert [] + h == h && [] + [e] == [e];
    OnlyEffects(None, [], h, 0, 5);
    FoldOfNext(None, [], e);
    ValuesOfNext([], [], e);
  }
}
