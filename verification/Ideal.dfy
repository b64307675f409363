module Ideal {
  // What the metadata are: next to the original's own floats, a second execution of the same steps in high
  // precision.  It is stated without the shadow operations: it reads the program, the original's state and its own.

  import opened Basics
  import opened ShadowSlots
  import opened Shadow

  // ------------------------------------------------------------------ the computed fields

  /** Every temporary's `computed` field is the original's float. */
  ghost predicate Agrees(flts: map<nat, real>, temps: map<nat, Meta>) {
    forall t: nat :: MetaOf(temps, Temp(t)).computed == Val(flts, Temp(t))
  }

  /** ... in every frame. */
  ghost predicate AllAgree(fs: seq<OFrame>, gs: seq<SFrame>) {
    if |fs| == 0 then |gs| == 0
    else |gs| > 0 && Agrees(fs[0].flts, gs[0].temps) && AllAgree(fs[1..], gs[1..])
  }

  ghost predicate Agree(o: Orig, s: SState) { AllAgree(o.frames, s.frames) }

  /** The next step calls an uninstrumented function whose result differs from what the temporary held, for the clone
      is not told the result; or, without the selective check, it loads a float that is not the one last stored. */
  ghost predicate Stale(m: Machine, P: Program, o: Orig, s: SState) {
    |o.frames| > 0 &&
    var f := o.frames[0];
    var ints := Ints(f.regs, o.mem, o.heap);
    match Fetch(P, f.pos)
    case Ins(ICall(target, args, Some(r))) =>
      var t := Reg(ints, target);
      t !in P.addrs && m.lib(t, Vals(f.flts, args), ints).0 != Val(f.flts, Temp(r))
    case Ins(Load(_, addr)) =>
      var a := Reg(ints, addr);
      !m.selective && Slot(a) in s.smem && s.smem[Slot(a)].computed != MemAt(ints, a)
    case _ => false
  }

  lemma AgreesOn(flts: map<nat, real>, temps: map<nat, Meta>, a: Opd)
    requires Agrees(flts, temps)
    ensures MetaOf(temps, a).computed == Val(flts, a)
  {
    if a.Temp? { assert MetaOf(temps, Temp(a.t)).computed == Val(flts, Temp(a.t)); }
  }

  lemma AgreesOnAll(flts: map<nat, real>, temps: map<nat, Meta>, args: seq<Opd>)
    requires Agrees(flts, temps)
    ensures seq(|args|, i requires 0 <= i < |args| => Metas(temps, args)[i].computed) == Vals(flts, args)
  {
    forall i | 0 <= i < |args| ensures Metas(temps, args)[i].computed == Vals(flts, args)[i] {
      AgreesOn(flts, temps, args[i]);
    }
  }

  /** A temporary is set on both sides. */
  lemma AgreesSet(flts: map<nat, real>, temps: map<nat, Meta>, t: nat, v: real, d: Meta)
    requires Agrees(flts, temps)
    ensures Agrees(flts[t := v], temps[t := d]) <==> d.computed == v
  {
    if Agrees(flts[t := v], temps[t := d]) {
      assert MetaOf(temps[t := d], Temp(t)).computed == Val(flts[t := v], Temp(t));
    }
    if d.computed == v {
      forall u: nat ensures MetaOf(temps[t := d], Temp(u)).computed == Val(flts[t := v], Temp(u)) {
        assert MetaOf(temps, Temp(u)).computed == Val(flts, Temp(u));
      }
    }
  }

  /** It is set in the original only. */
  lemma AgreesMissed(flts: map<nat, real>, temps: map<nat, Meta>, t: nat, v: real)
    requires Agrees(flts, temps)
    ensures Agrees(flts[t := v], temps) <==> v == Val(flts, Temp(t))
  {
    assert MetaOf(temps, Temp(t)).computed == Val(flts, Temp(t));
    if Agrees(flts[t := v], temps) { assert MetaOf(temps, Temp(t)).computed == Val(flts[t := v], Temp(t)); }
    if v == Val(flts, Temp(t)) {
      forall u: nat ensures MetaOf(temps, Temp(u)).computed == Val(flts[t := v], Temp(u)) {
        assert MetaOf(temps, Temp(u)).computed == Val(flts, Temp(u));
      }
    }
  }

  lemma AgreesParams(flts: map<nat, real>, temps: map<nat, Meta>, args: seq<Opd>)
    requires Agrees(flts, temps)
    ensures Agrees(Params(Vals(flts, args)), Params(Metas(temps, args)))
  {
    forall t: nat ensures MetaOf(Params(Metas(temps, args)), Temp(t)).computed
      == Val(Params(Vals(flts, args)), Temp(t))
    {
      if t < |args| { AgreesOn(flts, temps, args[t]); }
    }
  }

  /** The running frame changes. */
  lemma AgreeTop(fs: seq<OFrame>, gs: seq<SFrame>, f: OFrame, g: SFrame, fs': seq<OFrame>, gs': seq<SFrame>)
    requires |fs| > 0 && AllAgree(fs, gs) && fs' == [f] + fs[1..] && gs' == [g] + gs[1..]
    ensures AllAgree(fs', gs') <==> Agrees(f.flts, g.temps)
  {
    assert fs'[1..] == fs[1..] && gs'[1..] == gs[1..];
  }

  lemma InstAgrees(m: Machine, P: Program, o: Orig, s: SState, i: Inst)
    requires |o.frames| > 0 && Agree(o, s) && Fetch(P, o.frames[0].pos) == Ins(i) && !i.Call? && !i.ICall?
    ensures Agree(OInst(m, P, o, i).0, LInst(m, P, o, s, i)) <==> !Stale(m, P, o, s)
  {
    var f, g := o.frames[0], s.frames[0];
    var o', s' := OInst(m, P, o, i).0, LInst(m, P, o, s, i);
    AgreeTop(o.frames, s.frames, o'.frames[0], s'.frames[0], o'.frames, s'.frames);
    match i
    case FArith(dst, op, args) =>
      AgreesOnAll(f.flts, g.temps, args);
      AgreesSet(f.flts, g.temps, dst, o'.frames[0].flts[dst], s'.frames[0].temps[dst]);
    case Phi(dst, a) =>
      AgreesOn(f.flts, g.temps, a);
      AgreesSet(f.flts, g.temps, dst, o'.frames[0].flts[dst], s'.frames[0].temps[dst]);
    case Select(dst, _, _, a, b) =>
      AgreesOn(f.flts, g.temps, a);
      AgreesOn(f.flts, g.temps, b);
      AgreesSet(f.flts, g.temps, dst, o'.frames[0].flts[dst], s'.frames[0].temps[dst]);
    case Load(_, _) | Cast(_, _) | LibCall(_, _, _) =>
      AgreesSet(f.flts, g.temps, i.dst, o'.frames[0].flts[i.dst], s'.frames[0].temps[i.dst]);
    case Store(_, _) | FCmp(_, _) | FCmpShared(_, _) | Other(_) =>
  }

  lemma CallAgrees(m: Machine, P: Program, o: Orig, s: SState, i: Inst)
    requires |o.frames| > 0 && Agree(o, s) && Fetch(P, o.frames[0].pos) == Ins(i) && (i.Call? || i.ICall?)
    ensures Agree(OInst(m, P, o, i).0, LInst(m, P, o, s, i)) <==> !Stale(m, P, o, s)
  {
    var f, g := o.frames[0], s.frames[0];
    var o', s' := OInst(m, P, o, i).0, LInst(m, P, o, s, i);
    AgreesParams(f.flts, g.temps, i.args);
    hide Agrees;
    if |o'.frames| == |o.frames| + 1 {
      assert o'.frames[1..] == [o'.frames[1]] + o.frames[1..] && s'.frames[1..] == [s'.frames[1]] + s.frames[1..];
      AgreeTop(o.frames, s.frames, o'.frames[1], s'.frames[1], o'.frames[1..], s'.frames[1..]);
    } else {
      AgreeTop(o.frames, s.frames, o'.frames[0], s'.frames[0], o'.frames, s'.frames);
      if i.ret.Some? { AgreesMissed(f.flts, g.temps, i.ret.value, o'.frames[0].flts[i.ret.value]); }
    }
  }

  lemma TermAgrees(m: Machine, P: Program, o: Orig, s: SState, t: Term)
    requires |o.frames| > 0 && SameControl(o, s) && Agree(o, s)
    ensures Agree(OTerm(m, P, o, t).0, LTerm(m, P, o, s, t))
  {
    var f, g := o.frames[0], s.frames[0];
    var o', s' := OTerm(m, P, o, t).0, LTerm(m, P, o, s, t);
    if !t.Ret? {
      AgreeTop(o.frames, s.frames, o'.frames[0], s'.frames[0], o'.frames, s'.frames);
    } else if |o.frames| == 1 {
      assert AllAgree(o.frames[1..], s.frames[1..]) && o.frames[1..] == [] && s.frames[1..] == [];
    } else if f.ret.Some? && t.a.Some? {
      assert AllAgree(o.frames[1..], s.frames[1..]) && o.frames[1..][0] == o.frames[1]
        && s.frames[1..][0] == s.frames[1];
      AgreesOn(f.flts, g.temps, t.a.value);
      AgreesSet(o.frames[1].flts, s.frames[1].temps, f.ret.value, Val(f.flts, t.a.value), MetaOf(g.temps, t.a.value));
      AgreeTop(o.frames[1..], s.frames[1..], o'.frames[0], s'.frames[0], o'.frames, s'.frames);
    }
  }

  /** One step keeps the agreement exactly if it is not stale. */
  lemma StepAgrees(m: Machine, P: Program, o: Orig, s: SState)
    requires SameControl(o, s) && Agree(o, s)
    ensures Agree(OStep(m, P, o).0, LStep(m, P, o, s)) <==> !Stale(m, P, o, s)
  {
    if |o.frames| > 0 {
      match Fetch(P, o.frames[0].pos)
      case Bad =>
      case Ins(i) => if i.Call? || i.ICall? { CallAgrees(m, P, o, s, i); } else { InstAgrees(m, P, o, s, i); }
      case Trm(t) => TermAgrees(m, P, o, s, t);
    }
  }

  /** No step of the next n is stale. */
  ghost predicate NeverStale(m: Machine, P: Program, o: Orig, s: SState, n: nat)
    decreases n
  {
    n == 0 || (!Stale(m, P, o, s) && NeverStale(m, P, OStep(m, P, o).0, LStep(m, P, o, s), n - 1))
  }

  /** After each of the next n steps original and metadata agree. */
  ghost predicate AlwaysAgree(m: Machine, P: Program, o: Orig, s: SState, n: nat)
    decreases n
  {
    Agree(o, s) && (n == 0 || AlwaysAgree(m, P, OStep(m, P, o).0, LStep(m, P, o, s), n - 1))
  }

  /** Along every lockstep run the computed fields are the original's floats, in every frame and after every step,
      exactly as long as no step is stale. */
  lemma {:induction false} ComputedIsOriginal(m: Machine, P: Program, o: Orig, s: SState, n: nat)
    requires SameControl(o, s) && Agree(o, s)
    ensures AlwaysAgree(m, P, o, s, n) <==> NeverStale(m, P, o, s, n)
    decreases n
  {
    hide OStep, LStep, Agree, Stale;
    if n > 0 {
      StepAgrees(m, P, o, s);
      ControlNext(m, P, o, s);
      if !Stale(m, P, o, s) { ComputedIsOriginal(m, P, OStep(m, P, o).0, LStep(m, P, o, s), n - 1); }
      NotThen(m, P, OStep(m, P, o).0, LStep(m, P, o, s), n - 1);
    }
  }

  lemma NotThen(m: Machine, P: Program, o: Orig, s: SState, n: nat)
    ensures AlwaysAgree(m, P, o, s, n) ==> Agree(o, s)
  {}

  lemma ControlNext(m: Machine, P: Program, o: Orig, s: SState)
    requires SameControl(o, s)
    ensures SameControl(OStep(m, P, o).0, LStep(m, P, o, s))
  {
    StepDecoupled(m, P, OStep(m, P, o).0.entered, o, s, []);
  }

  // ------------------------------------------------------------------ the execution in high precision

  /** A high-precision value, and the operation it came from. */
  datatype HVal = HVal(val: real, opcode: OpCode)

  /** What is stored at an address, and the original's float stored with it. */
  datatype HCell = HCell(v: HVal, stored: real)

  /** One map of temporaries for each of the original's frames, and how many comparisons went the other way. */
  datatype HState = HState(frames: seq<map<nat, HVal>>, mem: map<nat, HCell>, flips: nat)

  ghost function HOf(vals: map<nat, HVal>, a: Opd): HVal {
    match a
    case Temp(t) => if t in vals then vals[t] else HVal(0.0, UNKNOWN)
    case Lit(c) => HVal(c, CONSTANT)
  }

  /** The comparison, if there is one, in high precision: does it differ from the original's outcome? */
  ghost function Differs(m: Machine, vals: map<nat, HVal>, c: Option<Cmp>, outcome: bool): nat {
    match c
    case None => 0
    case Some(Cmp(pred, a, b)) => if m.holds(pred, HOf(vals, a).val, HOf(vals, b).val) == outcome then 0 else 1
  }

  /** The original's next step in high precision, on its own control path and at its own addresses.  What comes from
      library or uninstrumented code, from integers, or from memory that such code has changed, is a constant. */
  ghost function HStep(m: Machine, P: Program, o: Orig, h: HState): HState {
    if |o.frames| == 0 || |h.frames| == 0 then h
    else match Fetch(P, o.frames[0].pos)
      case Bad => h.(frames := [])
      case Ins(i) => HInst(m, P, o, h, i)
      case Trm(t) => HTerm(m, P, o, h, t)
  }

  ghost function HInst(m: Machine, P: Program, o: Orig, h: HState, i: Inst): HState
    requires |o.frames| > 0 && |h.frames| > 0
  {
    var f, top := o.frames[0], h.frames[0];
    var ints := Ints(f.regs, o.mem, o.heap);
    match i
    case FArith(dst, op, args) =>
      SetTop(h, dst, HVal(m.hp(op, seq(|args|, k requires 0 <= k < |args| => HOf(top, args[k]).val)), Result(op)))
    case Phi(dst, a) => SetTop(h, dst, HOf(top, a))
    case Load(dst, addr) =>
      var a := Reg(ints, addr);
      var v := MemAt(ints, a);
      SetTop(h, dst, if a in h.mem && (m.selective ==> h.mem[a].stored == v) then h.mem[a].v else HVal(v, CONSTANT))
    case Store(a, addr) => h.(mem := h.mem[Reg(ints, addr) := HCell(HOf(top, a), Val(f.flts, a))])
    case Cast(dst, src) => SetTop(h, dst, HVal(Reg(ints, src) as real, CONSTANT))
    case FCmp(_, c) => h.(flips :=
      h.flips + Differs(m, top, Some(c), m.holds(c.pred, Val(f.flts, c.a), Val(f.flts, c.b))))
    case FCmpShared(_, _) => h
    case Select(dst, cond, c, a, b) =>
      var taken := Reg(ints, cond) != 0;
      SetTop(h, dst, HOf(top, if taken then a else b)).(flips := h.flips + Differs(m, top, c, taken))
    case Other(_) => h
    case LibCall(dst, id, args) => SetTop(h, dst, HVal(m.lib(id, Vals(f.flts, args), ints).0, CONSTANT))
    case Call(_, args, _) => h.(frames := [Passed(top, args)] + h.frames)
    case ICall(target, args, ret) =>
      var t := Reg(ints, target);
      if t in P.addrs then h.(frames := [Passed(top, args)] + h.frames)
      else if ret.Some? then SetTop(h, ret.value, HVal(m.lib(t, Vals(f.flts, args), ints).0, CONSTANT))
      else h
  }

  ghost function HTerm(m: Machine, P: Program, o: Orig, h: HState, t: Term): HState
    requires |o.frames| > 0 && |h.frames| > 0
  {
    var f, top := o.frames[0], h.frames[0];
    match t
    case Jump(_) => h
    case Br(cond, c, _, _) =>
      h.(flips := h.flips + Differs(m, top, c, Reg(Ints(f.regs, o.mem, o.heap), cond) != 0))
    case Switch(_, _, _) => h
    case Ret(a) =>
      var rest := h.frames[1..];
      if |rest| > 0 && f.ret.Some? && a.Some? then
        h.(frames := [rest[0][f.ret.value := HOf(top, a.value)]] + rest[1..])
      else h.(frames := rest)
  }

  ghost function SetTop(h: HState, t: nat, v: HVal): HState
    requires |h.frames| > 0
  {
    h.(frames := [h.frames[0][t := v]] + h.frames[1..])
  }

  /** Arguments become the first temporaries of the callee. */
  ghost function Passed(top: map<nat, HVal>, args: seq<Opd>): map<nat, HVal> {
    map k: nat | k < |args| :: HOf(top, args[k])
  }

  ghost function HRun(m: Machine, P: Program, o: Orig, h: HState, n: nat): HState
    decreases n
  {
    if n == 0 then h else HRun(m, P, OStep(m, P, o).0, HStep(m, P, o, h), n - 1)
  }

  // ------------------------------------------------------------------ the metadata are that execution

  /** Every temporary's metadata hold its high-precision value and operation. */
  ghost predicate Means(temps: map<nat, Meta>, vals: map<nat, HVal>) {
    forall t: nat :: IsVal(MetaOf(temps, Temp(t)), HOf(vals, Temp(t)))
  }

  ghost predicate IsVal(d: Meta, v: HVal) { d.val == v.val && d.opcode == v.opcode }

  ghost predicate AllMean(gs: seq<SFrame>, hs: seq<map<nat, HVal>>) {
    if |gs| == 0 then |hs| == 0 else |hs| > 0 && Means(gs[0].temps, hs[0]) && AllMean(gs[1..], hs[1..])
  }

  /** No two of the addresses share a slot. */
  ghost predicate Apart(A: set<nat>) { forall a, b :: a in A && b in A && Slot(a) == Slot(b) ==> a == b }

  /** For the addresses A the shadow memory holds what is stored there. */
  ghost predicate MemMeans(smem: map<nat, Meta>, mem: map<nat, HCell>, A: set<nat>) {
    && mem.Keys <= A
    && forall a :: a in A ==>
         && (Slot(a) in smem <==> a in mem)
         && (a in mem ==> IsVal(smem[Slot(a)], mem[a].v) && smem[Slot(a)].computed == mem[a].stored)
  }

  /** The shadow state is the high-precision execution next to the original's floats. */
  ghost predicate Is(m: Machine, o: Orig, s: SState, h: HState, A: set<nat>) {
    Agree(o, s) && AllMean(s.frames, h.frames) && s.flips == h.flips && MemMeans(s.smem, h.mem, A)
  }

  /** The next step accesses no address outside A. */
  ghost predicate Within(P: Program, o: Orig, A: set<nat>) {
    |o.frames| > 0 ==>
      var f := o.frames[0];
      match Fetch(P, f.pos)
      case Ins(Load(_, addr)) => Reg(Ints(f.regs, o.mem, o.heap), addr) in A
      case Ins(Store(_, addr)) => Reg(Ints(f.regs, o.mem, o.heap), addr) in A
      case _ => true
  }

  /** The metadata follow the next step.  A result of an uninstrumented function, which the clone is not told, is what
      the temporary held already; and without the selective check a load finds the float that was last stored. */
  ghost predicate Follows(m: Machine, P: Program, o: Orig, h: HState) {
    |o.frames| > 0 && |h.frames| > 0 ==>
      var f := o.frames[0];
      var ints := Ints(f.regs, o.mem, o.heap);
      match Fetch(P, f.pos)
      case Ins(ICall(target, args, Some(r))) =>
        var t := Reg(ints, target);
        var v := m.lib(t, Vals(f.flts, args), ints).0;
        t !in P.addrs ==> Val(f.flts, Temp(r)) == v && HOf(h.frames[0], Temp(r)) == HVal(v, CONSTANT)
      case Ins(Load(_, addr)) =>
        var a := Reg(ints, addr);
        m.selective || (a in h.mem ==> h.mem[a].stored == MemAt(ints, a))
      case _ => true
  }

  lemma MeansOn(temps: map<nat, Meta>, vals: map<nat, HVal>, a: Opd)
    requires Means(temps, vals)
    ensures IsVal(MetaOf(temps, a), HOf(vals, a))
  {
    if a.Temp? { assert IsVal(MetaOf(temps, Temp(a.t)), HOf(vals, Temp(a.t))); }
  }

  lemma MeansOnAll(temps: map<nat, Meta>, vals: map<nat, HVal>, args: seq<Opd>)
    requires Means(temps, vals)
    ensures seq(|args|, i requires 0 <= i < |args| => Metas(temps, args)[i].val)
         == seq(|args|, k requires 0 <= k < |args| => HOf(vals, args[k]).val)
  {
    forall i | 0 <= i < |args| ensures Metas(temps, args)[i].val == HOf(vals, args[i]).val {
      MeansOn(temps, vals, args[i]);
    }
  }

  lemma MeansSet(temps: map<nat, Meta>, vals: map<nat, HVal>, t: nat, d: Meta, v: HVal)
    requires Means(temps, vals) && IsVal(d, v)
    ensures Means(temps[t := d], vals[t := v])
  {
    forall u: nat ensures IsVal(MetaOf(temps[t := d], Temp(u)), HOf(vals[t := v], Temp(u))) {
      assert IsVal(MetaOf(temps, Temp(u)), HOf(vals, Temp(u)));
    }
  }

  lemma MeansParams(temps: map<nat, Meta>, vals: map<nat, HVal>, args: seq<Opd>)
    requires Means(temps, vals)
    ensures Means(Params(Metas(temps, args)), Passed(vals, args))
  {
    forall t: nat ensures IsVal(MetaOf(Params(Metas(temps, args)), Temp(t)), HOf(Passed(vals, args), Temp(t))) {
      if t < |args| { MeansOn(temps, vals, args[t]); }
    }
  }

  lemma DiffersIs(m: Machine, temps: map<nat, Meta>, vals: map<nat, HVal>, c: Option<Cmp>, outcome: bool)
    requires Means(temps, vals)
    ensures Flips(m, temps, c, outcome) == Differs(m, vals, c, outcome)
  {
    if c.Some? {
      MeansOn(temps, vals, c.value.a);
      MeansOn(temps, vals, c.value.b);
    }
  }

  lemma MeanTop(gs: seq<SFrame>, hs: seq<map<nat, HVal>>, g: SFrame, v: map<nat, HVal>, gs': seq<SFrame>,
                hs': seq<map<nat, HVal>>)
    requires |gs| > 0 && AllMean(gs, hs) && gs' == [g] + gs[1..] && hs' == [v] + hs[1..]
    ensures AllMean(gs', hs') <==> Means(g.temps, v)
  {
    assert gs'[1..] == gs[1..] && hs'[1..] == hs[1..];
  }

  lemma LoadMeans(m: Machine, smem: map<nat, Meta>, mem: map<nat, HCell>, A: set<nat>, a: nat, v: real)
    requires MemMeans(smem, mem, A) && a in A
    ensures IsVal(LoadMeta(m.selective, smem, a, v),
                  if a in mem && (m.selective ==> mem[a].stored == v) then mem[a].v else HVal(v, CONSTANT))
  {}

  lemma StoreMeans(smem: map<nat, Meta>, mem: map<nat, HCell>, A: set<nat>, a: nat, d: Meta, c: HCell)
    requires MemMeans(smem, mem, A) && a in A && Apart(A) && IsVal(d, c.v) && d.computed == c.stored
    ensures MemMeans(smem[Slot(a) := d], mem[a := c], A)
  {
    var smem', mem' := smem[Slot(a) := d], mem[a := c];
    forall b | b in A
      ensures (Slot(b) in smem' <==> b in mem')
           && (b in mem' ==> IsVal(smem'[Slot(b)], mem'[b].v) && smem'[Slot(b)].computed == mem'[b].stored)
    {
      assert Slot(b) == Slot(a) ==> b == a;
    }
  }

  lemma InstMeans(m: Machine, P: Program, o: Orig, s: SState, h: HState, i: Inst, A: set<nat>)
    requires |o.frames| > 0 && |s.frames| > 0 && |h.frames| > 0 && Is(m, o, s, h, A) && Apart(A)
    requires Fetch(P, o.frames[0].pos) == Ins(i) && Within(P, o, A) && !i.Call? && !i.ICall?
    ensures var s', h' := LInst(m, P, o, s, i), HInst(m, P, o, h, i);
      AllMean(s'.frames, h'.frames) && s'.flips == h'.flips && MemMeans(s'.smem, h'.mem, A)
  {
    var f, g, top := o.frames[0], s.frames[0], h.frames[0];
    var ints := Ints(f.regs, o.mem, o.heap);
    var s', h' := LInst(m, P, o, s, i), HInst(m, P, o, h, i);
    assert h.frames == [top] + h.frames[1..];
    match i
    case FArith(dst, op, args) =>
      MeansOnAll(g.temps, top, args);
      MeansSet(g.temps, top, dst, s'.frames[0].temps[dst], h'.frames[0][dst]);
    case Phi(dst, a) =>
      MeansOn(g.temps, top, a);
      MeansSet(g.temps, top, dst, s'.frames[0].temps[dst], h'.frames[0][dst]);
    case Load(dst, addr) =>
      LoadMeans(m, s.smem, h.mem, A, Reg(ints, addr), MemAt(ints, Reg(ints, addr)));
      MeansSet(g.temps, top, dst, s'.frames[0].temps[dst], h'.frames[0][dst]);
    case Store(a, addr) =>
      MeansOn(g.temps, top, a);
      AgreesOn(f.flts, g.temps, a);
      StoreMeans(s.smem, h.mem, A, Reg(ints, addr), MetaOf(g.temps, a), HCell(HOf(top, a), Val(f.flts, a)));
    case Select(dst, cond, c, a, b) =>
      MeansOn(g.temps, top, a);
      MeansOn(g.temps, top, b);
      DiffersIs(m, g.temps, top, c, Reg(ints, cond) != 0);
      MeansSet(g.temps, top, dst, s'.frames[0].temps[dst], h'.frames[0][dst]);
    case FCmp(_, c) => DiffersIs(m, g.temps, top, Some(c), CmpVal(m, f.flts, c));
    case Cast(_, _) | LibCall(_, _, _) =>
      MeansSet(g.temps, top, i.dst, s'.frames[0].temps[i.dst], h'.frames[0][i.dst]);
    case FCmpShared(_, _) | Other(_) =>
    MeanTop(s.frames, h.frames, s'.frames[0], h'.frames[0], s'.frames, h'.frames);
  }

  /** A temporary is set in the high-precision execution only. */
  lemma MeansMissed(temps: map<nat, Meta>, vals: map<nat, HVal>, t: nat, v: HVal)
    requires Means(temps, vals)
    ensures Means(temps, vals[t := v]) <==> HOf(vals, Temp(t)) == v
  {
    assert IsVal(MetaOf(temps, Temp(t)), HOf(vals, Temp(t)));
    if Means(temps, vals[t := v]) { assert IsVal(MetaOf(temps, Temp(t)), HOf(vals[t := v], Temp(t))); }
    if HOf(vals, Temp(t)) == v {
      forall u: nat ensures IsVal(MetaOf(temps, Temp(u)), HOf(vals[t := v], Temp(u))) {
        assert IsVal(MetaOf(temps, Temp(u)), HOf(vals, Temp(u)));
      }
    }
  }

  lemma CallMeans(m: Machine, P: Program, o: Orig, s: SState, h: HState, i: Inst, A: set<nat>)
    requires |o.frames| > 0 && |s.frames| > 0 && |h.frames| > 0 && Is(m, o, s, h, A)
    requires Fetch(P, o.frames[0].pos) == Ins(i) && (i.Call? || i.ICall?) && !Stale(m, P, o, s)
    ensures var s', h' := LInst(m, P, o, s, i), HInst(m, P, o, h, i);
      (AllMean(s'.frames, h'.frames) <==> Follows(m, P, o, h)) && s'.flips == h'.flips && MemMeans(s'.smem, h'.mem, A)
  {
    var f, g, top := o.frames[0], s.frames[0], h.frames[0];
    var s', h' := LInst(m, P, o, s, i), HInst(m, P, o, h, i);
    assert h.frames == [top] + h.frames[1..];
    MeansParams(g.temps, top, i.args);
    if |s'.frames| == |s.frames| + 1 {
      assert s'.frames[1..] == [s'.frames[1]] + s.frames[1..] && h'.frames[1..] == h.frames;
      MeanTop(s.frames, h.frames, s'.frames[1], top, s'.frames[1..], h'.frames[1..]);
    } else {
      MeanTop(s.frames, h.frames, s'.frames[0], h'.frames[0], s'.frames, h'.frames);
      if i.ret.Some? { MeansMissed(g.temps, top, i.ret.value, h'.frames[0][i.ret.value]); }
    }
  }

  lemma TermMeans(m: Machine, P: Program, o: Orig, s: SState, h: HState, t: Term, A: set<nat>)
    requires |o.frames| > 0 && |s.frames| > 0 && |h.frames| > 0 && Is(m, o, s, h, A) && SameControl(o, s)
    ensures var s', h' := LTerm(m, P, o, s, t), HTerm(m, P, o, h, t);
      AllMean(s'.frames, h'.frames) && s'.flips == h'.flips && MemMeans(s'.smem, h'.mem, A)
  {
    var f, g, top := o.frames[0], s.frames[0], h.frames[0];
    var s', h' := LTerm(m, P, o, s, t), HTerm(m, P, o, h, t);
    assert h.frames == [top] + h.frames[1..];
    if !t.Ret? {
      if t.Br? { DiffersIs(m, g.temps, top, t.cmp, Reg(Ints(f.regs, o.mem, o.heap), t.cond) != 0); }
      MeanTop(s.frames, h.frames, s'.frames[0], top, s'.frames, h'.frames);
    } else if |s.frames| == 1 {
      assert AllMean(s.frames[1..], h.frames[1..]) && s.frames[1..] == [] && h.frames[1..] == [];
    } else {
      assert AllMean(s.frames[1..], h.frames[1..]) && s.frames[1..][0] == s.frames[1];
      if g.ret.Some? && t.a.Some? {
        MeansOn(g.temps, top, t.a.value);
        MeansSet(s.frames[1].temps, h.frames[1], g.ret.value, MetaOf(g.temps, t.a.value), HOf(top, t.a.value));
        MeanTop(s.frames[1..], h.frames[1..], s'.frames[0], h'.frames[0], s'.frames, h'.frames);
      }
    }
  }

  /** One step: the metadata stay what the high-precision execution has exactly if they follow it. */
  lemma StepMeans(m: Machine, P: Program, o: Orig, s: SState, h: HState, A: set<nat>)
    requires SameControl(o, s) && Is(m, o, s, h, A) && Apart(A) && Within(P, o, A)
    ensures Is(m, OStep(m, P, o).0, LStep(m, P, o, s), HStep(m, P, o, h), A) <==> Follows(m, P, o, h)
  {
    StepAgrees(m, P, o, s);
    if |o.frames| > 0 {
      AgreesTop(o, s);
      match Fetch(P, o.frames[0].pos)
      case Bad =>
      case Ins(i) =>
        if i.Call? || i.ICall? {
          if !Stale(m, P, o, s) { CallMeans(m, P, o, s, h, i, A); }
        } else {
          InstMeans(m, P, o, s, h, i, A);
        }
      case Trm(t) => TermMeans(m, P, o, s, h, t, A);
    }
  }

  lemma AgreesTop(o: Orig, s: SState)
    requires Agree(o, s) && |o.frames| > 0
    ensures |s.frames| > 0 && Agrees(o.frames[0].flts, s.frames[0].temps)
  {}

  // ------------------------------------------------------------------ runs

  ghost predicate AlwaysIs(m: Machine, P: Program, o: Orig, s: SState, h: HState, A: set<nat>, n: nat)
    decreases n
  {
    Is(m, o, s, h, A)
    && (n == 0 || AlwaysIs(m, P, OStep(m, P, o).0, LStep(m, P, o, s), HStep(m, P, o, h), A, n - 1))
  }

  ghost predicate AlwaysFollows(m: Machine, P: Program, o: Orig, h: HState, n: nat)
    decreases n
  {
    n == 0 || (Follows(m, P, o, h) && AlwaysFollows(m, P, OStep(m, P, o).0, HStep(m, P, o, h), n - 1))
  }

  ghost predicate AlwaysWithin(m: Machine, P: Program, o: Orig, A: set<nat>, n: nat)
    decreases n
  {
    n == 0 || (Within(P, o, A) && AlwaysWithin(m, P, OStep(m, P, o).0, A, n - 1))
  }

  /** Along every lockstep run whose addresses do not share slots, the metadata of every temporary in every frame, the
      shadow memory and the count of flipped comparisons are, after every step, those of the high-precision execution
      next to the original's floats, exactly as long as each step is followed. */
  lemma {:induction false} MetadataAreIdeal(m: Machine, P: Program, o: Orig, s: SState, h: HState, A: set<nat>, n: nat)
    requires SameControl(o, s) && Is(m, o, s, h, A) && Apart(A) && AlwaysWithin(m, P, o, A, n)
    ensures AlwaysIs(m, P, o, s, h, A, n) <==> AlwaysFollows(m, P, o, h, n)
    decreases n
  {
    hide OStep, LStep, HStep, Is, Follows, Within, Apart;
    if n > 0 {
      StepMeans(m, P, o, s, h, A);
      ControlNext(m, P, o, s);
      if Follows(m, P, o, h) {
        MetadataAreIdeal(m, P, OStep(m, P, o).0, LStep(m, P, o, s), HStep(m, P, o, h), A, n - 1);
      }
      IsThen(m, P, OStep(m, P, o).0, LStep(m, P, o, s), HStep(m, P, o, h), A, n - 1);
    }
  }

  lemma IsThen(m: Machine, P: Program, o: Orig, s: SState, h: HState, A: set<nat>, n: nat)
    ensures AlwaysIs(m, P, o, s, h, A, n) ==> Is(m, o, s, h, A)
  {}

  lemma {:induction false} IsAtEnd(m: Machine, P: Program, o: Orig, s: SState, h: HState, A: set<nat>, n: nat)
    requires AlwaysIs(m, P, o, s, h, A, n)
    ensures Is(m, ORun(m, P, o, n).0, LRun(m, P, o, s, n), HRun(m, P, o, h, n), A)
    decreases n
  {
    hide OStep, LStep, HStep, Is;
    if n > 0 { IsAtEnd(m, P, OStep(m, P, o).0, LStep(m, P, o, s), HStep(m, P, o, h), A, n - 1); }
  }

  /** A slice starts with its float arguments as constants. */
  ghost function HStart(vals: seq<real>, mem: map<nat, HCell>): HState {
    HState([map k: nat | k < |vals| :: HVal(vals[k], CONSTANT)], mem, 0)
  }

  lemma StartIs(m: Machine, P: Program, sl: SliceRun, mem: map<nat, HCell>, A: set<nat>)
    requires ValidSlice(m, P, sl) && MemMeans(sl.smem, mem, A)
    ensures Is(m, sl.start, SliceShadow(sl.fn, PushedArgs(sl.args), sl.smem), HStart(PushedArgs(sl.args), mem), A)
    ensures SameControl(sl.start, SliceShadow(sl.fn, PushedArgs(sl.args), sl.smem))
  {
    var vals := PushedArgs(sl.args);
    var s, h := SliceShadow(sl.fn, vals, sl.smem), HStart(vals, mem);
    var f, g := sl.start.frames[0], SFrame(Pos(sl.fn, 0, 0), None, Params(ConstMetas(vals)));
    assert s.frames == [g] && s.frames[1..] == [] && sl.start.frames[1..] == [] && h.frames[1..] == [];
    assert Agrees(f.flts, g.temps);
    assert Means(g.temps, h.frames[0]);
    assert SamePlaces(sl.start.frames[1..], s.frames[1..]);
  }

  /** A slice's shadow, fed with what the slice pushed, comes to what a high-precision execution of the slice comes to:
      as many comparisons went the other way, and the shadow memory holds what it stored. */
  lemma SliceIsIdeal(m: Machine, P: Program, sl: SliceRun, mem: map<nat, HCell>, A: set<nat>)
    requires ValidSlice(m, P, sl) && MemMeans(sl.smem, mem, A)
    requires Apart(A) && AlwaysWithin(m, P, sl.start, A, sl.steps)
    requires AlwaysFollows(m, P, sl.start, HStart(PushedArgs(sl.args), mem), sl.steps)
    ensures var end := CloneRun(m, P, sl, Stream(m, P, sl), sl.steps);
      var ideal := HRun(m, P, sl.start, HStart(PushedArgs(sl.args), mem), sl.steps);
      end.Some? && end.value.0.flips == ideal.flips && MemMeans(end.value.0.smem, ideal.mem, A)
  {
    hide OStep, LStep, HStep, ORun, LRun, HRun, AlwaysWithin, AlwaysFollows, AlwaysIs, Apart, MemMeans;
    var s, h := SliceShadow(sl.fn, PushedArgs(sl.args), sl.smem), HStart(PushedArgs(sl.args), mem);
    SliceDecoupled(m, P, sl);
    StartIs(m, P, sl, mem, A);
    MetadataAreIdeal(m, P, sl.start, s, h, A, sl.steps);
    IsAtEnd(m, P, sl.start, s, h, A, sl.steps);
  }

  /** Addresses of different words in one window of as many words as the table has slots share no slots. */
  lemma WindowApart(A: set<nat>, base: nat)
    requires forall a :: a in A ==> InWindow(base, a)
    requires forall a, b :: a in A && b in A && a / 4 == b / 4 ==> a == b
    ensures Apart(A)
  {
    forall a, b | a in A && b in A && Slot(a) == Slot(b) ensures a == b { SlotInjective(base, a, b); }
  }
}
