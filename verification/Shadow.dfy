module Shadow {
  // The instrumentation pass (llvm-pass/FPSan/FPSanitizer.cpp): the original function is made to
  // push what its clone cannot recompute, and the clone, stripped of everything but floating-point
  // metadata, reads it back.  Three interpreters over one small IR: the instrumented original, the
  // shadow clone fed from a stream, and the lockstep reference that runs the shadow operation next
  // to each original instruction with the original's own operands at hand.

  import opened Basics
  import opened ShadowSlots

  // ------------------------------------------------------------------ the IR

  datatype FOp = FAdd | FSub | FMul | FDiv | FNeg | MathFn(id: nat)

  /** A floating-point operand: a temporary or a literal. */
  datatype Opd = Temp(t: nat) | Lit(c: real)

  /** A comparison whose result is used by a branch or select, which then carries the push. */
  datatype Cmp = Cmp(pred: nat, a: Opd, b: Opd)

  datatype Inst =
    | FArith(dst: nat, op: FOp, args: seq<Opd>)
    | Phi(dst: nat, a: Opd)
    | Load(dst: nat, addr: nat)
    | Store(a: Opd, addr: nat)
    | Cast(dst: nat, src: nat)
    | FCmp(reg: nat, cmp: Cmp)
    | FCmpShared(reg: nat, cmp: Cmp)
    | Select(dst: nat, cond: nat, fcmp: Option<Cmp>, a: Opd, b: Opd)
    | Other(k: nat)
    | LibCall(dst: nat, id: nat, args: seq<Opd>)
    | Call(fn: nat, args: seq<Opd>, ret: Option<nat>)
    | ICall(target: nat, args: seq<Opd>, ret: Option<nat>)

  datatype Term =
    | Jump(to: nat)
    | Br(cond: nat, cmp: Option<Cmp>, yes: nat, no: nat)
    | Switch(v: nat, cases: map<nat, nat>, other: nat)
    | Ret(a: Option<Opd>)

  datatype Block = Block(insts: seq<Inst>, term: Term)

  datatype Kind = FloatParam | OtherParam

  /** In a frame the float parameters are the first temporaries; the others are in the original's registers. */
  datatype Function = Function(params: seq<Kind>, returnsFloat: bool, blocks: seq<Block>)

  /** `addrs` maps the address of each instrumented function to its number. */
  datatype Program = Program(funs: seq<Function>, addrs: map<nat, nat>)

  datatype Pos = Pos(fn: nat, blk: nat, idx: nat)

  datatype Code = Ins(i: Inst) | Trm(t: Term) | Bad

  function Fetch(P: Program, pos: Pos): Code {
    if pos.fn >= |P.funs| || pos.blk >= |P.funs[pos.fn].blocks| then Bad
    else
      var b := P.funs[pos.fn].blocks[pos.blk];
      if pos.idx < |b.insts| then Ins(b.insts[pos.idx]) else Trm(b.term)
  }

  function Bump(pos: Pos): Pos { pos.(idx := pos.idx + 1) }

  function Goto(pos: Pos, b: nat): Pos { Pos(pos.fn, b, 0) }

  function SwitchTarget(cases: map<nat, nat>, other: nat, v: nat): nat {
    if v in cases then cases[v] else other
  }

  // ------------------------------------------------------------------ the machine the IR runs on

  /** Integer registers, memory holding floats, and all other memory. */
  datatype Ints = Ints(regs: map<nat, nat>, mem: map<nat, real>, heap: map<nat, nat>)

  /** What is not part of the model: machine arithmetic `fl`, high-precision arithmetic `hp`,
      comparison, all non-float code, and library functions (which may change memory). */
  datatype Machine = Machine(
    fl: (FOp, seq<real>) -> real,
    hp: (FOp, seq<real>) -> real,
    holds: (nat, real, real) -> bool,
    other: (nat, Ints, map<nat, real>) -> Ints,
    lib: (nat, seq<real>, Ints) -> (real, Ints),
    selective: bool)

  function Reg(ints: Ints, r: nat): nat { if r in ints.regs then ints.regs[r] else 0 }

  function MemAt(ints: Ints, a: nat): real { if a in ints.mem then ints.mem[a] else 0.0 }

  function Bit(b: bool): nat { if b then 1 else 0 }

  /** UIToFP of addresses, conditions and switch values, and FPToUI on the other side. */
  function ToDouble(n: nat): real { n as real }

  function FromDouble(x: real): nat { if x < 0.0 then 0 else x.Floor }

  lemma ToDoubleExact(n: nat)
    ensures FromDouble(ToDouble(n)) == n
  {}

  // ------------------------------------------------------------------ the instrumented original

  datatype OFrame = OFrame(pos: Pos, ret: Option<nat>, regs: map<nat, nat>, flts: map<nat, real>)

  /** `entered` are the function addresses put into clone_func_map so far. */
  datatype Orig = Orig(frames: seq<OFrame>, mem: map<nat, real>, heap: map<nat, nat>, entered: set<nat>)

  function Val(flts: map<nat, real>, a: Opd): real {
    match a
    case Temp(t) => if t in flts then flts[t] else 0.0
    case Lit(c) => c
  }

  function Vals(flts: map<nat, real>, args: seq<Opd>): (r: seq<real>)
    ensures |r| == |args|
  {
    seq(|args|, i requires 0 <= i < |args| => Val(flts, args[i]))
  }

  function Params<T>(vals: seq<T>): map<nat, T> {
    map i: nat | i < |vals| :: vals[i]
  }

  function IntsOf(o: Orig, f: OFrame): Ints { Ints(f.regs, o.mem, o.heap) }

  function CmpVal(m: Machine, flts: map<nat, real>, c: Cmp): bool {
    m.holds(c.pred, Val(flts, c.a), Val(flts, c.b))
  }

  /** One step of the instrumented original, with the values it pushes. */
  function OStep(m: Machine, P: Program, o: Orig): (Orig, seq<real>) {
    if o.frames == [] then (o, [])
    else match Fetch(P, o.frames[0].pos)
      case Bad => (o.(frames := []), [])
      case Ins(i) => OInst(m, P, o, i)
      case Trm(t) => OTerm(m, P, o, t)
  }

  function OInst(m: Machine, P: Program, o: Orig, i: Inst): (Orig, seq<real>)
    requires o.frames != []
  {
    var f := o.frames[0].(pos := Bump(o.frames[0].pos));
    var rest := o.frames[1..];
    var setF := (t: nat, v: real) => o.(frames := [f.(flts := f.flts[t := v])] + rest);
    match i
    case FArith(dst, op, args) => (setF(dst, m.fl(op, Vals(f.flts, args))), [])
    case Phi(dst, a) => (setF(dst, Val(f.flts, a)), [])
    case Load(dst, addr) =>
      var a := Reg(IntsOf(o, f), addr);
      var v := MemAt(IntsOf(o, f), a);
      (setF(dst, v), [ToDouble(a), v])
    case Store(a, addr) =>
      var at := Reg(IntsOf(o, f), addr);
      (o.(frames := [f] + rest, mem := o.mem[at := Val(f.flts, a)]), [ToDouble(at)])
    case Cast(dst, src) =>
      var v := ToDouble(Reg(IntsOf(o, f), src));
      (setF(dst, v), [v])
    case FCmp(reg, c) =>
      var r := Bit(CmpVal(m, f.flts, c));
      (o.(frames := [f.(regs := f.regs[reg := r])] + rest), [ToDouble(r)])
    case FCmpShared(reg, c) =>
      var r := Bit(CmpVal(m, f.flts, c));
      (o.(frames := [f.(regs := f.regs[reg := r])] + rest), [])
    case Select(dst, cond, _, a, b) =>
      var c := Bit(Reg(IntsOf(o, f), cond) != 0);
      (setF(dst, if c != 0 then Val(f.flts, a) else Val(f.flts, b)), [ToDouble(c)])
    case Other(k) =>
      var n := m.other(k, IntsOf(o, f), f.flts);
      (Orig([f.(regs := n.regs)] + rest, n.mem, n.heap, o.entered), [])
    case LibCall(dst, id, args) =>
      var (v, n) := m.lib(id, Vals(f.flts, args), IntsOf(o, f));
      (Orig([f.(regs := n.regs, flts := f.flts[dst := v])] + rest, n.mem, n.heap, o.entered), [v])
    case Call(fn, args, ret) =>
      (o.(frames := [OFrame(Pos(fn, 0, 0), ret, map[], Params(Vals(f.flts, args)))] + [f] + rest), [])
    case ICall(target, args, ret) =>
      var t := Reg(IntsOf(o, f), target);
      if t in P.addrs then
        (o.(frames := [OFrame(Pos(P.addrs[t], 0, 0), ret, map[], Params(Vals(f.flts, args)))] + [f] + rest,
            entered := o.entered + {t}), [ToDouble(t)])
      else
        var (v, n) := m.lib(t, Vals(f.flts, args), IntsOf(o, f));
        (Orig([f.(regs := n.regs, flts := if ret.Some? then f.flts[ret.value := v] else f.flts)] + rest,
              n.mem, n.heap, o.entered), [ToDouble(t)])
  }

  function OTerm(m: Machine, P: Program, o: Orig, t: Term): (Orig, seq<real>)
    requires o.frames != []
  {
    var f := o.frames[0];
    var rest := o.frames[1..];
    var jump := (b: nat) => o.(frames := [f.(pos := Goto(f.pos, b))] + rest);
    match t
    case Jump(b) => (jump(b), [])
    case Br(cond, _, yes, no) =>
      var c := Bit(Reg(IntsOf(o, f), cond) != 0);
      (jump(if c != 0 then yes else no), [ToDouble(c)])
    case Switch(v, cases, other) =>
      var x := Reg(IntsOf(o, f), v);
      (jump(SwitchTarget(cases, other, x)), [ToDouble(x)])
    case Ret(a) =>
      if rest != [] && f.ret.Some? && a.Some? then
        (o.(frames := [rest[0].(flts := rest[0].flts[f.ret.value := Val(f.flts, a.value)])] + rest[1..]), [])
      else (o.(frames := rest), [])
  }

  // ------------------------------------------------------------------ shadow state

  datatype OpCode = CONSTANT | UNKNOWN | Result(op: FOp)

  /** The metadata of a temporary or a shadow memory entry. */
  datatype Meta = Meta(val: real, computed: real, opcode: OpCode)

  datatype SFrame = SFrame(pos: Pos, ret: Option<nat>, temps: map<nat, Meta>)

  datatype SState = SState(frames: seq<SFrame>, smem: map<nat, Meta>, flips: nat)

  /** fpsanx_store_tempmeta_dconst_val and its relatives. */
  function ConstMeta(v: real): Meta { Meta(v, v, CONSTANT) }

  function MetaOf(temps: map<nat, Meta>, a: Opd): Meta {
    match a
    case Temp(t) => if t in temps then temps[t] else Meta(0.0, 0.0, UNKNOWN)
    case Lit(c) => ConstMeta(c)
  }

  function Metas(temps: map<nat, Meta>, args: seq<Opd>): (r: seq<Meta>)
    ensures |r| == |args|
  {
    seq(|args|, i requires 0 <= i < |args| => MetaOf(temps, args[i]))
  }

  /** m_compute: the clone recomputes the machine result from the operands' `computed` fields. */
  function Compute(m: Machine, op: FOp, args: seq<Meta>): Meta {
    Meta(m.hp(op, seq(|args|, i requires 0 <= i < |args| => args[i].val)),
         m.fl(op, seq(|args|, i requires 0 <= i < |args| => args[i].computed)), Result(op))
  }

  /** fpsan_load_shadow_d. */
  function LoadMeta(selective: bool, smem: map<nat, Meta>, a: nat, v: real): Meta {
    if Slot(a) !in smem then ConstMeta(v)
    else if selective && v != smem[Slot(a)].computed then ConstMeta(v)
    else smem[Slot(a)]
  }

  /** fpsan_check_branch_d: does the high-precision comparison go the other way? */
  function Flips(m: Machine, temps: map<nat, Meta>, c: Option<Cmp>, computed: bool): nat {
    if c.Some? && m.holds(c.value.pred, MetaOf(temps, c.value.a).val, MetaOf(temps, c.value.b).val) != computed
    then 1 else 0
  }

  // ------------------------------------------------------------------ the lockstep reference

  /** The shadow operation of the original's next step, given the original's own state. */
  function LStep(m: Machine, P: Program, o: Orig, s: SState): SState {
    if o.frames == [] || s.frames == [] then s
    else match Fetch(P, o.frames[0].pos)
      case Bad => s.(frames := [])
      case Ins(i) => LInst(m, P, o, s, i)
      case Trm(t) => LTerm(m, P, o, s, t)
  }

  function LInst(m: Machine, P: Program, o: Orig, s: SState, i: Inst): SState
    requires o.frames != [] && s.frames != []
  {
    var f := o.frames[0];
    var ints := IntsOf(o, f);
    var g := s.frames[0].(pos := Bump(s.frames[0].pos));
    var rest := s.frames[1..];
    var setT := (t: nat, d: Meta) => s.(frames := [g.(temps := g.temps[t := d])] + rest);
    match i
    case FArith(dst, op, args) => setT(dst, Compute(m, op, Metas(g.temps, args)))
    case Phi(dst, a) => setT(dst, MetaOf(g.temps, a))
    case Load(dst, addr) => setT(dst, LoadMeta(m.selective, s.smem, Reg(ints, addr), MemAt(ints, Reg(ints, addr))))
    case Store(a, addr) =>
      s.(frames := [g] + rest, smem := s.smem[Slot(Reg(ints, addr)) := MetaOf(g.temps, a)])
    case Cast(dst, src) => setT(dst, ConstMeta(Reg(ints, src) as real))
    case FCmp(_, c) =>
      s.(frames := [g] + rest, flips := s.flips + Flips(m, g.temps, Some(c), CmpVal(m, f.flts, c)))
    case FCmpShared(_, _) => s.(frames := [g] + rest)
    case Select(dst, cond, c, a, b) =>
      var taken := Reg(ints, cond) != 0;
      setT(dst, if taken then MetaOf(g.temps, a) else MetaOf(g.temps, b))
        .(flips := s.flips + Flips(m, g.temps, c, taken))
    case Other(_) => s.(frames := [g] + rest)
    case LibCall(dst, id, args) => setT(dst, ConstMeta(m.lib(id, Vals(f.flts, args), ints).0))
    case Call(fn, args, ret) =>
      s.(frames := [SFrame(Pos(fn, 0, 0), ret, Params(Metas(g.temps, args)))] + [g] + rest)
    case ICall(target, args, ret) =>
      var t := Reg(ints, target);
      if t in P.addrs then
        s.(frames := [SFrame(Pos(P.addrs[t], 0, 0), ret, Params(Metas(g.temps, args)))] + [g] + rest)
      else s.(frames := [g] + rest)
  }

  function LTerm(m: Machine, P: Program, o: Orig, s: SState, t: Term): SState
    requires o.frames != [] && s.frames != []
  {
    var ints := IntsOf(o, o.frames[0]);
    var g := s.frames[0];
    var rest := s.frames[1..];
    match t
    case Jump(b) => s.(frames := [g.(pos := Goto(g.pos, b))] + rest)
    case Br(cond, c, yes, no) =>
      var taken := Reg(ints, cond) != 0;
      s.(frames := [g.(pos := Goto(g.pos, if taken then yes else no))] + rest,
         flips := s.flips + Flips(m, g.temps, c, taken))
    case Switch(v, cases, other) =>
      s.(frames := [g.(pos := Goto(g.pos, SwitchTarget(cases, other, Reg(ints, v))))] + rest)
    case Ret(a) =>
      if rest != [] && g.ret.Some? && a.Some? then
        s.(frames := [rest[0].(temps := rest[0].temps[g.ret.value := MetaOf(g.temps, a.value)])] + rest[1..])
      else s.(frames := rest)
  }

  // ------------------------------------------------------------------ the shadow clone

  /** The clone's next state and what is left of its input; None when it asks for a value that is not there. */
  function SStep(m: Machine, P: Program, clones: set<nat>, s: SState, input: seq<real>): Option<(SState, seq<real>)> {
    if s.frames == [] then Some((s, input))
    else match Fetch(P, s.frames[0].pos)
      case Bad => Some((s.(frames := []), input))
      case Ins(i) => if |input| < InstReads(i)
        then None else Some((SInst(m, P, clones, s, i, input), input[InstReads(i)..]))
      case Trm(t) => if |input| < TermReads(t) then None else Some((STerm(m, P, s, t, input), input[TermReads(t)..]))
  }

  /** How many calls of readFromBuf the pass puts in for an instruction. */
  function InstReads(i: Inst): nat {
    match i
    case Load(_, _) => 2
    case Store(_, _) | Cast(_, _) | FCmp(_, _) | Select(_, _, _, _, _) | LibCall(_, _, _) | ICall(_, _, _) => 1
    case _ => 0
  }

  function TermReads(t: Term): nat { if t.Br? || t.Switch? then 1 else 0 }

  function SInst(m: Machine, P: Program, clones: set<nat>, s: SState, i: Inst, input: seq<real>): SState
    requires s.frames != [] && |input| >= InstReads(i)
  {
    var g := s.frames[0].(pos := Bump(s.frames[0].pos));
    var rest := s.frames[1..];
    var setT := (t: nat, d: Meta) => s.(frames := [g.(temps := g.temps[t := d])] + rest);
    match i
    case FArith(dst, op, args) => setT(dst, Compute(m, op, Metas(g.temps, args)))
    case Phi(dst, a) => setT(dst, MetaOf(g.temps, a))
    case Load(dst, _) => setT(dst, LoadMeta(m.selective, s.smem, FromDouble(input[0]), input[1]))
    case Store(a, _) => s.(frames := [g] + rest, smem := s.smem[Slot(FromDouble(input[0])) := MetaOf(g.temps, a)])
    case Cast(dst, _) => setT(dst, ConstMeta(input[0]))
    case FCmp(_, c) =>
      s.(frames := [g] + rest, flips := s.flips + Flips(m, g.temps, Some(c), FromDouble(input[0]) != 0))
    case FCmpShared(_, _) => s.(frames := [g] + rest)
    case Select(dst, _, c, a, b) =>
      var taken := FromDouble(input[0]) != 0;
      setT(dst, if taken then MetaOf(g.temps, a) else MetaOf(g.temps, b))
        .(flips := s.flips + Flips(m, g.temps, c, taken))
    case Other(_) => s.(frames := [g] + rest)
    case LibCall(dst, _, _) => setT(dst, ConstMeta(input[0]))
    case Call(fn, args, ret) =>
      s.(frames := [SFrame(Pos(fn, 0, 0), ret, Params(Metas(g.temps, args)))] + [g] + rest)
    case ICall(_, args, ret) =>
      // fpsanx_get_clone_addr: an unknown address yields the dummy function
      var t := FromDouble(input[0]);
      if t in clones && t in P.addrs then
        s.(frames := [SFrame(Pos(P.addrs[t], 0, 0), ret, Params(Metas(g.temps, args)))] + [g] + rest)
      else s.(frames := [g] + rest)
  }

  function STerm(m: Machine, P: Program, s: SState, t: Term, input: seq<real>): SState
    requires s.frames != [] && |input| >= TermReads(t)
  {
    var g := s.frames[0];
    var rest := s.frames[1..];
    match t
    case Jump(b) => s.(frames := [g.(pos := Goto(g.pos, b))] + rest)
    case Br(_, c, yes, no) =>
      var taken := FromDouble(input[0]) != 0;
      s.(frames := [g.(pos := Goto(g.pos, if taken then yes else no))] + rest,
         flips := s.flips + Flips(m, g.temps, c, taken))
    case Switch(_, cases, other) =>
      s.(frames := [g.(pos := Goto(g.pos, SwitchTarget(cases, other, FromDouble(input[0]))))] + rest)
    case Ret(a) =>
      if rest != [] && g.ret.Some? && a.Some? then
        s.(frames := [rest[0].(temps := rest[0].temps[g.ret.value := MetaOf(g.temps, a.value)])] + rest[1..])
      else s.(frames := rest)
  }

  // ------------------------------------------------------------------ one step

  /** Original and clone are at the same place of the same calls. */
  ghost predicate SameControl(o: Orig, s: SState) { SamePlaces(o.frames, s.frames) }

  ghost predicate SamePlaces(fs: seq<OFrame>, gs: seq<SFrame>) {
    if fs == [] then gs == []
    else gs != [] && fs[0].pos == gs[0].pos && fs[0].ret == gs[0].ret && SamePlaces(fs[1..], gs[1..])
  }

  /** Replacing the running frame on both sides. */
  lemma SameControlTop(o: Orig, s: SState, f: OFrame, g: SFrame, o': Orig, s': SState)
    requires SameControl(o, s) && o.frames != []
    requires o'.frames == [f] + o.frames[1..] && s'.frames == [g] + s.frames[1..]
    requires f.pos == g.pos && f.ret == g.ret
    ensures SameControl(o', s')
  {
    assert o'.frames[1..] == o.frames[1..] && s'.frames[1..] == s.frames[1..];
  }

  /** Instructions that stay in the running frame. */
  lemma LocalDecoupled(m: Machine, P: Program, clones: set<nat>, o: Orig, s: SState, i: Inst, more: seq<real>)
    requires SameControl(o, s) && o.frames != [] && !i.Call? && !i.ICall?
    ensures var (o', pushed) := OInst(m, P, o, i);
      && |pushed| == InstReads(i)
      && SInst(m, P, clones, s, i, pushed + more) == LInst(m, P, o, s, i)
      && SameControl(o', LInst(m, P, o, s, i))
  {
    var (o', pushed) := OInst(m, P, o, i);
    var s' := LInst(m, P, o, s, i);
    assert s.frames[0].pos == o.frames[0].pos && s.frames[0].ret == o.frames[0].ret;
    SameControlTop(o, s, o'.frames[0], s'.frames[0], o', s');
    match i
    case Load(_, _) | Store(_, _) | Cast(_, _) | FCmp(_, _) | Select(_, _, _, _, _) | LibCall(_, _, _) =>
    case FArith(_, _, _) | Phi(_, _) | FCmpShared(_, _) | Other(_) =>
  }

  lemma CallDecoupled(m: Machine, P: Program, clones: set<nat>, o: Orig, s: SState, i: Inst, more: seq<real>)
    requires SameControl(o, s) && o.frames != [] && (i.Call? || i.ICall?)
    requires OInst(m, P, o, i).0.entered <= clones
    ensures var (o', pushed) := OInst(m, P, o, i);
      && |pushed| == InstReads(i)
      && SInst(m, P, clones, s, i, pushed + more) == LInst(m, P, o, s, i)
      && SameControl(o', LInst(m, P, o, s, i))
  {
    assert s.frames[0].pos == o.frames[0].pos && s.frames[0].ret == o.frames[0].ret;
    var (o', pushed) := OInst(m, P, o, i);
    var s' := LInst(m, P, o, s, i);
    if i.ICall? { ToDoubleExact(Reg(IntsOf(o, o.frames[0]), i.target)); }
    if o'.frames != [] && |o'.frames| == |o.frames| + 1 {
      assert o'.frames[1..][1..] == o.frames[1..] && s'.frames[1..][1..] == s.frames[1..];
    } else {
      assert o'.frames[1..] == o.frames[1..] && s'.frames[1..] == s.frames[1..];
    }
  }

  lemma InstDecoupled(m: Machine, P: Program, clones: set<nat>, o: Orig, s: SState, i: Inst, more: seq<real>)
    requires SameControl(o, s) && o.frames != []
    requires OInst(m, P, o, i).0.entered <= clones
    ensures var (o', pushed) := OInst(m, P, o, i);
      && |pushed| == InstReads(i)
      && SInst(m, P, clones, s, i, pushed + more) == LInst(m, P, o, s, i)
      && SameControl(o', LInst(m, P, o, s, i))
  {
    if i.Call? || i.ICall? {
      CallDecoupled(m, P, clones, o, s, i, more);
    } else {
      LocalDecoupled(m, P, clones, o, s, i, more);
    }
  }

  lemma TermDecoupled(m: Machine, P: Program, o: Orig, s: SState, t: Term, more: seq<real>)
    requires SameControl(o, s) && o.frames != []
    ensures var (o', pushed) := OTerm(m, P, o, t);
      && |pushed| == TermReads(t)
      && STerm(m, P, s, t, pushed + more) == LTerm(m, P, o, s, t)
      && SameControl(o', LTerm(m, P, o, s, t))
  {
    var (o', _) := OTerm(m, P, o, t);
    var s' := LTerm(m, P, o, s, t);
    if !t.Ret? {
      SameControlTop(o, s, o'.frames[0], s'.frames[0], o', s');
    } else if |o.frames| > 1 {
      assert SamePlaces(o.frames[1..], s.frames[1..]);
      assert o'.frames[1..] == o.frames[1..][1..] && s'.frames[1..] == s.frames[1..][1..];
    }
  }

  /** The clone's step reads exactly what the original's step pushed, computes the lockstep
      metadata from it, and keeps to the same control path. */
  lemma StepDecoupled(m: Machine, P: Program, clones: set<nat>, o: Orig, s: SState, more: seq<real>)
    requires SameControl(o, s)
    requires OStep(m, P, o).0.entered <= clones
    ensures var (o', pushed) := OStep(m, P, o);
      && SStep(m, P, clones, s, pushed + more) == Some((LStep(m, P, o, s), more))
      && SameControl(o', LStep(m, P, o, s))
  {
    var (o', pushed) := OStep(m, P, o);
    assert (pushed + more)[|pushed|..] == more;
    if o.frames == [] {
      assert pushed + more == more;
    } else {
      match Fetch(P, o.frames[0].pos)
      case Bad =>
      case Ins(i) => InstDecoupled(m, P, clones, o, s, i, more);
      case Trm(t) => TermDecoupled(m, P, o, s, t, more);
    }
  }

  /** From one place to the next inside a function: behind the instruction, or to the start of the block the terminator
      names for the integer it tests. */
  ghost predicate Onward(b: Block, regs: map<nat, nat>, at: Pos, next: Pos) {
    next.fn == at.fn &&
    if at.idx < |b.insts| then next.blk == at.blk && next.idx == at.idx + 1
    else (
      next.idx == 0 &&
      match b.term
      case Jump(to) => next.blk == to
      case Br(cond, _, yes, no) => next.blk == if cond in regs && regs[cond] != 0 then yes else no
      case Switch(v, cases, other) =>
        var x := if v in regs then regs[v] else 0;
        (x in cases ==> next.blk == cases[x]) && (x !in cases ==> next.blk == other)
      case Ret(_) => false
    )
  }

  /** The function of the program an instruction enters. */
  ghost function Entered(P: Program, regs: map<nat, nat>, i: Inst): Option<nat> {
    match i
    case Call(fn, _, _) => Some(fn)
    case ICall(target, _, _) =>
      var t := if target in regs then regs[target] else 0;
      if t in P.addrs then Some(P.addrs[t]) else None
    case _ => None
  }

  /** From the stack of places to the next: a return drops one, entering a function puts its start on top. */
  ghost predicate Moves(P: Program, regs: map<nat, nat>, before: seq<Pos>, after: seq<Pos>)
    requires |before| > 0 && before[0].fn < |P.funs| && before[0].blk < |P.funs[before[0].fn].blocks|
  {
    var at := before[0];
    var b := P.funs[at.fn].blocks[at.blk];
    if at.idx >= |b.insts| && b.term.Ret? then after == before[1..]
    else if at.idx < |b.insts| && Entered(P, regs, b.insts[at.idx]).Some? then
      && |after| > 1 && after[0] == Pos(Entered(P, regs, b.insts[at.idx]).value, 0, 0)
      && Onward(b, regs, at, after[1]) && after[2..] == before[1..]
    else |after| > 0 && Onward(b, regs, at, after[0]) && after[1..] == before[1..]
  }

  function OPlaces(fs: seq<OFrame>): seq<Pos> { seq(|fs|, i requires 0 <= i < |fs| => fs[i].pos) }

  function SPlaces(gs: seq<SFrame>): seq<Pos> { seq(|gs|, i requires 0 <= i < |gs| => gs[i].pos) }

  lemma {:induction false} PlacesAre(fs: seq<OFrame>, gs: seq<SFrame>)
    requires SamePlaces(fs, gs)
    ensures OPlaces(fs) == SPlaces(gs)
  {
    if |fs| > 0 {
      PlacesAre(fs[1..], gs[1..]);
      assert OPlaces(fs) == [fs[0].pos] + OPlaces(fs[1..]) && SPlaces(gs) == [gs[0].pos] + SPlaces(gs[1..]);
    }
  }

  lemma OnTop(f: OFrame, fs: seq<OFrame>)
    ensures OPlaces([f] + fs) == [f.pos] + OPlaces(fs)
  {}

  lemma OriginalMoves(m: Machine, P: Program, o: Orig)
    requires |o.frames| > 0 && o.frames[0].pos.fn < |P.funs|
      && o.frames[0].pos.blk < |P.funs[o.frames[0].pos.fn].blocks|
    ensures Moves(P, o.frames[0].regs, OPlaces(o.frames), OPlaces(OStep(m, P, o).0.frames))
  {
    var at := o.frames[0].pos;
    var b := P.funs[at.fn].blocks[at.blk];
    assert OPlaces(o.frames)[1..] == OPlaces(o.frames[1..]);
    if at.idx < |b.insts| { InstMoves(m, P, o, b.insts[at.idx]); } else { TermMoves(m, P, o, b.term); }
  }

  lemma InstMoves(m: Machine, P: Program, o: Orig, i: Inst)
    requires |o.frames| > 0
    ensures var at := o.frames[0].pos;
      var next := at.(idx := at.idx + 1);
      var entered := Entered(P, o.frames[0].regs, i);
      OPlaces(OInst(m, P, o, i).0.frames)
      == (if entered.Some? then [Pos(entered.value, 0, 0), next] else [next]) + OPlaces(o.frames[1..])
  {
    var fs := OInst(m, P, o, i).0.frames;
    if Entered(P, o.frames[0].regs, i).Some? {
      assert fs == [fs[0]] + ([fs[1]] + o.frames[1..]);
      OnTop(fs[1], o.frames[1..]);
      OnTop(fs[0], [fs[1]] + o.frames[1..]);
    } else {
      OnTop(fs[0], o.frames[1..]);
    }
  }

  lemma TermMoves(m: Machine, P: Program, o: Orig, t: Term)
    requires |o.frames| > 0
    ensures var at := o.frames[0].pos;
      var regs := o.frames[0].regs;
      var after := OPlaces(OTerm(m, P, o, t).0.frames);
      if t.Ret? then after == OPlaces(o.frames[1..])
      else |after| > 0 && after[1..] == OPlaces(o.frames[1..]) && Onward(Block([], t), regs, at.(idx := 0), after[0])
  {
    var fs := OTerm(m, P, o, t).0.frames;
    if !t.Ret? { OnTop(fs[0], o.frames[1..]); }
  }

  /** Where a step leads, in the original and, given what that pushed, in the clone. */
  lemma ControlMoves(m: Machine, P: Program, clones: set<nat>, o: Orig, s: SState, more: seq<real>)
    requires SameControl(o, s) && OStep(m, P, o).0.entered <= clones
    requires |o.frames| > 0 && o.frames[0].pos.fn < |P.funs|
      && o.frames[0].pos.blk < |P.funs[o.frames[0].pos.fn].blocks|
    ensures var o' := OStep(m, P, o).0;
      var next := SStep(m, P, clones, s, OStep(m, P, o).1 + more);
      && next.Some? && Moves(P, o.frames[0].regs, OPlaces(o.frames), OPlaces(o'.frames))
      && SPlaces(s.frames) == OPlaces(o.frames) && SPlaces(next.value.0.frames) == OPlaces(o'.frames)
  {
    hide Moves;
    OriginalMoves(m, P, o);
    StepDecoupled(m, P, clones, o, s, more);
    PlacesAre(o.frames, s.frames);
    PlacesAre(OStep(m, P, o).0.frames, LStep(m, P, o, s).frames);
  }

  /** With any less than the original pushed, the clone waits. */
  lemma StepWaits(m: Machine, P: Program, clones: set<nat>, o: Orig, s: SState, q: seq<real>)
    requires SameControl(o, s) && q < OStep(m, P, o).1
    ensures SStep(m, P, clones, s, q) == None
  {
    assert o.frames[0].pos == s.frames[0].pos;
  }

  // ------------------------------------------------------------------ runs

  /** n steps of the original, with everything they push. */
  function ORun(m: Machine, P: Program, o: Orig, n: nat): (Orig, seq<real>)
    decreases n
  {
    if n == 0 then (o, [])
    else
      var (o1, p1) := OStep(m, P, o);
      var (o2, p2) := ORun(m, P, o1, n - 1);
      (o2, p1 + p2)
  }

  /** The shadow state after n lockstep steps. */
  function LRun(m: Machine, P: Program, o: Orig, s: SState, n: nat): SState
    decreases n
  {
    if n == 0 then s else LRun(m, P, OStep(m, P, o).0, LStep(m, P, o, s), n - 1)
  }

  /** n steps of the clone; None when its input runs out on the way. */
  function SRun(m: Machine, P: Program, clones: set<nat>, s: SState, input: seq<real>,
                n: nat): Option<(SState, seq<real>)>
    decreases n
  {
    if n == 0 then Some((s, input))
    else match SStep(m, P, clones, s, input)
      case None => None
      case Some(r) => SRun(m, P, clones, r.0, r.1, n - 1)
  }

  lemma StepEnters(m: Machine, P: Program, o: Orig)
    ensures o.entered <= OStep(m, P, o).0.entered
  {}

  lemma {:induction false} EnteredGrows(m: Machine, P: Program, o: Orig, n: nat)
    ensures o.entered <= ORun(m, P, o, n).0.entered
    decreases n
  {
    if n > 0 {
      StepEnters(m, P, o);
      EnteredGrows(m, P, OStep(m, P, o).0, n - 1);
    }
  }

  /** The lockstep run follows the original's control path. */
  lemma {:induction false} SameControlAlong(m: Machine, P: Program, o: Orig, s: SState, n: nat)
    requires SameControl(o, s)
    ensures SameControl(ORun(m, P, o, n).0, LRun(m, P, o, s, n))
    decreases n
  {
    if n > 0 {
      var (o1, _) := OStep(m, P, o);
      StepDecoupled(m, P, o1.entered, o, s, []);
      SameControlAlong(m, P, o1, LStep(m, P, o, s), n - 1);
    }
  }

  lemma EnteredLater(m: Machine, P: Program, o: Orig, n: nat)
    requires n > 0
    ensures var o1 := OStep(m, P, o).0;
      ORun(m, P, o1, n - 1).0.entered == ORun(m, P, o, n).0.entered && o1.entered <= ORun(m, P, o, n).0.entered
  {
    EnteredGrows(m, P, OStep(m, P, o).0, n - 1);
  }

  lemma SRunGlue(m: Machine, P: Program, clones: set<nat>, s: SState, s1: SState, end: SState, p1: seq<real>,
                 p2: seq<real>, more: seq<real>, n: nat)
    requires n > 0 && SStep(m, P, clones, s, p1 + (p2 + more)) == Some((s1, p2 + more))
    requires SRun(m, P, clones, s1, p2 + more, n - 1) == Some((end, more))
    ensures SRun(m, P, clones, s, (p1 + p2) + more, n) == Some((end, more))
  {
    assert (p1 + p2) + more == p1 + (p2 + more);
  }

  lemma NoSteps(m: Machine, P: Program, clones: set<nat>, o: Orig, s: SState, more: seq<real>)
    ensures SRun(m, P, clones, s, ORun(m, P, o, 0).1 + more, 0) == Some((LRun(m, P, o, s, 0), more))
  {
    assert [] + more == more;
  }

  lemma RunsNext(m: Machine, P: Program, o: Orig, s: SState, n: nat)
    requires n > 0
    ensures var (o1, p1) := OStep(m, P, o);
      && ORun(m, P, o, n).1 == p1 + ORun(m, P, o1, n - 1).1
      && LRun(m, P, o, s, n) == LRun(m, P, o1, LStep(m, P, o, s), n - 1)
  {}

  /** For every program, start and number of steps: fed with what the original pushed, the clone
      reads all of it and nothing more, and ends with the metadata of the lockstep run. */
  lemma {:induction false} DecouplingTheorem(m: Machine, P: Program, clones: set<nat>, o: Orig, s: SState, n: nat,
                                             more: seq<real>)
    requires SameControl(o, s)
    requires ORun(m, P, o, n).0.entered <= clones
    ensures SRun(m, P, clones, s, ORun(m, P, o, n).1 + more, n) == Some((LRun(m, P, o, s, n), more))
    decreases n
  {
    hide OStep, LStep, SStep, ORun, LRun, SRun;
    if n == 0 {
      NoSteps(m, P, clones, o, s, more);
    } else {
      var (o1, p1) := OStep(m, P, o);
      var p2 := ORun(m, P, o1, n - 1).1;
      var s1 := LStep(m, P, o, s);
      RunsNext(m, P, o, s, n);
      EnteredLater(m, P, o, n);
      StepDecoupled(m, P, clones, o, s, p2 + more);
      DecouplingTheorem(m, P, clones, o1, s1, n - 1, more);
      SRunGlue(m, P, clones, s, s1, LRun(m, P, o1, s1, n - 1), p1, p2, more, n);
    }
  }

  /** More input changes nothing about the steps already possible. */
  lemma {:induction false} SRunExtend(m: Machine, P: Program, clones: set<nat>, s: SState, q: seq<real>, n: nat,
                                      t: seq<real>)
    requires SRun(m, P, clones, s, q, n).Some?
    ensures SRun(m, P, clones, s, q + t, n)
         == Some((SRun(m, P, clones, s, q, n).value.0, SRun(m, P, clones, s, q, n).value.1 + t))
    decreases n
  {
    if n > 0 {
      var r := SStep(m, P, clones, s, q).value;
      SStepExtend(m, P, clones, s, q, t);
      SRunExtend(m, P, clones, r.0, r.1, n - 1, t);
    }
  }

  lemma SStepExtend(m: Machine, P: Program, clones: set<nat>, s: SState, q: seq<real>, t: seq<real>)
    requires SStep(m, P, clones, s, q).Some?
    ensures SStep(m, P, clones, s, q + t)
      == Some((SStep(m, P, clones, s, q).value.0, SStep(m, P, clones, s, q).value.1 + t))
  {
    if s.frames != [] {
      match Fetch(P, s.frames[0].pos)
      case Bad =>
      case Ins(i) => assert (q + t)[InstReads(i)..] == q[InstReads(i)..] + t;
      case Trm(b) => assert (q + t)[TermReads(b)..] == q[TermReads(b)..] + t;
    }
  }

  /** Once the clone has returned, further steps change nothing. */
  lemma {:induction false} SRunStays(m: Machine, P: Program, clones: set<nat>, s: SState, q: seq<real>, n: nat, k: nat)
    requires SRun(m, P, clones, s, q, n).Some? && SRun(m, P, clones, s, q, n).value.0.frames == []
    requires n <= k
    ensures SRun(m, P, clones, s, q, k) == SRun(m, P, clones, s, q, n)
    decreases k
  {
    if n > 0 {
      var r := SStep(m, P, clones, s, q).value;
      SRunStays(m, P, clones, r.0, r.1, n - 1, k - 1);
    } else if k > 0 {
      SRunStays(m, P, clones, s, q, 0, k - 1);
    }
  }

  // ------------------------------------------------------------------ slices

  /** An argument; integers and pointers reach the original in its registers. */
  datatype Arg = FloatArg(v: real) | OtherArg

  /** Arguments of the kinds the parameters ask for. */
  ghost predicate OfKinds(args: seq<Arg>, params: seq<Kind>) {
    |args| == |params| && forall i :: 0 <= i < |args| ==> (args[i].FloatArg? <==> params[i] == FloatParam)
  }

  /** createUpdateBlockArg1 pushes the float arguments of a slice. */
  function PushedArgs(args: seq<Arg>): seq<real> {
    if |args| == 0 then [] else (if args[0].FloatArg? then [args[0].v] else []) + PushedArgs(args[1..])
  }

  /** What the parameters of a clone are: a metadata pointer for each float, or what they were. */
  datatype CloneParam = MetaPtr | Plain

  /** cloneFunction, first: each parameter, and a further pointer for a float result. */
  function Cloned(params: seq<Kind>, returnsFloat: bool): seq<CloneParam> {
    if |params| > 0 then [if params[0] == FloatParam then MetaPtr else Plain] + Cloned(params[1..], returnsFloat)
    else if returnsFloat then [MetaPtr] else []
  }

  /** ... then only metadata pointers are kept. */
  function Kept(ps: seq<CloneParam>): seq<CloneParam> {
    if |ps| == 0 then [] else (if ps[0] == MetaPtr then [MetaPtr] else []) + Kept(ps[1..])
  }

  /** removeArgs, which sees the parameters that are kept: it reads a value for each, but for the result's none. */
  function ArgReads(params: seq<Kind>, returnsFloat: bool): int {
    |Kept(Cloned(params, returnsFloat))| - (if returnsFloat then 1 else 0)
  }

  function ConstMetas(vals: seq<real>): (r: seq<Meta>)
    ensures |r| == |vals|
  {
    seq(|vals|, i requires 0 <= i < |vals| => ConstMeta(vals[i]))
  }

  function SliceShadow(fn: nat, vals: seq<real>, smem: map<nat, Meta>): SState {
    SState([SFrame(Pos(fn, 0, 0), None, Params(ConstMetas(vals)))], smem, 0)
  }

  /** The clone of a slice reads its parameters from the buffer. */
  function CloneStart(fn: nat, params: seq<Kind>, returnsFloat: bool, smem: map<nat, Meta>, input: seq<real>)
    : Option<(SState, seq<real>)>
  {
    var n := ArgReads(params, returnsFloat);
    if n < 0 || |input| < n then None else Some((SliceShadow(fn, input[..n], smem), input[n..]))
  }

  lemma {:induction false} ReadsArePushes(args: seq<Arg>, params: seq<Kind>, returnsFloat: bool)
    requires OfKinds(args, params)
    ensures ArgReads(params, returnsFloat) == |PushedArgs(args)|
  {
    if |params| > 0 {
      assert OfKinds(args[1..], params[1..]);
      ReadsArePushes(args[1..], params[1..], returnsFloat);
      var p, rest := if params[0] == FloatParam then MetaPtr else Plain, Cloned(params[1..], returnsFloat);
      assert ([p] + rest)[1..] == rest;
    } else if returnsFloat {
      assert [MetaPtr][1..] == [];
    }
  }

  /** Each float argument is pushed behind those before it. */
  lemma {:induction false} PushedInOrder(args: seq<Arg>, i: nat)
    requires i < |args|
    ensures var before := |PushedArgs(args[..i])|;
      && (args[i].FloatArg? ==> before < |PushedArgs(args)| && PushedArgs(args)[before] == args[i].v)
      && |PushedArgs(args[..i + 1])| == before + if args[i].FloatArg? then 1 else 0
  {
    assert args[..i + 1][1..] == args[1..][..i] && (i > 0 ==> args[..i][1..] == args[1..][..i - 1]);
    if i > 0 { PushedInOrder(args[1..], i - 1); }
  }

  /** The clone of a slice starts on exactly the arguments that are pushed, whatever kinds its parameters have and
      whether it returns a float: it waits for all of them, and leaves what follows. */
  lemma SliceArgsRead(fn: nat, args: seq<Arg>, params: seq<Kind>, returnsFloat: bool, smem: map<nat, Meta>,
                      input: seq<real>)
    requires OfKinds(args, params)
    ensures PushedArgs(args) <= input ==>
      CloneStart(fn, params, returnsFloat, smem, input)
      == Some((SliceShadow(fn, PushedArgs(args), smem), input[|PushedArgs(args)|..]))
    ensures |input| < |PushedArgs(args)| ==> CloneStart(fn, params, returnsFloat, smem, input) == None
  {
    ReadsArePushes(args, params, returnsFloat);
    var n := |PushedArgs(args)|;
    if PushedArgs(args) <= input { assert input[..n] == PushedArgs(args); }
  }

  function ParamsOf(P: Program, fn: nat): seq<Kind> { if fn < |P.funs| then P.funs[fn].params else [] }

  function ReturnsFloat(P: Program, fn: nat): bool { fn < |P.funs| && P.funs[fn].returnsFloat }

  /** One execution of a slice: the function, its arguments, the original's state when it is called,
      the number of steps until it returns, the clone map when its shadow runs, and the shadow memory then. */
  datatype SliceRun =
    SliceRun(fn: nat, args: seq<Arg>, start: Orig, steps: nat, clones: set<nat>, smem: map<nat, Meta>)

  ghost predicate ValidSlice(m: Machine, P: Program, sl: SliceRun) {
    && OfKinds(sl.args, ParamsOf(P, sl.fn))
    && |sl.start.frames| == 1 && sl.start.frames[0].pos == Pos(sl.fn, 0, 0) && sl.start.frames[0].ret.None?
    && sl.start.frames[0].flts == Params(PushedArgs(sl.args))
    && ORun(m, P, sl.start, sl.steps).0.frames == []
    && ORun(m, P, sl.start, sl.steps).0.entered <= sl.clones
  }

  /** Everything the original pushes while the slice runs. */
  function Stream(m: Machine, P: Program, sl: SliceRun): seq<real>
  {
    PushedArgs(sl.args) + ORun(m, P, sl.start, sl.steps).1
  }

  /** n steps of the slice's shadow on a given input. */
  function CloneRun(m: Machine, P: Program, sl: SliceRun, input: seq<real>, n: nat): Option<(SState, seq<real>)>
  {
    match CloneStart(sl.fn, ParamsOf(P, sl.fn), ReturnsFloat(P, sl.fn), sl.smem, input)
    case None => None
    case Some(r) => SRun(m, P, sl.clones, r.0, r.1, n)
  }

  /** The metadata of the lockstep run at the end of the slice. */
  function LockstepEnd(m: Machine, P: Program, sl: SliceRun): SState {
    LRun(m, P, sl.start, SliceShadow(sl.fn, PushedArgs(sl.args), sl.smem), sl.steps)
  }

  /** The slice's shadow, having read `log`, wants another value: however long it runs it does not return. */
  ghost predicate Asks(m: Machine, P: Program, sl: SliceRun, log: seq<real>)
  {
    !exists n: nat :: CloneRun(m, P, sl, log, n).Some? && CloneRun(m, P, sl, log, n).value.0.frames == []
  }

  /** On its stream a slice's shadow returns with the lockstep metadata, having read all of it. */
  lemma SliceDecoupled(m: Machine, P: Program, sl: SliceRun)
    requires ValidSlice(m, P, sl)
    ensures CloneRun(m, P, sl, Stream(m, P, sl), sl.steps) == Some((LockstepEnd(m, P, sl), []))
    ensures LockstepEnd(m, P, sl).frames == []
  {
    var vals, pushed := PushedArgs(sl.args), ORun(m, P, sl.start, sl.steps).1;
    var s := SliceShadow(sl.fn, vals, sl.smem);
    SliceArgsRead(sl.fn, sl.args, ParamsOf(P, sl.fn), ReturnsFloat(P, sl.fn), sl.smem, vals + pushed);
    assert (vals + pushed)[|vals|..] == pushed;
    assert pushed + [] == pushed;
    assert s.frames[0] == SFrame(Pos(sl.fn, 0, 0), None, Params(ConstMetas(vals)));
    assert SameControl(sl.start, s);
    DecouplingTheorem(m, P, sl.clones, sl.start, s, sl.steps, []);
    SameControlAlong(m, P, sl.start, s, sl.steps);
  }

  /** The shadow asks for more on every proper prefix of its stream, and stops on the whole of it. */
  lemma AsksExactly(m: Machine, P: Program, sl: SliceRun, k: nat)
    requires ValidSlice(m, P, sl) && k <= |Stream(m, P, sl)|
    ensures Asks(m, P, sl, Stream(m, P, sl)[..k]) <==> k < |Stream(m, P, sl)|
  {
    var whole := Stream(m, P, sl);
    SliceDecoupled(m, P, sl);
    if k == |whole| {
      assert whole[..k] == whole;
    } else {
      hide Stream, CloneRun;
      var q, t := whole[..k], whole[k..];
      assert q + t == whole;
      forall n: nat ensures !(CloneRun(m, P, sl, q, n).Some? && CloneRun(m, P, sl, q, n).value.0.frames == []) {
        if CloneRun(m, P, sl, q, n).Some? {
          CloneRunExtend(m, P, sl, q, n, t);
          if CloneRun(m, P, sl, q, n).value.0.frames == [] { OneEnd(m, P, sl, whole, n, sl.steps); }
        }
      }
    }
  }

  /** On the same input a slice's shadow returns in one state, however long it is run. */
  lemma OneEnd(m: Machine, P: Program, sl: SliceRun, input: seq<real>, n: nat, n': nat)
    requires CloneRun(m, P, sl, input, n).Some? && CloneRun(m, P, sl, input, n).value.0.frames == []
    requires CloneRun(m, P, sl, input, n').Some? && CloneRun(m, P, sl, input, n').value.0.frames == []
    ensures CloneRun(m, P, sl, input, n) == CloneRun(m, P, sl, input, n')
  {
    hide SRun;
    var start := CloneStart(sl.fn, ParamsOf(P, sl.fn), ReturnsFloat(P, sl.fn), sl.smem, input).value;
    var big := if n < n' then n' else n;
    SRunStays(m, P, sl.clones, start.0, start.1, n, big);
    SRunStays(m, P, sl.clones, start.0, start.1, n', big);
  }

  lemma CloneRunExtend(m: Machine, P: Program, sl: SliceRun, q: seq<real>, n: nat, t: seq<real>)
    requires CloneRun(m, P, sl, q, n).Some?
    ensures CloneRun(m, P, sl, q + t, n)
      == Some((CloneRun(m, P, sl, q, n).value.0, CloneRun(m, P, sl, q, n).value.1 + t))
  {
    var k := ArgReads(ParamsOf(P, sl.fn), ReturnsFloat(P, sl.fn));
    assert (q + t)[..k] == q[..k];
    assert (q + t)[k..] == q[k..] + t;
    SRunExtend(m, P, sl.clones, SliceShadow(sl.fn, q[..k], sl.smem), q[k..], n, t);
  }
}
