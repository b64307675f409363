module ShadowRuntime {
  // The shadow runtime's state: shadow memory, key stack and the temporaries of the running activations.

  import opened Basics
  import opened Keys
  import opened ShadowSlots
  import S = Shadow

  /** The address of a temporary: the key of the activation whose stack frame it is in, and its place there. */
  datatype Ptr = Ptr(frame: int, slot: nat)

  /** How a temporary was computed: locks, keys and addresses of its operands, and when. */
  datatype Trace = Trace(op1_lock: nat, op1_key: int, lhs: Option<Ptr>, op2_lock: nat, op2_key: int, rhs: Option<Ptr>,
                         timestamp: nat)

  /** temp_entry. */
  datatype Temp = Temp(val: real, computed: real, opcode: S.OpCode, lock: nat, key: int, trace: Trace)

  /** smem_entry; lock, key and tmp_ptr name the temporary that was stored. */
  datatype Smem = Smem(is_init: bool, val: real, computed: real, opcode: S.OpCode, lock: nat, key: int,
                       tmp_ptr: Option<Ptr>)

  /** What a load takes from a shadow memory entry: nothing if the entry was never written or, when SELECTIVE
      is compiled in, if it was written with another value; then the program's value is a constant. */
  function LoadFrom(selective: bool, c: Smem, v: real): S.Meta {
    if c.is_init && !(selective && v != c.computed) then S.Meta(c.val, c.computed, c.opcode) else S.ConstMeta(v)
  }

  function MetaOf(t: Temp): S.Meta { S.Meta(t.val, t.computed, t.opcode) }

  /** The metadata in the table, as the shadow semantics has it: slots that have been written. */
  ghost function Metadata(cells: seq<Smem>): map<nat, S.Meta> {
    map i: nat | i < |cells| && cells[i].is_init :: S.Meta(cells[i].val, cells[i].computed, cells[i].opcode)
  }

  function NoTrace(timestamp: nat): Trace { Trace(0, 0, None, 0, 0, None, timestamp) }

  /** A temporary of one of the outermost `lock` activations. */
  ghost predicate Alive(s: KeyState, temps: map<Ptr, Temp>, p: Ptr, lock: nat) {
    p in temps && exists i :: 0 <= i < lock && i < |s.frames| && s.frames[i] == p.frame
  }

  /** If the entry's key still matches its lock, the temporary it points to exists. */
  ghost predicate Safe(s: KeyState, temps: map<Ptr, Temp>, c: Smem) {
    && c.key <= s.counter
    && (c.tmp_ptr.Some? ==> c.key >= 1 && (KeyAt(s, c.lock) == c.key ==> Alive(s, temps, c.tmp_ptr.value, c.lock)))
  }

  lemma SafeEnter(s: KeyState, temps: map<Ptr, Temp>, temps': map<Ptr, Temp>, c: Smem)
    requires Good(s) && Safe(s, temps, c) && forall p :: p in temps ==> p in temps'
    ensures Safe(Next(s, Enter), temps', c)
  {
    var s' := Next(s, Enter);
    if c.tmp_ptr.Some? && KeyAt(s', c.lock) == c.key {
      var i :| 0 <= i < c.lock && i < |s.frames| && s.frames[i] == c.tmp_ptr.value.frame;
      assert s'.frames[i] == s.frames[i];
    }
  }

  lemma SafeExit(s: KeyState, temps: map<Ptr, Temp>, temps': map<Ptr, Temp>, c: Smem)
    requires Good(s) && s.frames != [] && Safe(s, temps, c)
    requires forall p :: p in temps && p.frame != s.frames[|s.frames| - 1] ==> p in temps'
    ensures Safe(Next(s, Exit), temps', c)
  {
    var s' := Next(s, Exit);
    if c.tmp_ptr.Some? && KeyAt(s', c.lock) == c.key {
      var i :| 0 <= i < c.lock && i < |s.frames| && s.frames[i] == c.tmp_ptr.value.frame;
      assert s'.frames[i] == s.frames[i];
    }
  }

  ghost predicate AllSafe(s: KeyState, temps: map<Ptr, Temp>, cells: seq<Smem>) {
    forall i :: 0 <= i < |cells| ==> Safe(s, temps, cells[i])
  }

  ghost predicate LocksBelow(cells: seq<Smem>, size: nat) { forall i :: 0 <= i < |cells| ==> cells[i].lock < size }

  lemma AllSafeSame(s: KeyState, temps: map<Ptr, Temp>, temps': map<Ptr, Temp>, cells: seq<Smem>)
    requires AllSafe(s, temps, cells) && temps.Keys == temps'.Keys
    ensures AllSafe(s, temps', cells)
  {
    forall i | 0 <= i < |cells| ensures Safe(s, temps', cells[i]) { assert Safe(s, temps, cells[i]); }
  }

  lemma AllSafeEnter(s: KeyState, temps: map<Ptr, Temp>, temps': map<Ptr, Temp>, cells: seq<Smem>)
    requires Good(s) && AllSafe(s, temps, cells) && forall p :: p in temps ==> p in temps'
    ensures AllSafe(Next(s, Enter), temps', cells)
  {
    forall i | 0 <= i < |cells| ensures Safe(Next(s, Enter), temps', cells[i]) {
      SafeEnter(s, temps, temps', cells[i]);
    }
  }

  lemma AllSafeExit(s: KeyState, temps: map<Ptr, Temp>, cells: seq<Smem>)
    requires Good(s) && s.frames != [] && AllSafe(s, temps, cells)
    ensures AllSafe(Next(s, Exit), Without(temps, s.frames[|s.frames| - 1]), cells)
  {
    var rest := Without(temps, s.frames[|s.frames| - 1]);
    forall i | 0 <= i < |cells| ensures Safe(Next(s, Exit), rest, cells[i]) { SafeExit(s, temps, rest, cells[i]); }
  }

  /** Every temporary belongs to a running activation. */
  ghost predicate Homed(fs: seq<int>, temps: map<Ptr, Temp>) { forall p :: p in temps ==> p.frame in fs }

  /** What is left of the temporaries when activation `key` ends. */
  function Without(temps: map<Ptr, Temp>, key: int): map<Ptr, Temp> { map p | p in temps && p.frame != key :: temps[p] }

  /** The temporaries of a new activation. */
  function NewTemps(key: int, n: nat): map<Ptr, Temp> {
    map k: nat | k < n :: Ptr(key, k) := Temp(0.0, 0.0, S.CONSTANT, 0, 0, NoTrace(0))
  }

  lemma HomedExit(fs: seq<int>, temps: map<Ptr, Temp>)
    requires fs != [] && Homed(fs, temps)
    ensures Homed(fs[..|fs| - 1], Without(temps, fs[|fs| - 1]))
  {
    forall p | p in Without(temps, fs[|fs| - 1]) ensures p.frame in fs[..|fs| - 1] {
      var i :| 0 <= i < |fs| && fs[i] == p.frame;
      assert fs[..|fs| - 1][i] == p.frame;
    }
  }

  // ------------------------------------------------------------------ runs of stores

  datatype Write = Write(addr: nat, entry: Smem)

  function Uninitialised(): Smem { Smem(false, 0.0, 0.0, S.CONSTANT, 0, 0, None) }

  /** What a slot of the table holds after the first n stores ... */
  function InSlot(ws: seq<Write>, n: nat, slot: nat): Smem
    requires n <= |ws|
  {
    if n == 0 then Uninitialised()
      else if Slot(ws[n - 1].addr) == slot then ws[n - 1].entry else InSlot(ws, n - 1, slot)
  }

  /** ... and what an unbounded memory holds for a word. */
  function AtWord(ws: seq<Write>, n: nat, word: nat): Smem
    requires n <= |ws|
  {
    if n == 0 then Uninitialised() else if ws[n - 1].addr / 4 == word then ws[n - 1].entry else AtWord(ws, n - 1, word)
  }

  /** Over any run of stores within a window of words, every load from the window finds in its slot what an
      unbounded memory would give it. */
  lemma {:induction false} WindowExact(ws: seq<Write>, n: nat, base: nat, addr: nat)
    requires n <= |ws| && InWindow(base, addr) && forall k :: 0 <= k < |ws| ==> InWindow(base, ws[k].addr)
    ensures InSlot(ws, n, Slot(addr)) == AtWord(ws, n, addr / 4)
  {
    if n > 0 {
      WindowExact(ws, n - 1, base, addr);
      if Slot(ws[n - 1].addr) == Slot(addr) { SlotInjective(base, ws[n - 1].addr, addr); }
      assert ws[n - 1].addr / 4 == addr / 4 ==> Slot(ws[n - 1].addr) == Slot(addr);
    }
  }

  /** Beyond a window it fails: one table's worth of words further on, a store takes over the slot. */
  lemma AliasOverwrites(addr: nat, mine: Smem, other: Smem)
    requires mine != other
    ensures var ws := [Write(addr, mine), Write(addr + 4 * HASH_TABLE_ENTRIES, other)];
      InSlot(ws, 2, Slot(addr)) == other && AtWord(ws, 2, addr / 4) == mine
  {
    var ws := [Write(addr, mine), Write(addr + 4 * HASH_TABLE_ENTRIES, other)];
    assert (addr + 4 * HASH_TABLE_ENTRIES) / 4 == addr / 4 + HASH_TABLE_ENTRIES;
    assert ws[1].addr / 4 != addr / 4 && AtWord(ws, 1, addr / 4) == mine;
  }

  /** Since the last store to the word of addr, another word of its slot has been stored to. */
  ghost predicate Clobbered(ws: seq<Write>, n: nat, addr: nat)
    requires n <= |ws|
  {
    n > 0 && ws[n - 1].addr / 4 != addr / 4 && (Slot(ws[n - 1].addr) == Slot(addr) || Clobbered(ws, n - 1, addr))
  }

  ghost predicate OwnEntries(ws: seq<Write>) {
    (forall i, j :: 0 <= i < j < |ws| ==> ws[i].entry != ws[j].entry)
      && forall i :: 0 <= i < |ws| ==> ws[i].entry != Uninitialised()
  }

  /** Over any run of stores, each with an entry of its own, a load finds what an unbounded memory would give it
      exactly if its word has not been clobbered; then it does whatever the entries are. */
  lemma {:induction false} SlotExact(ws: seq<Write>, n: nat, addr: nat)
    requires n <= |ws|
    ensures !Clobbered(ws, n, addr) ==> InSlot(ws, n, Slot(addr)) == AtWord(ws, n, addr / 4)
    ensures OwnEntries(ws) ==> (InSlot(ws, n, Slot(addr)) == AtWord(ws, n, addr / 4) <==> !Clobbered(ws, n, addr))
  {
    if n > 0 {
      SlotExact(ws, n - 1, addr);
      AtWordIs(ws, n - 1, addr / 4);
      SameWordSameSlot(ws[n - 1].addr, addr);
    }
  }

  lemma SameWordSameSlot(a: nat, b: nat)
    ensures a / 4 == b / 4 ==> Slot(a) == Slot(b)
  {}

  lemma {:induction false} AtWordIs(ws: seq<Write>, n: nat, word: nat)
    requires n <= |ws|
    ensures AtWord(ws, n, word) == Uninitialised() || exists k :: 0 <= k < n && AtWord(ws, n, word) == ws[k].entry
  {
    if n > 0 { AtWordIs(ws, n - 1, word); }
  }

  // ------------------------------------------------------------------ which store a load sees

  /** Store k is the last to the slot of addr, ... */
  ghost predicate LastInSlot(ws: seq<Write>, k: int, addr: nat) {
    && 0 <= k < |ws| && Slot(ws[k].addr) == Slot(addr)
    && forall j :: k < j < |ws| ==> Slot(ws[j].addr) != Slot(addr)
  }

  /** ... the last to its word. */
  ghost predicate LastToWord(ws: seq<Write>, k: int, addr: nat) {
    && 0 <= k < |ws| && ws[k].addr / 4 == addr / 4
    && forall j :: k < j < |ws| ==> ws[j].addr / 4 != addr / 4
  }

  /** All stores, and addr, are in one window of as many words as the table has slots. */
  ghost predicate OneWindow(ws: seq<Write>, addr: nat) {
    exists base :: InWindow(base, addr) && forall k :: 0 <= k < |ws| ==> InWindow(base, ws[k].addr)
  }

  lemma LastStays(ws: seq<Write>, k: int, addr: nat)
    requires LastToWord(ws, k, addr) && (!Clobbered(ws, |ws|, addr) || OneWindow(ws, addr))
    ensures LastInSlot(ws, k, addr)
  {
    forall j | k < j < |ws| ensures Slot(ws[j].addr) != Slot(addr) {
      if OneWindow(ws, addr) {
        var base :| InWindow(base, addr) && forall i :: 0 <= i < |ws| ==> InWindow(base, ws[i].addr);
        SlotInjective(base, ws[j].addr, addr);
      } else {
        NotClobbered(ws, |ws|, k, j, addr);
      }
    }
  }

  lemma {:induction false} NotClobbered(ws: seq<Write>, n: nat, k: int, j: int, addr: nat)
    requires LastToWord(ws, k, addr) && k < j < n <= |ws| && !Clobbered(ws, n, addr)
    ensures Slot(ws[j].addr) != Slot(addr)
  {
    if j < n - 1 { NotClobbered(ws, n - 1, k, j, addr); }
  }

  lemma {:induction false} LastIs(ws: seq<Write>, n: nat, addr: nat)
    requires n <= |ws|
    ensures (exists k :: LastInSlot(ws[..n], k, addr) && InSlot(ws, n, Slot(addr)) == ws[k].entry)
      || (InSlot(ws, n, Slot(addr)) == Uninitialised() && forall k :: !LastInSlot(ws[..n], k, addr))
    ensures ws[..|ws|] == ws
  {
    if n > 0 {
      LastIs(ws, n - 1, addr);
      if Slot(ws[n - 1].addr) == Slot(addr) {
        assert LastInSlot(ws[..n], n - 1, addr);
      } else {
        forall k ensures LastInSlot(ws[..n], k, addr) <==> LastInSlot(ws[..n - 1], k, addr) {
          SameLast(ws, n, k, addr);
        }
      }
    }
  }

  lemma SlotIsLast(cells: seq<Smem>, ws: seq<Write>, addr: nat)
    requires Logged(cells, ws) && Slot(addr) < |cells|
    ensures forall k ::
      LastInSlot(ws, k, addr) ==> 0 <= k < |ws| && cells[Slot(addr)] == ws[k].entry && ws[k].entry.is_init
    ensures cells[Slot(addr)].is_init ==> exists k :: LastInSlot(ws, k, addr)
  {
    LastIs(ws, |ws|, addr);
  }

  lemma SameLast(ws: seq<Write>, n: nat, k: int, addr: nat)
    requires 0 < n <= |ws| && Slot(ws[n - 1].addr) != Slot(addr)
    ensures LastInSlot(ws[..n], k, addr) <==> LastInSlot(ws[..n - 1], k, addr)
  {
    assert forall j :: 0 <= j < n - 1 ==> ws[..n][j] == ws[..n - 1][j];
    assert ws[..n][n - 1] == ws[n - 1];
  }

  /** The table holds what the stores left in its slots. */
  ghost predicate Logged(cells: seq<Smem>, ws: seq<Write>) {
    && (forall i :: 0 <= i < |cells| ==> cells[i] == InSlot(ws, |ws|, i))
    && forall k :: 0 <= k < |ws| ==> ws[k].entry.is_init
  }

  lemma LoggedNext(cells: seq<Smem>, ws: seq<Write>, w: Write)
    requires Logged(cells, ws) && |cells| == HASH_TABLE_ENTRIES && w.entry.is_init
    ensures Logged(cells[Slot(w.addr) := w.entry], ws + [w])
  {
    var after := cells[Slot(w.addr) := w.entry];
    forall i | 0 <= i < |after| ensures after[i] == InSlot(ws + [w], |ws| + 1, i) {
      InSlotSame(ws + [w], ws, |ws|, i);
    }
  }

  lemma {:induction false} InSlotSame(a: seq<Write>, b: seq<Write>, n: nat, slot: nat)
    requires n <= |a| && n <= |b| && forall k :: 0 <= k < n ==> a[k] == b[k]
    ensures InSlot(a, n, slot) == InSlot(b, n, slot)
  {
    if n > 0 { InSlotSame(a, b, n - 1, slot); }
  }

  class Runtime {
    const slots: array<Smem>
    const lock_key_map: array<int>
    var m_key_stack_top: nat
    var m_key_counter: int
    var m_timestamp: nat
    var temps: map<Ptr, Temp>
    ghost var frames: seq<int>
    /** All stores so far. */
    ghost var log: seq<Write>

    ghost function State(): KeyState
      reads this
    {
      KeyState(frames, m_key_counter)
    }

    ghost predicate KeysValid()
      reads this, lock_key_map
    {
      && Good(State()) && m_key_stack_top == |frames| < lock_key_map.Length
      && forall l :: 0 <= l < lock_key_map.Length ==> lock_key_map[l] == KeyAt(State(), l)
    }

    /** Temporaries belong to running activations, and shadow memory entries are safe to follow. */
    ghost predicate Valid()
      reads this, slots, lock_key_map
    {
      && slots.Length == HASH_TABLE_ENTRIES && KeysValid()
      && Homed(frames, temps) && Logged(slots[..], log)
      && AllSafe(State(), temps, slots[..]) && LocksBelow(slots[..], lock_key_map.Length)
    }

    /** The key of the new activation goes on top of the stack. */
    method PushKey()
      requires KeysValid() && m_key_stack_top + 1 < lock_key_map.Length
      modifies this`m_key_stack_top, this`m_key_counter, this`frames, lock_key_map
      ensures KeysValid() && State() == Next(old(State()), Enter)
    {
      NextGood(State(), Enter);
      m_key_stack_top := m_key_stack_top + 1;
      m_key_counter := m_key_counter + 1;
      lock_key_map[m_key_stack_top] := m_key_counter;
      frames := frames + [m_key_counter];
    }

    /** The key of the activation that ends is cleared. */
    method PopKey()
      requires KeysValid() && m_key_stack_top >= 1
      modifies this`m_key_stack_top, this`frames, lock_key_map
      ensures KeysValid() && State() == Next(old(State()), Exit)
    {
      NextGood(State(), Exit);
      lock_key_map[m_key_stack_top] := 0;
      m_key_stack_top := m_key_stack_top - 1;
      frames := frames[..|frames| - 1];
    }

    /** fpsan_func_init, and the frame's temporaries come into being. */
    method FuncInit(n: nat)
      requires Valid() && m_key_stack_top + 1 < lock_key_map.Length
      modifies this, lock_key_map
      ensures Valid() && State() == Next(old(State()), Enter)
      ensures temps == old(temps) + NewTemps(m_key_counter, n) && log == old(log) && m_timestamp == old(m_timestamp)
    {
      hide Safe, Logged, InSlot, Good;
      var key := m_key_counter + 1;
      var more := temps + NewTemps(key, n);
      AllSafeEnter(State(), temps, more, slots[..]);
      PushKey();
      temps := more;
    }

    /** fpsan_func_exit, and the frame's temporaries are gone. */
    method FuncExit()
      requires Valid() && m_key_stack_top >= 1
      modifies this, lock_key_map
      ensures Valid() && State() == Next(old(State()), Exit)
      ensures temps == Without(old(temps), old(lock_key_map[m_key_stack_top])) && log == old(log)
        && m_timestamp == old(m_timestamp)
    {
      var key := lock_key_map[m_key_stack_top];
      var rest := Without(temps, key);
      assert key == frames[|frames| - 1];
      HomedExit(frames, temps);
      AllSafeExit(State(), temps, slots[..]);
      PopKey();
      temps := rest;
    }

    /** The state fpsan_init leaves: one activation, no shadow memory entry. */
    constructor (stack_size: nat)
      requires stack_size >= 2
      ensures Valid() && State() == KeyState([1], 1) && log == [] && lock_key_map.Length == stack_size
      ensures fresh(slots) && fresh(lock_key_map)
    {
      slots := new Smem[HASH_TABLE_ENTRIES](_ => Uninitialised());
      lock_key_map := new int[stack_size](_ => 0);
      m_key_stack_top, m_key_counter, m_timestamp := 1, 1, 0;
      temps, frames, log := map[], [1], [];
      new;
      lock_key_map[m_key_stack_top] := m_key_counter;
    }

    /** Writing an entry that is safe. */
    method Put(addr: nat, c: Smem)
      requires Valid() && Safe(State(), temps, c) && c.is_init && c.lock < lock_key_map.Length
      modifies this`log, slots
      ensures Valid() && log == old(log) + [Write(addr, c)] && slots[..] == old(slots[..])[Slot(addr) := c]
    {
      ghost var cells := slots[..];
      slots[Slot(addr)] := c;
      assert slots[..] == cells[Slot(addr) := c];
      LoggedNext(cells, log, Write(addr, c));
      log := log + [Write(addr, c)];
    }

    /** fpsan_store_shadow, in agreement with the shadow semantics: the entry notes the temporary's address together
        with the storing activation's lock and key. */
    method Store(addr: nat, src: Ptr)
      requires Valid() && src in temps && m_key_stack_top >= 1
      modifies this`log, slots
      ensures Valid()
      ensures var c := Smem(true, temps[src].val, temps[src].computed, temps[src].opcode,
                            m_key_stack_top, lock_key_map[m_key_stack_top], Some(src));
        log == old(log) + [Write(addr, c)] && slots[..] == old(slots[..])[Slot(addr) := c]
      ensures Metadata(slots[..]) == old(Metadata(slots[..]))[Slot(addr) := MetaOf(temps[src])]
    {
      var t := temps[src];
      ghost var i :| 0 <= i < |frames| && frames[i] == src.frame;
      Put(addr, Smem(true, t.val, t.computed, t.opcode, m_key_stack_top, lock_key_map[m_key_stack_top], Some(src)));
    }

    /** fpsan_store_shadow_dconst and _fconst. */
    method StoreConst(addr: nat, d: real)
      requires Valid()
      modifies this`log, slots
      ensures Valid()
      ensures var c := Smem(true, d, d, S.CONSTANT, m_key_stack_top, lock_key_map[m_key_stack_top], None);
        log == old(log) + [Write(addr, c)] && slots[..] == old(slots[..])[Slot(addr) := c]
      ensures Metadata(slots[..]) == old(Metadata(slots[..]))[Slot(addr) := S.ConstMeta(d)]
    {
      Put(addr, Smem(true, d, d, S.CONSTANT, m_key_stack_top, lock_key_map[m_key_stack_top], None));
    }

    /** The entry's trace is followed: it has one, and the activation that stored it is still running. */
    predicate Follows(c: Smem)
      requires c.lock < lock_key_map.Length
      reads lock_key_map
    {
      c.tmp_ptr.Some? && lock_key_map[c.lock] == c.key
    }

    /** The load takes over the trace of the temporary that was stored. */
    predicate Traced(selective: bool, c: Smem, v: real)
      reads lock_key_map
    {
      c.is_init && !(selective && v != c.computed) && c.lock < lock_key_map.Length && Follows(c)
    }

    /** What the load writes to the temporary, and whether it takes a new timestamp.  Following the trace is
        safe: the temporary it points to exists. */
    method LoadTemp(selective: bool, dest: Smem, v: real) returns (t: Temp, stamped: bool)
      requires Valid() && dest.lock < lock_key_map.Length && Safe(State(), temps, dest)
      ensures MetaOf(t) == LoadFrom(selective, dest, v)
      ensures t.lock == m_key_stack_top && t.key == lock_key_map[m_key_stack_top]
      ensures if Traced(selective, dest, v)
        then dest.tmp_ptr.value in temps && t.trace == temps[dest.tmp_ptr.value].trace && !stamped
        else t.trace == NoTrace(m_timestamp) && stamped
    {
      var lock, key := m_key_stack_top, lock_key_map[m_key_stack_top];
      stamped := true;
      if !dest.is_init || (selective && v != dest.computed) {
        t := Temp(v, v, S.CONSTANT, lock, key, NoTrace(m_timestamp));
      } else if Follows(dest) {
        stamped := false;
        t := Temp(dest.val, dest.computed, dest.opcode, lock, key, temps[dest.tmp_ptr.value].trace);
      } else {
        t := Temp(dest.val, dest.computed, dest.opcode, lock, key, NoTrace(m_timestamp));
      }
    }

    /** fpsan_load_shadow_d and _f.  The load gives what the last store to its slot stored, high-precision value,
        computed value and opcode; a slot that was never written, or with SELECTIVE compiled in one written with
        another computed value, gives the loaded value as a constant.  Within a window of words, or as long as no
        other word of the slot is stored to, that store is the last to its word. */
    method Load(selective: bool, addr: nat, v: real, src: Ptr)
      requires Valid() && src in temps
      modifies this`temps, this`m_timestamp
      ensures Valid() && src in temps && temps == old(temps)[src := temps[src]]
      ensures MetaOf(temps[src]) == S.LoadMeta(selective, Metadata(slots[..]), addr, v)
      ensures forall k :: LastInSlot(log, k, addr) && (selective ==> v == log[k].entry.computed) ==>
        && temps[src].val == log[k].entry.val && temps[src].computed == log[k].entry.computed
        && temps[src].opcode == log[k].entry.opcode
      ensures (forall k :: LastInSlot(log, k, addr) ==> selective && v != log[k].entry.computed) ==>
        temps[src].val == temps[src].computed == v && temps[src].opcode == S.CONSTANT
      ensures forall k :: LastToWord(log, k, addr) && (!Clobbered(log, |log|, addr) || OneWindow(log, addr)) ==>
        LastInSlot(log, k, addr)
      ensures selective ==> temps[src].computed == v
      ensures temps[src].lock == m_key_stack_top && temps[src].key == lock_key_map[m_key_stack_top]
      ensures var c := slots[Slot(addr)];
        if c.is_init && (selective ==> v == c.computed) && c.tmp_ptr.Some? && c.lock < lock_key_map.Length
          && lock_key_map[c.lock] == c.key
        then c.tmp_ptr.value in old(temps) && temps[src].trace == old(temps)[c.tmp_ptr.value].trace
             && m_timestamp == old(m_timestamp)
        else temps[src].trace == Trace(0, 0, None, 0, 0, None, old(m_timestamp)) && m_timestamp == old(m_timestamp) + 1
    {
      hide InSlot, Clobbered, OneWindow, LastToWord, KeyAt, Safe, LastInSlot;
      var dest := slots[Slot(addr)];
      assert slots[..][Slot(addr)] == dest;
      SlotIsLast(slots[..], log, addr);
      forall k | LastToWord(log, k, addr) && (!Clobbered(log, |log|, addr) || OneWindow(log, addr))
        ensures LastInSlot(log, k, addr)
      {
        LastStays(log, k, addr);
      }
      var t, stamped := LoadTemp(selective, dest, v);
      AllSafeSame(State(), temps, temps[src := t], slots[..]);
      temps := temps[src := t];
      if stamped { m_timestamp := m_timestamp + 1; }
    }
  }
}
