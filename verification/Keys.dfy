module Keys {
  // The lock/key discipline of the runtime (CETS style): every function activation gets a fresh key, kept in
  // m_lock_key_map at the activation's depth, its lock; leaving the function clears that cell.  A pair (lock, key)
  // noted down by an activation can be compared with the map later.

  /** The keys of the running activations, outermost first, and the last key given out. */
  datatype KeyState = KeyState(frames: seq<int>, counter: int)

  datatype Event = Enter | Exit

  /** Keys are positive, increase from caller to callee, and have all been given out. */
  ghost predicate Good(s: KeyState) {
    && s.counter >= 0
    && (forall i :: 0 <= i < |s.frames| ==> 1 <= s.frames[i] <= s.counter)
    && (forall i, j :: 0 <= i < j < |s.frames| ==> s.frames[i] < s.frames[j])
  }

  function Next(s: KeyState, e: Event): KeyState {
    match e
    case Enter => KeyState(s.frames + [s.counter + 1], s.counter + 1)
    case Exit => if s.frames == [] then s else KeyState(s.frames[..|s.frames| - 1], s.counter)
  }

  function Run(s: KeyState, es: seq<Event>, n: nat): KeyState
    requires n <= |es|
  {
    if n == 0 then s else Next(Run(s, es, n - 1), es[n - 1])
  }

  lemma NextGood(s: KeyState, e: Event)
    requires Good(s)
    ensures Good(Next(s, e)) && Next(s, e).counter >= s.counter
  {}

  /** What m_lock_key_map holds at a lock: the key of the activation at that depth, 0 above the top. */
  function KeyAt(s: KeyState, lock: int): int { if 1 <= lock <= |s.frames| then s.frames[lock - 1] else 0 }

  /** The activation at depth `lock` of state s has not been left during the first n events. */
  ghost predicate StillRunning(s: KeyState, es: seq<Event>, n: nat, lock: nat)
    requires n <= |es|
  {
    |Run(s, es, n).frames| >= lock && (n > 0 ==> StillRunning(s, es, n - 1, lock))
  }

  /** While the activation runs its cell keeps its key; once it has been left, whatever activation comes to be
      at its depth has a younger key. */
  lemma {:induction false} KeyHistory(s: KeyState, es: seq<Event>, n: nat, lock: nat)
    requires Good(s) && 1 <= lock <= |s.frames| && n <= |es|
    ensures Good(Run(s, es, n)) && Run(s, es, n).counter >= s.counter
    ensures StillRunning(s, es, n, lock) ==> KeyAt(Run(s, es, n), lock) == s.frames[lock - 1]
    ensures !StillRunning(s, es, n, lock) ==>
      forall i :: lock - 1 <= i < |Run(s, es, n).frames| ==> Run(s, es, n).frames[i] > s.counter
  {
    if n > 0 {
      KeyHistory(s, es, n - 1, lock);
      NextGood(Run(s, es, n - 1), es[n - 1]);
    }
  }

  /** A pair captured by an activation matches the map exactly as long as that activation has not been left,
      whatever calls and returns happen: keys are never reused. */
  lemma KeysExact(s: KeyState, es: seq<Event>, lock: nat)
    requires Good(s) && 1 <= lock <= |s.frames|
    ensures KeyAt(Run(s, es, |es|), lock) == KeyAt(s, lock) <==> StillRunning(s, es, |es|, lock)
  {
    KeyHistory(s, es, |es|, lock);
  }
}
