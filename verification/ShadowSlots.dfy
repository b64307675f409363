module ShadowSlots {
  // Direct-mapped shadow memory: one metadata entry per slot, no tag.

  const HASH_TABLE_ENTRIES: nat := 1024 * 1024

  /** m_get_shadowaddress: 4-byte words, reduced modulo the table size. */
  function Slot(addr: nat): (slot: nat)
    ensures slot < HASH_TABLE_ENTRIES
  {
    (addr / 4) % HASH_TABLE_ENTRIES
  }

  /** The addresses whose words lie in a window of as many words as the table has slots. */
  predicate InWindow(base: nat, addr: nat) { base <= addr / 4 < base + HASH_TABLE_ENTRIES }

  /** Within a window, two addresses share a slot exactly if they share the word. */
  lemma SlotInjective(base: nat, a: nat, b: nat)
    requires InWindow(base, a) && InWindow(base, b)
    ensures Slot(a) == Slot(b) <==> a / 4 == b / 4
  {
    if Slot(a) == Slot(b) {
      var n, v, w := HASH_TABLE_ENTRIES, a / 4, b / 4;
      assert v == n * (v / n) + v % n && w == n * (w / n) + w % n;
      assert v - w == n * (v / n - w / n);
      var q := v / n - w / n;
      assert q >= 1 ==> n * q >= n;
      assert q <= -1 ==> n * q <= -n;
    }
  }
}
