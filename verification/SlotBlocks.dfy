/** Which blocks the slots of the ring point to. */
module SlotBlocks {
  import opened DeviceSpec
  import opened CircularBuffer
  import opened Ownership

  predicate InSlots(slots: seq<Entry>, upTo: nat, id: nat)
    requires upTo <= |slots|
  {
    exists j :: 0 <= j < upTo && slots[j].buffptr == Block(id)
  }

  lemma {:induction false} InSlotsStep(slots: seq<Entry>, j: nat)
    requires j < |slots|
    ensures forall id :: InSlots(slots, j + 1, id) <==> InSlots(slots, j, id) || slots[j].buffptr == Block(id)
  {
  }

  /** The add that slot `j` holds, if any, counted from the oldest readable one. */
  function Age(outOffs: nat, j: nat): (i: nat)
    requires outOffs < CAPACITY && j < CAPACITY
    ensures i < CAPACITY && Around(outOffs + i) == j
  {
    if outOffs <= j then j - outOffs else j + CAPACITY - outOffs
  }

  /** A slot is unused or holds one of the last ten adds, at an index of its own. */
  lemma {:induction false} SlotHolds(b: Books, slots: seq<Entry>, inOffs: nat, outOffs: nat, full: bool, j: nat)
    requires Represents(slots, inOffs, outOffs, full, b.adds) && Balanced(b, {}) && j < CAPACITY
    ensures var i := Age(outOffs, j);
            if i < |Live(b.adds)| then Owns(b, slots[j].buffptr, Commit(Start(|b.adds|) + i)) else slots[j] == UNUSED
  {
    var i := Age(outOffs, j);
    RotatedAt(slots, inOffs, outOffs, full, b.adds, i);
    if i < |Live(b.adds)| {
      assert CommitStored(b, Start(|b.adds|) + i);
    }
  }

  /** The history of adds determines the whole ring. */
  lemma {:induction false} RingDetermined(slots: seq<Entry>, inOffs: nat, outOffs: nat, full: bool,
                                          slots': seq<Entry>, inOffs': nat, outOffs': nat, full': bool, adds: seq<Entry>)
    requires Represents(slots, inOffs, outOffs, full, adds) && Represents(slots', inOffs', outOffs', full', adds)
    ensures slots == slots' && inOffs == inOffs' && outOffs == outOffs' && full == full'
  {
    forall j | 0 <= j < CAPACITY
      ensures slots[j] == slots'[j]
    {
      RotatedAt(slots, inOffs, outOffs, full, adds, Age(outOffs, j));
      RotatedAt(slots', inOffs', outOffs', full', adds, Age(outOffs, j));
    }
  }

  /** No block is in two slots, so freeing slot after slot frees nothing twice. */
  lemma {:induction false} SlotIsFirst(b: Books, slots: seq<Entry>, inOffs: nat, outOffs: nat, full: bool, j: nat)
    requires Represents(slots, inOffs, outOffs, full, b.adds) && Balanced(b, {}) && j < CAPACITY
    requires slots[j].buffptr.Block?
    ensures Owns(b, slots[j].buffptr, Commit(Start(|b.adds|) + Age(outOffs, j)))
    ensures !InSlots(slots, j, slots[j].buffptr.id)
  {
    SlotHolds(b, slots, inOffs, outOffs, full, j);
    forall j' | 0 <= j' < j
      ensures slots[j'].buffptr != slots[j].buffptr
    {
      SlotHolds(b, slots, inOffs, outOffs, full, j');
    }
  }

  /** The blocks in the slots are those of the last ten commits. */
  lemma {:induction false} SlotsAreLive(b: Books, slots: seq<Entry>, inOffs: nat, outOffs: nat, full: bool, id: nat)
    requires Represents(slots, inOffs, outOffs, full, b.adds) && Balanced(b, {}) && id in b.owner
    ensures InSlots(slots, CAPACITY, id) <==> b.owner[id].Commit? && Start(|b.adds|) <= b.owner[id].k
  {
    if InSlots(slots, CAPACITY, id) {
      var j :| 0 <= j < CAPACITY && slots[j].buffptr == Block(id);
      SlotHolds(b, slots, inOffs, outOffs, full, j);
    }
    if b.owner[id].Commit? && Start(|b.adds|) <= b.owner[id].k {
      assert OwnerReal(b, id);
      var i := b.owner[id].k - Start(|b.adds|);
      assert slots[Around(outOffs + i)] == Live(b.adds)[i];
    }
  }
}
