/** Who owns which kernel block: the bookkeeping invariant of the driver, on values. */
module Ownership {
  import opened Bytes
  import opened DeviceSpec
  import opened CircularBuffer
  import opened Kernel

  type Blocks = map<nat, seq<Byte>>

  /** Why a block is allocated: it holds commit `k`, it is the pending entry, or its pointer was lost. */
  datatype Owner = Commit(k: nat) | Pending | Lost

  /** The heap, the owner of each block, every entry ever added to the ring, the pending entry, and the log. */
  datatype Books = Books(blocks: Blocks, owner: map<nat, Owner>, adds: seq<Entry>, entry: Entry, log: Log)

  predicate Owns(b: Books, p: Ptr, who: Owner) {
    p.Block? && p.id in b.blocks && p.id in b.owner && b.owner[p.id] == who
  }

  /** Entry `k` of the history is stored, byte for byte, in a block of its own. */
  predicate CommitStored(b: Books, k: nat)
    requires k < |b.adds| && k < |b.log.committed|
  {
    var e := b.adds[k];
    Owns(b, e.buffptr, Commit(k)) && b.blocks[e.buffptr.id] == b.log.committed[k] && e.size == |b.log.committed[k]|
  }

  predicate PendingStored(b: Books) {
    && b.entry.size == |b.log.pending| <= MAX_BLOCK
    && (b.entry.buffptr.ZeroSize? ==> b.entry.size == 0)
    && (b.entry.buffptr.Block? ==>
          Owns(b, b.entry.buffptr, Pending) && b.blocks[b.entry.buffptr.id] == b.log.pending)
  }

  /** The owner recorded for a block really points to it. */
  predicate OwnerReal(b: Books, id: nat)
    requires id in b.owner
  {
    match b.owner[id]
    case Commit(k) => k < |b.adds| && b.adds[k].buffptr == Block(id)
    case Pending => b.entry.buffptr == Block(id)
    case Lost => true
  }

  /** The blocks that nobody points to any more. */
  function LostIds(owner: map<nat, Owner>): set<nat> {
    set id | id in owner && owner[id].Lost?
  }

  /** Every block has one owner, apart from the blocks in `extra`. */
  ghost predicate Balanced(b: Books, extra: set<nat>) {
    && |b.adds| == |b.log.committed|
    && (forall k :: 0 <= k < |b.adds| ==> CommitStored(b, k))
    && PendingStored(b)
    && (forall id :: id in b.owner ==> OwnerReal(b, id))
    && b.blocks.Keys == b.owner.Keys + extra && b.owner.Keys !! extra
  }

  /** An owned block is distinct from every other: nothing is stored twice or shared. */
  lemma {:induction false} BuffersDistinct(b: Books, extra: set<nat>, j: nat, k: nat)
    requires Balanced(b, extra) && j < k < |b.adds|
    ensures b.adds[j].buffptr != b.adds[k].buffptr
    ensures b.entry.buffptr.Block? ==> b.adds[k].buffptr != b.entry.buffptr
  {
    assert CommitStored(b, j) && CommitStored(b, k);
  }

  /** The first `m` commits account for exactly `m` blocks. */
  lemma {:induction false} BlocksOfCommits(b: Books, extra: set<nat>, m: nat) returns (ids: set<nat>)
    requires Balanced(b, extra) && m <= |b.adds|
    ensures |ids| == m
    ensures forall id :: id in ids <==> id in b.owner && b.owner[id].Commit? && b.owner[id].k < m
  {
    if m == 0 {
      ids := {};
    } else {
      var before := BlocksOfCommits(b, extra, m - 1);
      assert CommitStored(b, m - 1);
      ids := before + {b.adds[m - 1].buffptr.id};
      forall id | id in b.owner && b.owner[id] == Commit(m - 1)
        ensures id in ids
      {
        assert OwnerReal(b, id);
      }
    }
  }

  /** Holding one more block for a while, and giving it back. */
  lemma {:induction false} BorrowKeeps(b: Books, p: Ptr, bytes: seq<Byte>, blocks: Blocks)
    requires Balanced(b, {})
    requires p.Block? ==> p.id !in b.blocks && blocks == b.blocks[p.id := bytes]
    requires !p.Block? ==> blocks == b.blocks
    ensures Balanced(b.(blocks := blocks), PtrIds(p))
  {
    var b' := b.(blocks := blocks);
    forall k | 0 <= k < |b.adds|
      ensures CommitStored(b', k)
    {
      assert CommitStored(b, k);
    }
    forall i | i in b.owner
      ensures OwnerReal(b', i)
    {
      assert OwnerReal(b, i);
    }
  }

  lemma {:induction false} RefillKeeps(b: Books, p: Ptr, bytes: seq<Byte>)
    requires Balanced(b, PtrIds(p))
    ensures Balanced(b.(blocks := if p.Block? then b.blocks[p.id := bytes] else b.blocks), PtrIds(p))
  {
    var b' := b.(blocks := if p.Block? then b.blocks[p.id := bytes] else b.blocks);
    forall k | 0 <= k < |b.adds|
      ensures CommitStored(b', k)
    {
      assert CommitStored(b, k);
    }
    forall i | i in b.owner
      ensures OwnerReal(b', i)
    {
      assert OwnerReal(b, i);
    }
  }

  lemma {:induction false} ReturnKeeps(b: Books, p: Ptr)
    requires Balanced(b, PtrIds(p))
    ensures Balanced(b.(blocks := b.blocks - PtrIds(p)), {})
  {
    var b' := b.(blocks := b.blocks - PtrIds(p));
    forall k | 0 <= k < |b.adds|
      ensures CommitStored(b', k)
    {
      assert CommitStored(b, k);
    }
    forall i | i in b.owner
      ensures OwnerReal(b', i)
    {
      assert OwnerReal(b, i);
    }
  }

  /** The books after krealloc refused: the old block stays allocated with nobody pointing to it. */
  function AfterLoss(b: Books): Books {
    b.(owner := if b.entry.buffptr.Block? then b.owner[b.entry.buffptr.id := Lost] else b.owner,
       entry := b.entry.(buffptr := Null))
  }

  lemma {:induction false} LossKeeps(b: Books, extra: set<nat>)
    requires Balanced(b, extra)
    ensures Balanced(AfterLoss(b), extra)
    ensures LostIds(AfterLoss(b).owner) == LostIds(b.owner) + PtrIds(b.entry.buffptr)
  {
    var b' := AfterLoss(b);
    forall k | 0 <= k < |b.adds|
      ensures CommitStored(b', k)
    {
      assert CommitStored(b, k);
    }
    forall i | i in b.owner
      ensures OwnerReal(b', i)
    {
      assert OwnerReal(b, i);
    }
  }

  /** The books after the pending entry moved to `p` and now holds `bytes`. */
  function AfterMove(b: Books, p: Ptr, bytes: seq<Byte>): Books
    requires |bytes| < SIZE_LIMIT
  {
    var rest := b.(blocks := b.blocks - PtrIds(b.entry.buffptr), owner := b.owner - PtrIds(b.entry.buffptr),
                   entry := Entry(p, |bytes|), log := b.log.(pending := bytes));
    if p.Block? then rest.(blocks := rest.blocks[p.id := bytes], owner := rest.owner[p.id := Pending]) else rest
  }

  lemma {:induction false} MoveKeeps(b: Books, extra: set<nat>, p: Ptr, bytes: seq<Byte>)
    requires Balanced(b, extra) && |bytes| <= MAX_BLOCK
    requires p.Block? ==> p.id !in b.blocks || p == b.entry.buffptr
    requires p.ZeroSize? ==> bytes == []
    ensures Balanced(AfterMove(b, p, bytes), extra)
    ensures LostIds(AfterMove(b, p, bytes).owner) == LostIds(b.owner)
  {
    var b' := AfterMove(b, p, bytes);
    forall k | 0 <= k < |b.adds|
      ensures CommitStored(b', k)
    {
      assert CommitStored(b, k);
    }
    forall i | i in b'.owner
      ensures OwnerReal(b', i)
    {
      assert i in b.owner ==> OwnerReal(b, i);
    }
  }

  /** The books after the pending entry was added to the ring. */
  function AfterCommit(b: Books): Books
    requires b.entry.buffptr.Block?
  {
    Books(b.blocks, b.owner[b.entry.buffptr.id := Commit(|b.adds|)], b.adds + [b.entry], UNUSED,
          Log(b.log.committed + [b.log.pending], []))
  }

  lemma {:induction false} CommitKeeps(b: Books, extra: set<nat>)
    requires Balanced(b, extra) && b.entry.buffptr.Block?
    ensures Balanced(AfterCommit(b), extra)
    ensures LostIds(AfterCommit(b).owner) == LostIds(b.owner)
  {
    var b' := AfterCommit(b);
    forall k | 0 <= k < |b.adds|
      ensures CommitStored(b', k)
    {
      assert CommitStored(b, k);
    }
    assert CommitStored(b', |b.adds|);
    forall i | i in b.owner
      ensures OwnerReal(b', i)
    {
      assert OwnerReal(b, i);
    }
  }
}
