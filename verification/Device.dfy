/** The char driver of main.c: what it does to the ring, the pending entry and the kernel heap. */
module Device {
  import opened Bytes
  import opened DeviceSpec
  import opened CircularBuffer
  import opened Kernel
  import opened Ownership
  import opened Positions
  import opened SlotBlocks

  const ERESTARTSYS: int := 512
  const EFAULT: int := 14
  const ENOMEM: int := 12

  /** What the surroundings decide about one call: whether taking the device lock is interrupted, whether
      the two allocations and the copy to or from user space succeed, whether krealloc can resize in place, and
      what fresh memory holds. */
  datatype Env = Env(interrupted: bool, kmallocOk: bool, copyOk: bool, kreallocOk: bool, inPlace: bool, junk: nat -> Byte)

  predicate CanAllocate(n: nat, ok: bool) {
    n == 0 || (ok && n <= MAX_BLOCK)
  }

  /** The call gets past the lock, the temporary buffer and the copy from user space. */
  predicate ReachesDevice(buf: seq<Byte>, env: Env) {
    !env.interrupted && CanAllocate(|buf|, env.kmallocOk) && env.copyOk
  }

  /** Whether krealloc can grow the pending entry: nothing to allocate, or room and a willing allocator. */
  predicate Fits(size: nat, piece: seq<Byte>, env: Env) {
    size + |piece| == 0 || (env.kreallocOk && size + |piece| <= MAX_BLOCK)
  }

  /** The pending entry and the first `index` slots having been freed. */
  predicate StillAllocated(b: Books, slots: seq<Entry>, index: nat, id: nat)
    requires index <= |slots|
  {
    id in b.owner && b.owner[id] != Pending && !InSlots(slots, index, id)
  }

  /** The loop that looks for the first newline of a write; -1 when there is none. */
  method NewlineSearch(kbuf: seq<Byte>) returns (newlinePos: int)
    ensures Clean(kbuf) ==> newlinePos == -1
    ensures !Clean(kbuf) ==> 0 <= newlinePos < |kbuf| && kbuf[..newlinePos + 1] == UpToNewline(kbuf)
  {
    newlinePos := -1;
    var i := 0;
    while i < |kbuf|
      invariant 0 <= i <= |kbuf| && newlinePos == -1
      invariant FirstNewline(kbuf) == FirstNewlineFrom(kbuf, i)
    {
      if kbuf[i] == NEWLINE {
        newlinePos := i;
        break;
      }
      i := i + 1;
    }
  }

  class AesdDevice {
    const buffer: Ring
    const heap: Heap
    var entry: Entry
    ghost var log: Log
    ghost var owner: map<nat, Owner>

    ghost function Accounts(): Books
      reads this, buffer, heap
    {
      Books(heap.blocks, owner, buffer.adds, entry, log)
    }

    /** The device is consistent, the blocks in `extra` being allocated for something else. */
    ghost predicate ValidWith(extra: set<nat>)
      reads this, buffer, buffer.entry, heap
    {
      buffer.Valid() && heap.Valid() && Balanced(Accounts(), extra)
    }

    ghost predicate Valid()
      reads this, buffer, buffer.entry, heap
    {
      ValidWith({})
    }

    /** The pending bytes are really there: no krealloc has lost their block. */
    predicate Intact()
      reads this
    {
      entry.buffptr.Null? ==> entry.size == 0
    }

    /** The state set up by aesd_init_module. */
    constructor ()
      ensures Valid() && Intact() && fresh(buffer) && fresh(buffer.entry) && fresh(heap)
      ensures log == EMPTY_LOG && heap.blocks == map[] && owner == map[]
    {
      buffer := new Ring();
      heap := new Heap();
      entry := UNUSED;
      log := EMPTY_LOG;
      owner := map[];
    }

    /** The pending bytes that a growing write keeps: those of the pending block, or whatever fresh memory
        holds in its place. */
    ghost function Base(junk: nat -> Byte): seq<Byte>
      reads this, heap
      requires entry.buffptr.Block? ==> entry.buffptr.id in heap.blocks
    {
      if entry.buffptr.Block? then heap.blocks[entry.buffptr.id] else seq(entry.size, junk)
    }

    /** krealloc plus memcpy on the pending entry. */
    method Grow(piece: seq<Byte>, env: Env) returns (ok: bool)
      requires heap.Valid() && PendingStored(Accounts()) && |piece| <= MAX_BLOCK
      modifies this, heap
      ensures heap.Valid()
      ensures ok <==> Fits(old(entry.size), piece, env)
      ensures !ok ==> Accounts() == AfterLoss(old(Accounts()))
      ensures ok ==> var bytes := old(Base(env.junk)) + piece;
                     && |bytes| <= MAX_BLOCK
                     && (entry.buffptr.Block? <==> bytes != [])
                     && (entry.buffptr.Block? ==> entry.buffptr.id !in old(heap.blocks) || entry.buffptr == old(entry.buffptr))
                     && Accounts() == AfterMove(old(Accounts()), entry.buffptr, bytes)
    {
      ghost var bytes := Base(env.junk) + piece;
      ghost var b := Accounts();
      var p := heap.GrowBlock(entry.buffptr, entry.size, piece, env.kreallocOk, env.inPlace, env.junk);
      if p.Null? {
        owner := AfterLoss(b).owner;
        entry := entry.(buffptr := p);
        return false;
      }
      entry := Entry(p, entry.size + |piece|);
      owner := AfterMove(b, p, bytes).owner;
      log := log.(pending := bytes);
      assert heap.blocks == AfterMove(b, p, bytes).blocks;
      return true;
    }

    /** The pending entry goes into the ring and a new one begins. */
    method CommitPending(ghost extra: set<nat>)
      requires ValidWith(extra) && entry.buffptr.Block?
      modifies this, buffer, buffer.entry
      ensures ValidWith(extra) && entry == UNUSED
      ensures log == Log(old(log.committed) + [old(log.pending)], []) && LostIds(owner) == old(LostIds(owner))
    {
      ghost var b := Accounts();
      CommitKeeps(b, extra);
      buffer.AddEntry(entry);
      owner := AfterCommit(b).owner;
      entry := UNUSED;
      log := AfterCommit(b).log;
      assert Accounts() == AfterCommit(b);
    }

    /** Everything a write does once the user's bytes are in kernel memory. */
    method Accept(data: seq<Byte>, env: Env, ghost extra: set<nat>) returns (ok: bool)
      requires ValidWith(extra) && |data| <= MAX_BLOCK
      modifies this, buffer, buffer.entry, heap
      ensures ValidWith(extra)
      ensures ok <==> Fits(old(entry.size), UpToNewline(data), env)
      ensures ok ==> Intact() && log == DeviceSpec.Write(Log(old(log.committed), old(Base(env.junk))), data)
      ensures !ok ==> log == old(log) && buffer.adds == old(buffer.adds) && entry == Entry(Null, old(entry.size))
      ensures LostIds(owner) == old(LostIds(owner)) + if ok then {} else old(PtrIds(entry.buffptr))
    {
      var newlinePos := NewlineSearch(data);
      var piece := if newlinePos == -1 then data else data[..newlinePos + 1];
      ghost var b := Accounts();
      ok := Grow(piece, env);
      if !ok {
        LossKeeps(b, extra);
        return;
      }
      ghost var bytes := old(Base(env.junk)) + piece;
      MoveKeeps(b, extra, entry.buffptr, bytes);
      if newlinePos != -1 {
        CommitPending(extra);
      }
    }

    /** The rest of a write, the temporary buffer being allocated: fill it, use it, free it. */
    method Transfer(buf: seq<Byte>, env: Env, kbuf: Ptr) returns (ok: bool)
      requires ValidWith(PtrIds(kbuf)) && |buf| <= MAX_BLOCK
      requires if kbuf.Block? then |heap.blocks[kbuf.id]| == |buf| else buf == []
      modifies this, buffer, buffer.entry, heap
      ensures Valid()
      ensures ok <==> Fits(old(entry.size), UpToNewline(buf), env)
      ensures ok ==> Intact() && log == DeviceSpec.Write(Log(old(log.committed), old(Base(env.junk))), buf)
      ensures !ok ==> log == old(log) && buffer.adds == old(buffer.adds) && entry == Entry(Null, old(entry.size))
      ensures LostIds(owner) == old(LostIds(owner)) + if ok then {} else old(PtrIds(entry.buffptr))
    {
      RefillKeeps(Accounts(), kbuf, buf);
      heap.CopyFromUser(kbuf, buf);
      ok := Accept(buf, env, PtrIds(kbuf));
      ReturnKeeps(Accounts(), kbuf);
      heap.Kfree(kbuf);
    }

    /** aesd_write. A failed krealloc is the one error that changes the device: it forgets where the pending
        bytes are. */
    method Write(buf: seq<Byte>, env: Env) returns (ret: int)
      requires Valid()
      modifies this, buffer, buffer.entry, heap
      ensures Valid()
      ensures env.interrupted ==> ret == -ERESTARTSYS == -512
      ensures !env.interrupted && !CanAllocate(|buf|, env.kmallocOk) ==> ret == -ENOMEM == -12
      ensures !env.interrupted && CanAllocate(|buf|, env.kmallocOk) && !env.copyOk ==> ret == -EFAULT == -14
      ensures !ReachesDevice(buf, env) ==> log == old(log) && entry == old(entry) && buffer.adds == old(buffer.adds)
      ensures ReachesDevice(buf, env) && Fits(old(entry.size), UpToNewline(buf), env) ==>
                && ret == |buf| && Intact()
                && log == DeviceSpec.Write(Log(old(log.committed), old(Base(env.junk))), buf)
                && (old(Intact()) ==> log == DeviceSpec.Write(old(log), buf))
      ensures ReachesDevice(buf, env) && !Fits(old(entry.size), UpToNewline(buf), env) ==>
                && ret == -ENOMEM && log == old(log) && buffer.adds == old(buffer.adds)
                && entry == Entry(Null, old(entry.size))
                && (Intact() <==> old(log.pending) == [])
      ensures !env.interrupted && env.kmallocOk && env.copyOk && env.kreallocOk && old(entry.size) + |buf| <= 0x4000_0000 ==>
                ret == |buf|
      ensures LostIds(owner) == old(LostIds(owner)) +
                if ReachesDevice(buf, env) && !Fits(old(entry.size), UpToNewline(buf), env)
                then old(PtrIds(entry.buffptr)) else {}
    {
      if env.interrupted {
        return -ERESTARTSYS;
      }
      ghost var b := Accounts();
      var kbuf := heap.Kmalloc(|buf|, env.kmallocOk, env.junk);
      if kbuf.Null? {
        return -ENOMEM;
      }
      if !env.copyOk {
        heap.Kfree(kbuf);
        assert heap.blocks == b.blocks;
        return -EFAULT;
      }
      BorrowKeeps(b, kbuf, Resized([], |buf|, env.junk), heap.blocks);
      var ok := Transfer(buf, env, kbuf);
      ret := if ok then |buf| else -ENOMEM;
    }

    /** aesd_read: one stretch of the content, from at most one entry. */
    method Read(count: nat, fpos: SizeT, env: Env) returns (ret: int, data: seq<Byte>, fpos': nat)
      requires Valid()
      ensures env.interrupted ==> ret == -ERESTARTSYS && data == [] && fpos' == fpos
      ensures !env.interrupted && fpos >= |Content(log.committed)| ==> ret == 0 && data == [] && fpos' == fpos
      ensures !env.interrupted && fpos < |Content(log.committed)| && !env.copyOk ==>
                ret == -EFAULT && data == [] && fpos' == fpos
      ensures !env.interrupted && fpos < |Content(log.committed)| && env.copyOk ==>
                && data == ReadChunk(Window(log.committed), fpos, count)
                && ret == |data| && fpos' == fpos + |data|
    {
      if env.interrupted {
        return -ERESTARTSYS, [], fpos;
      }
      LookupServesRead(Accounts(), buffer.entry[..], buffer.inOffs, buffer.outOffs, buffer.full, fpos, count);
      var found := buffer.FindEntryOffset(fpos);
      if found.Missing? {
        return 0, [], fpos;
      }
      var e, o := buffer.entry[found.index], found.byteOffset;
      if !env.copyOk {
        return -EFAULT, [], fpos;
      }
      var n := Min(count, e.size - o);
      return n, heap.blocks[e.buffptr.id][o..o + n], fpos + n;
    }

    /** The freeing part of aesd_cleanup_module. Every kfree here frees a block that is still allocated; what
        stays allocated is exactly the evicted commits and the blocks lost to a failed krealloc. */
    method Cleanup()
      requires Valid()
      modifies heap
      ensures heap.Valid()
      ensures forall id :: id in heap.blocks <==>
                id in owner && (owner[id].Lost? || (owner[id].Commit? && owner[id].k < Start(|log.committed|)))
      ensures forall id :: id in heap.blocks ==> id in old(heap.blocks) && heap.blocks[id] == old(heap.blocks)[id]
    {
      ghost var b := Accounts();
      ghost var slots := buffer.entry[..];
      if !entry.buffptr.Null? {
        heap.Kfree(entry.buffptr);
      }
      var index := 0;
      while index < CAPACITY
        invariant 0 <= index <= CAPACITY && heap.Valid()
        invariant forall id :: id in heap.blocks <==> StillAllocated(b, slots, index, id)
        invariant forall id :: id in heap.blocks ==> id in b.blocks && heap.blocks[id] == b.blocks[id]
      {
        var p := buffer.entry[index].buffptr;
        InSlotsStep(slots, index);
        if !p.Null? {
          if p.Block? {
            SlotIsFirst(b, slots, buffer.inOffs, buffer.outOffs, buffer.full, index);
          }
          heap.Kfree(p);
        }
        index := index + 1;
      }
      forall id | id in owner
        ensures StillAllocated(b, slots, CAPACITY, id) <==>
                  owner[id].Lost? || (owner[id].Commit? && owner[id].k < Start(|log.committed|))
      {
        SlotsAreLive(b, slots, buffer.inOffs, buffer.outOffs, buffer.full, id);
      }
    }
  }

  // ----- a lost pending entry

  function GoodEnv(junk: nat -> Byte): Env {
    Env(false, true, true, true, false, junk)
  }

  method PendOneByte(b: Byte, junk: nat -> Byte) returns (dev: AesdDevice)
    requires b != NEWLINE
    ensures fresh(dev) && fresh(dev.buffer) && fresh(dev.buffer.entry) && fresh(dev.heap) && dev.Valid()
    ensures dev.log == Log([], [b]) && dev.entry.size == 1 && dev.entry.buffptr.Block?
  {
    dev := new AesdDevice();
    assert Clean([b]) && [] + [b] == [b];
    var n := dev.Write([b], GoodEnv(junk));
  }

  method LosePending(dev: AesdDevice, b: Byte, junk: nat -> Byte) returns (ret: int)
    requires dev.Valid() && dev.entry.size == 1 && dev.entry.buffptr.Block?
    modifies dev, dev.buffer, dev.buffer.entry, dev.heap
    ensures dev.Valid() && ret == -ENOMEM && dev.entry == Entry(Null, 1) && dev.log == old(dev.log)
    ensures LostIds(dev.owner) == old(LostIds(dev.owner)) + {old(dev.entry.buffptr.id)}
  {
    ret := dev.Write([b], GoodEnv(junk).(kreallocOk := false));
  }

  /** A refused krealloc at work: "a" is pending when the write of "b" fails; the next newline then commits whatever
      fresh memory held in place of "a", and the block of "a" is lost. */
  method LossExample(junk: nat -> Byte) returns (dev: AesdDevice, failed: int)
    ensures fresh(dev) && dev.Valid() && failed == -ENOMEM
    ensures dev.log == Log([seq(1, junk) + [NEWLINE]], []) && LostIds(dev.owner) != {}
  {
    dev := PendOneByte(97, junk);
    failed := LosePending(dev, 98, junk);
    assert IsLine([NEWLINE]) && [NEWLINE][0] == NEWLINE;
    FirstLineUnique([NEWLINE], []);
    assert [NEWLINE] + [] == [NEWLINE];
    var n := dev.Write([NEWLINE], GoodEnv(junk));
    assert [] + [seq(1, junk) + [NEWLINE]] == [seq(1, junk) + [NEWLINE]];
  }
}
