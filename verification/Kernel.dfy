/** The kernel allocator, as the driver sees it: blocks of bytes that are handed out, resized and freed. */
module Kernel {
  import opened Bytes
  import opened CircularBuffer

  /** No single block is larger than this; the allocator answers NULL instead. Ten of them fit in a size_t. */
  const MAX_BLOCK: nat := 0x1000_0000_0000_0000

  function PtrIds(p: Ptr): set<nat> {
    if p.Block? then {p.id} else {}
  }

  function Resized(bytes: seq<Byte>, n: nat, junk: nat -> Byte): (r: seq<Byte>)
    ensures |r| == n
  {
    if n <= |bytes| then bytes[..n] else bytes + seq(n - |bytes|, junk)
  }

  class Heap {
    var blocks: map<nat, seq<Byte>>
    var next: nat

    ghost predicate Valid()
      reads this
    {
      forall id :: id in blocks ==> id < next && 0 < |blocks[id]| <= MAX_BLOCK
    }

    constructor ()
      ensures Valid() && blocks == map[]
    {
      blocks, next := map[], 0;
    }

    /** krealloc: zero bytes free the block, a refusal leaves it allocated, otherwise the contents are in a block
        of the new size, the old one resized or another. */
    method Krealloc(p: Ptr, n: nat, ok: bool, inPlace: bool, junk: nat -> Byte) returns (q: Ptr)
      requires Valid()
      requires p.Block? ==> p.id in blocks
      modifies this
      ensures Valid()
      ensures n == 0 ==> q == ZeroSize && blocks == old(blocks) - PtrIds(p)
      ensures n > 0 && (!ok || n > MAX_BLOCK) ==> q == Null && blocks == old(blocks)
      ensures n > 0 && ok && n <= MAX_BLOCK ==>
                && q.Block? && (q.id !in old(blocks) || q == p)
                && blocks == (old(blocks) - PtrIds(p))[q.id := Resized(if p.Block? then old(blocks)[p.id] else [], n, junk)]
    {
      if n == 0 {
        blocks := blocks - PtrIds(p);
        return ZeroSize;
      }
      if !ok || n > MAX_BLOCK {
        return Null;
      }
      var bytes := Resized(if p.Block? then blocks[p.id] else [], n, junk);
      if p.Block? && inPlace {
        blocks := (blocks - PtrIds(p))[p.id := bytes];
        return p;
      }
      q := Block(next);
      blocks := (blocks - PtrIds(p))[next := bytes];
      next := next + 1;
    }

    /** kmalloc; zero bytes give the zero-size marker, which is not NULL. */
    method Kmalloc(n: nat, ok: bool, junk: nat -> Byte) returns (q: Ptr)
      requires Valid()
      modifies this
      ensures Valid()
      ensures n == 0 ==> q == ZeroSize && blocks == old(blocks)
      ensures n > 0 && (!ok || n > MAX_BLOCK) ==> q == Null && blocks == old(blocks)
      ensures n > 0 && ok && n <= MAX_BLOCK ==>
                q.Block? && q.id !in old(blocks) && blocks == old(blocks)[q.id := Resized([], n, junk)]
    {
      q := Krealloc(Null, n, ok, false, junk);
      assert old(blocks) - PtrIds(Null) == old(blocks);
    }

    /** kfree: only what is allocated may be freed; NULL and the zero-size marker are ignored. */
    method Kfree(p: Ptr)
      requires Valid()
      requires p.Block? ==> p.id in blocks
      modifies this
      ensures Valid() && blocks == old(blocks) - PtrIds(p)
    {
      blocks := blocks - PtrIds(p);
    }

    /** memcpy into a block: it may not leave the block. */
    method Memcpy(p: Ptr, at: nat, bytes: seq<Byte>)
      requires Valid()
      requires bytes != [] ==> p.Block? && p.id in blocks && at + |bytes| <= |blocks[p.id]|
      modifies this
      ensures Valid()
      ensures bytes == [] ==> blocks == old(blocks)
      ensures bytes != [] ==>
                var was := old(blocks)[p.id];
                blocks == old(blocks)[p.id := was[..at] + bytes + was[at + |bytes|..]]
    {
      if bytes != [] {
        var was := blocks[p.id];
        blocks := blocks[p.id := was[..at] + bytes + was[at + |bytes|..]];
      }
    }

    /** A copy_from_user that succeeds and fills a whole block. */
    method CopyFromUser(p: Ptr, bytes: seq<Byte>)
      requires Valid()
      requires p.Block? ==> p.id in blocks && |blocks[p.id]| == |bytes|
      requires !p.Block? ==> bytes == []
      modifies this
      ensures Valid()
      ensures blocks == if p.Block? then old(blocks)[p.id := bytes] else old(blocks)
    {
      Memcpy(p, 0, bytes);
      if p.Block? {
        assert blocks[p.id] == bytes;
        assert blocks == old(blocks)[p.id := bytes];
      }
    }

    /** krealloc to make room for `piece` behind `size` bytes, then memcpy: the step both branches of a
        write take on the pending entry. */
    method GrowBlock(p: Ptr, size: nat, piece: seq<Byte>, ok: bool, inPlace: bool, junk: nat -> Byte) returns (q: Ptr)
      requires Valid()
      requires p.Block? ==> p.id in blocks && |blocks[p.id]| == size
      modifies this
      ensures Valid()
      ensures size + |piece| == 0 ==> q == ZeroSize && blocks == old(blocks) - PtrIds(p)
      ensures size + |piece| > 0 && (!ok || size + |piece| > MAX_BLOCK) ==> q == Null && blocks == old(blocks)
      ensures size + |piece| > 0 && ok && size + |piece| <= MAX_BLOCK ==>
                && q.Block? && (q.id !in old(blocks) || q == p)
                && blocks == (old(blocks) - PtrIds(p))
                               [q.id := (if p.Block? then old(blocks)[p.id] else seq(size, junk)) + piece]
    {
      q := Krealloc(p, size + |piece|, ok, inPlace, junk);
      if q.Null? {
        return;
      }
      ghost var kept := if p.Block? then old(blocks)[p.id] else seq(size, junk);
      ghost var moved := blocks;
      assert q.Block? ==> moved[q.id][..size] == kept;
      Memcpy(q, size, piece);
      if q.Block? {
        assert blocks[q.id] == kept + piece;
        assert blocks == moved[q.id := kept + piece];
      }
    }
  }
}
