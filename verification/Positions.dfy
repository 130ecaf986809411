/** From positions in the ring to bytes of the content. */
module Positions {
  import opened Bytes
  import opened DeviceSpec
  import opened CircularBuffer
  import opened Kernel
  import opened Ownership

  predicate SizesMatch(es: seq<Entry>, ss: seq<seq<Byte>>) {
    |es| == |ss| && forall i :: 0 <= i < |es| ==> es[i].size == |ss[i]|
  }

  lemma {:induction false} TotalIsLength(es: seq<Entry>, ss: seq<seq<Byte>>)
    requires SizesMatch(es, ss)
    ensures Total(es) == |Flatten(ss)|
  {
    if es != [] {
      assert SizesMatch(es[1..], ss[1..]);
      TotalIsLength(es[1..], ss[1..]);
    }
  }

  /** A read at a position returns bytes of the entry found there. */
  lemma {:induction false} PositionReads(es: seq<Entry>, ss: seq<seq<Byte>>, offset: nat, k: nat, o: nat, count: nat)
    requires SizesMatch(es, ss) && IsPosition(es, offset, k, o)
    ensures ReadChunk(ss, offset, count) == ss[k][o..o + Min(count, |ss[k]| - o)]
  {
    if k > 0 {
      assert es[..k] == [es[0]] + es[1..][..k - 1];
      assert SizesMatch(es[1..], ss[1..]);
      PositionReads(es[1..], ss[1..], offset - es[0].size, k - 1, o, count);
    }
  }

  lemma {:induction false} TotalBound(es: seq<Entry>, bound: nat)
    requires forall i :: 0 <= i < |es| ==> es[i].size <= bound
    ensures Total(es) <= |es| * bound
  {
    if es != [] {
      TotalBound(es[1..], bound);
    }
  }

  lemma {:induction false} LiveStored(b: Books, k: nat)
    requires Balanced(b, {}) && k < |Live(b.adds)|
    ensures var e := Live(b.adds)[k];
            && k < |Window(b.log.committed)|
            && e.buffptr.Block? && e.buffptr.id in b.blocks
            && b.blocks[e.buffptr.id] == Window(b.log.committed)[k] && e.size == |Window(b.log.committed)[k]|
  {
    assert CommitStored(b, Start(|b.adds|) + k);
  }

  /** The readable entries match the window, and their total size does not wrap. */
  lemma {:induction false} LiveFits(b: Books)
    requires Balanced(b, {})
    requires forall id :: id in b.blocks ==> |b.blocks[id]| <= MAX_BLOCK
    ensures SizesMatch(Live(b.adds), Window(b.log.committed))
    ensures Total(Live(b.adds)) == |Content(b.log.committed)| < SIZE_LIMIT
  {
    var live := Live(b.adds);
    forall k | 0 <= k < |live|
      ensures live[k].size == |Window(b.log.committed)[k]| <= MAX_BLOCK
    {
      LiveStored(b, k);
    }
    TotalBound(live, MAX_BLOCK);
    TotalIsLength(live, Window(b.log.committed));
  }

  predicate ServesRead(b: Books, e: Entry, o: nat, chunk: seq<Byte>, count: nat) {
    && e.buffptr.Block? && e.buffptr.id in b.blocks && o < e.size == |b.blocks[e.buffptr.id]|
    && chunk == b.blocks[e.buffptr.id][o..o + Min(count, e.size - o)]
  }

  lemma {:induction false} PositionServes(b: Books, k: nat, o: nat, offset: nat, count: nat)
    requires Balanced(b, {}) && SizesMatch(Live(b.adds), Window(b.log.committed))
    requires IsPosition(Live(b.adds), offset, k, o)
    ensures offset < Total(Live(b.adds))
    ensures ServesRead(b, Live(b.adds)[k], o, ReadChunk(Window(b.log.committed), offset, count), count)
  {
    PrefixTotals(Live(b.adds), k, |Live(b.adds)|);
    assert Live(b.adds)[..|Live(b.adds)|] == Live(b.adds);
    PositionReads(Live(b.adds), Window(b.log.committed), offset, k, o, count);
    LiveStored(b, k);
  }

  /** A right answer of the lookup in `es`: NULL exactly past the end of the content, otherwise the entry
      that a read at that offset has to be served from. */
  predicate Answers(b: Books, es: seq<Entry>, r: Found, offset: nat, count: nat) {
    match r
    case Missing => |Content(b.log.committed)| <= offset
    case At(k, o) =>
      && offset < |Content(b.log.committed)| && k < |es|
      && ServesRead(b, es[k], o, ReadChunk(Window(b.log.committed), offset, count), count)
  }

  lemma {:induction false} LookupServesLive(b: Books, offset: SizeT, count: nat)
    requires Balanced(b, {}) && forall id :: id in b.blocks ==> |b.blocks[id]| <= MAX_BLOCK
    ensures Answers(b, Live(b.adds), Lookup(Live(b.adds), 0, offset), offset, count)
  {
    LiveFits(b);
    LookupWithoutWrap(Live(b.adds), 0, offset);
    match Lookup(Live(b.adds), 0, offset)
    case Missing =>
    case At(k, o) => PositionServes(b, k, o, offset, count);
  }

  /** The lookup over the ten slots, used or not, serves every read. */
  lemma {:induction false} LookupServesRead(b: Books, slots: seq<Entry>, inOffs: nat, outOffs: nat, full: bool,
                                            offset: SizeT, count: nat)
    requires Represents(slots, inOffs, outOffs, full, b.adds)
    requires Balanced(b, {}) && forall id :: id in b.blocks ==> |b.blocks[id]| <= MAX_BLOCK
    ensures Answers(b, Rotated(slots, outOffs), Lookup(Rotated(slots, outOffs), 0, offset), offset, count)
  {
    LookupServesLive(b, offset, count);
    RingLookup(slots, inOffs, outOffs, full, b.adds, offset);
  }
}
