/** The ten-slot ring of aesd-circular-buffer.c. */
module CircularBuffer {
  import opened DeviceSpec

  const SIZE_LIMIT: nat := 0x1_0000_0000_0000_0000

  /** size_t on the 64-bit target. */
  type SizeT = n: int | 0 <= n < SIZE_LIMIT

  /** size_t addition: unsigned, modulo 2^64. */
  function AddSizes(a: SizeT, b: SizeT): SizeT {
    if a + b < SIZE_LIMIT then a + b else a + b - SIZE_LIMIT
  }

  /** A kernel pointer: NULL, the marker for zero-byte allocations, or an allocated block. */
  datatype Ptr = Null | ZeroSize | Block(id: nat)

  datatype Entry = Entry(buffptr: Ptr, size: SizeT)

  const UNUSED: Entry := Entry(Null, 0)

  /** The answer of a lookup: NULL, or an entry and a byte offset inside it. */
  datatype Found = Missing | At(index: nat, byteOffset: nat)

  function Total(es: seq<Entry>): nat {
    if es == [] then 0 else es[0].size + Total(es[1..])
  }

  /** Byte `offset` of the concatenated entries is byte `o` of entry `k`. */
  predicate IsPosition(es: seq<Entry>, offset: nat, k: nat, o: nat) {
    k < |es| && o < es[k].size && Total(es[..k]) + o == offset
  }

  /** A lookup result that is right: a position, or nothing exactly when the offset is past the end. */
  predicate RightAnswer(es: seq<Entry>, offset: nat, r: Found) {
    match r
    case Missing => Total(es) <= offset
    case At(k, o) => IsPosition(es, offset, k, o)
  }

  function Shifted(r: Found, i: nat): Found {
    match r
    case Missing => Missing
    case At(k, o) => At(k + i, o)
  }

  /** The search of the source: a running size_t sum, which wraps around. */
  function Lookup(es: seq<Entry>, sum: SizeT, offset: SizeT): Found
    requires sum <= offset
  {
    if es == [] then Missing
    else
      var end := AddSizes(sum, es[0].size);
      if end > offset then At(0, offset - sum) else Shifted(Lookup(es[1..], end, offset), 1)
  }

  lemma {:induction false} LookupInRange(es: seq<Entry>, sum: SizeT, offset: SizeT)
    requires sum <= offset
    ensures match Lookup(es, sum, offset)
            case Missing => true
            case At(k, o) => k < |es|
  {
    if es != [] && AddSizes(sum, es[0].size) <= offset {
      LookupInRange(es[1..], AddSizes(sum, es[0].size), offset);
    }
  }

  lemma {:induction false} LookupStep(es: seq<Entry>, i: nat, sum: SizeT, offset: SizeT)
    requires i < |es| && sum <= offset
    ensures var end := AddSizes(sum, es[i].size);
            Lookup(es[i..], sum, offset) ==
            if end > offset then At(0, offset - sum) else Shifted(Lookup(es[i + 1..], end, offset), 1)
  {
    assert es[i..][1..] == es[i + 1..];
  }

  lemma {:induction false} LookupWithoutWrap(es: seq<Entry>, sum: SizeT, offset: SizeT)
    requires sum <= offset && sum + Total(es) < SIZE_LIMIT
    ensures match Lookup(es, sum, offset)
            case Missing => sum + Total(es) <= offset
            case At(k, o) => IsPosition(es, offset - sum, k, o)
  {
    if es != [] && sum + es[0].size <= offset {
      LookupWithoutWrap(es[1..], sum + es[0].size, offset);
      match Lookup(es[1..], sum + es[0].size, offset) {
        case Missing =>
        case At(k, o) =>
          assert es[..k + 1] == [es[0]] + es[1..][..k];
      }
    }
  }

  /** At the entry whose end wraps, the search goes past the offset where that entry begins. */
  lemma {:induction false} LookupSkipsWrappedEntry(es: seq<Entry>, sum: SizeT, offset: SizeT, k: nat)
    requires sum <= offset && k < |es|
    requires sum + Total(es[..k]) == offset && offset + es[k].size >= SIZE_LIMIT
    ensures Lookup(es, sum, offset).At? ==> Lookup(es, sum, offset).index != k
  {
    if k > 0 {
      assert es[..k] == [es[0]] + es[1..][..k - 1];
      assert es[1..][k - 1] == es[k];
      LookupSkipsWrappedEntry(es[1..], sum + es[0].size, offset, k - 1);
    }
  }

  lemma {:induction false} TotalSplit(es: seq<Entry>, k: nat)
    requires k <= |es|
    ensures Total(es) == Total(es[..k]) + Total(es[k..])
  {
    if k == 0 {
      assert es[0..] == es;
    } else {
      assert es[..k] == [es[0]] + es[1..][..k - 1];
      assert es[1..][k - 1..] == es[k..];
      TotalSplit(es[1..], k - 1);
    }
  }

  lemma {:induction false} PrefixTotals(es: seq<Entry>, k: nat, k': nat)
    requires k < k' <= |es|
    ensures Total(es[..k]) + es[k].size <= Total(es[..k'])
  {
    TotalSplit(es[..k'], k);
    assert es[..k'][..k] == es[..k];
    assert es[..k'][k..][0] == es[k];
  }

  /** Positions are unique. */
  lemma {:induction false} PositionUnique(es: seq<Entry>, offset: nat, k: nat, o: nat, k': nat, o': nat)
    requires IsPosition(es, offset, k, o) && IsPosition(es, offset, k', o')
    ensures k == k' && o == o'
  {
    if k < k' {
      PrefixTotals(es, k, k');
    } else if k' < k {
      PrefixTotals(es, k', k);
    }
  }

  lemma {:induction false} FirstOverflow(es: seq<Entry>) returns (k: nat)
    requires Total(es) >= SIZE_LIMIT
    ensures k < |es| && Total(es[..k]) < SIZE_LIMIT <= Total(es[..k]) + es[k].size
    decreases |es|
  {
    var n := |es| - 1;
    TotalSplit(es, n);
    assert es[n..] == [es[n]];
    if Total(es[..n]) < SIZE_LIMIT {
      k := n;
    } else {
      k := FirstOverflow(es[..n]);
      assert es[..n][..k] == es[..k];
    }
  }

  /** The search answers the offset rightly. */
  predicate LookupRightAt(es: seq<Entry>, offset: SizeT) {
    RightAnswer(es, offset, Lookup(es, 0, offset))
  }

  lemma {:induction false} LookupWrongAtOverflow(es: seq<Entry>) returns (offset: SizeT)
    requires Total(es) >= SIZE_LIMIT
    ensures !LookupRightAt(es, offset)
  {
    var k := FirstOverflow(es);
    offset := Total(es[..k]);
    LookupSkipsWrappedEntry(es, 0, offset, k);
    PrefixTotals(es, k, |es|);
    assert es[..|es|] == es;
    assert IsPosition(es, offset, k, 0);
    var r := Lookup(es, 0, offset);
    if r.At? && IsPosition(es, offset, r.index, r.byteOffset) {
      PositionUnique(es, offset, k, 0, r.index, r.byteOffset);
    }
  }

  /** The search is right for every offset exactly when the total size fits in a size_t. */
  lemma {:induction false} LookupRightIffTotalFits(es: seq<Entry>)
    ensures (forall offset: SizeT :: LookupRightAt(es, offset)) <==> Total(es) < 0x1_0000_0000_0000_0000
  {
    if Total(es) < SIZE_LIMIT {
      forall offset: SizeT
        ensures LookupRightAt(es, offset)
      {
        LookupWithoutWrap(es, 0, offset);
      }
    } else {
      var offset := LookupWrongAtOverflow(es);
      assert !LookupRightAt(es, offset);
    }
  }

  /** Two entries of half the address space: byte 2^63 exists, the search denies it. */
  lemma {:induction false} LookupWrapExample()
    ensures var half := Entry(Block(0), 0x8000_0000_0000_0000);
            IsPosition([half, half], 0x8000_0000_0000_0000, 1, 0) && Lookup([half, half], 0, 0x8000_0000_0000_0000) == Missing
  {
    var half := Entry(Block(0), 0x8000_0000_0000_0000);
    var es := [half, half];
    assert es[..1] == [half] && [half][1..] == [];
    assert es[1..] == [half];
    assert Lookup([half], 0x8000_0000_0000_0000, 0x8000_0000_0000_0000) == Missing;
  }

  // ----- the ring and the history of adds

  /** Slot number `x`, counted once round the ring: `x % CAPACITY` without a division. */
  function Around(x: nat): (r: nat)
    requires x < 2 * CAPACITY
    ensures r < CAPACITY
  {
    if x < CAPACITY then x else x - CAPACITY
  }

  lemma {:induction false} AroundNext(x: nat, i: nat)
    requires x < CAPACITY && i < CAPACITY
    ensures Around(Around(x + 1) + i) == if i + 1 < CAPACITY then Around(x + (i + 1)) else x
    ensures i + 1 < CAPACITY ==> Around(x + (i + 1)) != x
  {
  }

  lemma {:induction false} OffsetsAfterAdd(n: nat)
    ensures (n + 1) % CAPACITY == Around(n % CAPACITY + 1)
    ensures n >= CAPACITY ==> Start(n) % CAPACITY == n % CAPACITY
  {
  }

  /** The slots in read order, starting at the oldest. */
  function Rotated(slots: seq<Entry>, outOffs: nat): seq<Entry>
    requires |slots| == CAPACITY && outOffs < CAPACITY
  {
    seq(CAPACITY, i requires 0 <= i < CAPACITY => slots[Around(outOffs + i)])
  }

  function Live(adds: seq<Entry>): seq<Entry> {
    adds[Start(|adds|)..]
  }

  /** The ring that a history of adds leads to, from the zeroed state. */
  ghost predicate Represents(slots: seq<Entry>, inOffs: nat, outOffs: nat, full: bool, adds: seq<Entry>) {
    && |slots| == CAPACITY
    && inOffs == |adds| % CAPACITY
    && outOffs == Start(|adds|) % CAPACITY
    && full == (|adds| >= CAPACITY)
    && (forall i :: 0 <= i < |Live(adds)| ==> slots[Around(outOffs + i)] == Live(adds)[i])
    && (forall j :: |adds| <= j < CAPACITY ==> slots[j] == UNUSED)
  }

  /** Overwriting the oldest of ten slots and moving the start on by one. */
  lemma {:induction false} SlotsShift(slots: seq<Entry>, outOffs: nat, live: seq<Entry>, e: Entry)
    requires |slots| == |live| == CAPACITY && outOffs < CAPACITY
    requires forall i :: 0 <= i < CAPACITY ==> slots[Around(outOffs + i)] == live[i]
    ensures forall i :: 0 <= i < CAPACITY ==> slots[outOffs := e][Around(Around(outOffs + 1) + i)] == (live[1..] + [e])[i]
  {
    forall i | 0 <= i < CAPACITY
      ensures slots[outOffs := e][Around(Around(outOffs + 1) + i)] == (live[1..] + [e])[i]
    {
      AroundNext(outOffs, i);
    }
  }

  lemma {:induction false} AddWhenFull(slots: seq<Entry>, outOffs: nat, adds: seq<Entry>, e: Entry)
    requires outOffs < CAPACITY && Represents(slots, outOffs, outOffs, true, adds)
    ensures Represents(slots[outOffs := e], Around(outOffs + 1), Around(outOffs + 1), true, adds + [e])
  {
    OffsetsAfterAdd(|adds|);
    OffsetsAfterAdd(|adds| + 1);
    SlotsShift(slots, outOffs, Live(adds), e);
    assert Live(adds + [e]) == Live(adds)[1..] + [e];
  }

  lemma {:induction false} AddWhenNotFull(slots: seq<Entry>, inOffs: nat, adds: seq<Entry>, e: Entry)
    requires inOffs < CAPACITY && Represents(slots, inOffs, 0, false, adds)
    ensures Represents(slots[inOffs := e], Around(inOffs + 1), 0, Around(inOffs + 1) == 0, adds + [e])
  {
    OffsetsAfterAdd(|adds|);
    assert inOffs == |adds| && Live(adds + [e]) == Live(adds) + [e];
  }

  lemma {:induction false} RotatedAt(slots: seq<Entry>, inOffs: nat, outOffs: nat, full: bool, adds: seq<Entry>, i: nat)
    requires Represents(slots, inOffs, outOffs, full, adds) && i < CAPACITY
    ensures Rotated(slots, outOffs)[i] == if i < |Live(adds)| then Live(adds)[i] else UNUSED
  {
    if i >= |Live(adds)| {
      assert outOffs == 0 && Around(outOffs + i) == i;
    }
  }

  /** In read order the ring is the last ten adds followed by unused slots. */
  lemma {:induction false} RotatedIsLive(slots: seq<Entry>, inOffs: nat, outOffs: nat, full: bool, adds: seq<Entry>)
    requires Represents(slots, inOffs, outOffs, full, adds)
    ensures |Live(adds)| <= CAPACITY
    ensures Rotated(slots, outOffs) == Live(adds) + seq(CAPACITY - |Live(adds)|, _ => UNUSED)
  {
    var padded := Live(adds) + seq(CAPACITY - |Live(adds)|, _ => UNUSED);
    forall i | 0 <= i < CAPACITY
      ensures Rotated(slots, outOffs)[i] == padded[i]
    {
      RotatedAt(slots, inOffs, outOffs, full, adds, i);
    }
  }

  /** Unused slots never answer a lookup. */
  lemma {:induction false} LookupIgnoresPadding(es: seq<Entry>, pad: nat, sum: SizeT, offset: SizeT)
    requires sum <= offset
    ensures Lookup(es + seq(pad, _ => UNUSED), sum, offset) == Lookup(es, sum, offset)
    decreases |es|, pad
  {
    var padded := es + seq(pad, _ => UNUSED);
    if es != [] {
      assert padded[1..] == es[1..] + seq(pad, _ => UNUSED);
      if AddSizes(sum, es[0].size) <= offset {
        LookupIgnoresPadding(es[1..], pad, AddSizes(sum, es[0].size), offset);
      }
    } else if pad > 0 {
      assert padded[0] == UNUSED;
      assert padded[1..] == [] + seq(pad - 1, _ => UNUSED);
      LookupIgnoresPadding([], pad - 1, sum, offset);
    }
  }

  /** Searching the slots in read order is searching the last ten adds. */
  lemma {:induction false} RingLookup(slots: seq<Entry>, inOffs: nat, outOffs: nat, full: bool, adds: seq<Entry>, offset: SizeT)
    requires Represents(slots, inOffs, outOffs, full, adds)
    ensures var r := Lookup(Live(adds), 0, offset);
            && Lookup(Rotated(slots, outOffs), 0, offset) == r
            && (r.At? ==> r.index < |Live(adds)| && Rotated(slots, outOffs)[r.index] == Live(adds)[r.index])
  {
    RotatedIsLive(slots, inOffs, outOffs, full, adds);
    LookupIgnoresPadding(Live(adds), CAPACITY - |Live(adds)|, 0, offset);
    LookupInRange(Live(adds), 0, offset);
  }

  class Ring {
    const entry: array<Entry>
    var inOffs: nat
    var outOffs: nat
    var full: bool
    ghost var adds: seq<Entry>

    ghost predicate Valid()
      reads this, entry
    {
      entry.Length == CAPACITY && Represents(entry[..], inOffs, outOffs, full, adds)
    }

    /** aesd_circular_buffer_init: everything zero. */
    constructor ()
      ensures Valid() && fresh(entry) && adds == []
    {
      entry := new Entry[CAPACITY](_ => UNUSED);
      inOffs, outOffs, full := 0, 0, false;
      adds := [];
    }

    method AddEntry(e: Entry)
      requires Valid()
      modifies this, entry
      ensures Valid() && adds == old(adds) + [e]
    {
      ghost var slots := entry[..];
      OffsetsAfterAdd(|adds|);
      if full {
        AddWhenFull(slots, outOffs, adds, e);
      } else {
        AddWhenNotFull(slots, inOffs, adds, e);
      }
      entry[inOffs] := e;
      assert entry[..] == slots[inOffs := e];
      if full {
        outOffs := Around(outOffs + 1);
      }
      inOffs := Around(inOffs + 1);
      full := inOffs == outOffs;
      adds := adds + [e];
    }

    /** The walk over all ten slots, used or not, searches the slots in read order. With `Valid()`,
        `RingLookup` says that this is the search of the last ten adds. */
    method FindEntryOffset(charOffset: SizeT) returns (r: Found)
      requires entry.Length == CAPACITY && outOffs < CAPACITY
      ensures match Lookup(Rotated(entry[..], outOffs), 0, charOffset)
              case Missing => r == Missing
              case At(k, o) =>
                && k < CAPACITY && r == At(Around(outOffs + k), o)
                && entry[r.index] == Rotated(entry[..], outOffs)[k]
    {
      ghost var rot := Rotated(entry[..], outOffs);
      LookupInRange(rot, 0, charOffset);
      var currentLength: SizeT := 0;
      var i := 0;
      while i < CAPACITY
        invariant 0 <= i <= CAPACITY && currentLength <= charOffset
        invariant Lookup(rot, 0, charOffset) == Shifted(Lookup(rot[i..], currentLength, charOffset), i)
      {
        var index := Around(outOffs + i);
        LookupStep(rot, i, currentLength, charOffset);
        if AddSizes(currentLength, entry[index].size) > charOffset {
          return At(index, charOffset - currentLength);
        }
        currentLength := AddSizes(currentLength, entry[index].size);
        i := i + 1;
      }
      return Missing;
    }
  }
}
