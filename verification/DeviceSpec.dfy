/** What the char device promises, in terms of whole write histories instead of a ring of slots. */
module DeviceSpec {
  import opened Bytes

  const CAPACITY: nat := 10

  /** Every command ever committed, and the bytes still waiting for their newline. */
  datatype Log = Log(committed: seq<seq<Byte>>, pending: seq<Byte>)

  const EMPTY_LOG: Log := Log([], [])

  function Write(l: Log, w: seq<Byte>): Log {
    if Clean(w)
    then Log(l.committed, l.pending + w)
    else Log(l.committed + [l.pending + UpToNewline(w)], [])
  }

  function WriteAll(l: Log, ws: seq<seq<Byte>>): Log {
    if ws == [] then l else Write(WriteAll(l, ws[..|ws| - 1]), ws[|ws| - 1])
  }

  /** The byte stream that the device keeps of a write history: each write cut after its first newline. */
  function CutStream(ws: seq<seq<Byte>>): seq<Byte> {
    if ws == [] then [] else CutStream(ws[..|ws| - 1]) + UpToNewline(ws[|ws| - 1])
  }

  /** From an empty device, the commits and the pending bytes are the newline split of the cut stream. */
  lemma {:induction false} WriteHistory(ws: seq<seq<Byte>>)
    ensures WriteAll(EMPTY_LOG, ws) == Log(Lines(CutStream(ws)), Unfinished(CutStream(ws)))
  {
    if ws != [] {
      var before, w := ws[..|ws| - 1], ws[|ws| - 1];
      WriteHistory(before);
      if !Clean(w) {
        SplitComplete(CutStream(before), UpToNewline(w));
      } else {
        SplitExtend(CutStream(before), w);
      }
    }
  }

  /** How a stream was chunked into writes is invisible: the cut stream determines the log and conversely. */
  lemma {:induction false} ChunkingIsInvisible(ws: seq<seq<Byte>>, vs: seq<seq<Byte>>)
    ensures CutStream(ws) == CutStream(vs) <==> WriteAll(EMPTY_LOG, ws) == WriteAll(EMPTY_LOG, vs)
  {
    WriteHistory(ws);
    WriteHistory(vs);
    SplitPartition(CutStream(ws));
    SplitPartition(CutStream(vs));
  }

  lemma {:induction false} AtMostOneCommitPerWrite(ws: seq<seq<Byte>>)
    ensures |WriteAll(EMPTY_LOG, ws).committed| <= |ws|
  {
    if ws != [] {
      AtMostOneCommitPerWrite(ws[..|ws| - 1]);
    }
  }

  /** The commits are exactly the writes if and only if every write is one complete line. */
  lemma {:induction false} WritesAreCommitsIffLines(ws: seq<seq<Byte>>)
    ensures WriteAll(EMPTY_LOG, ws).committed == ws <==> AllLines(ws)
    ensures AllLines(ws) ==> WriteAll(EMPTY_LOG, ws).pending == []
  {
    if ws != [] {
      var before, w := ws[..|ws| - 1], ws[|ws| - 1];
      assert ws == before + [w];
      WritesAreCommitsIffLines(before);
      AtMostOneCommitPerWrite(before);
      var l := WriteAll(EMPTY_LOG, before);
      if AllLines(ws) {
        assert IsLine(w);
        FirstLineUnique(w, []);
        assert w + [] == w;
        assert l.committed == before && AllLines(before);
        assert l.pending + UpToNewline(w) == w;
      }
      if WriteAll(EMPTY_LOG, ws).committed == ws {
        assert !Clean(w);
        assert WriteAll(EMPTY_LOG, ws).committed == l.committed + [l.pending + UpToNewline(w)];
        assert (l.committed + [l.pending + UpToNewline(w)])[..|ws| - 1] == l.committed;
        assert l.committed == before;
        assert l.pending == [];
        assert w == UpToNewline(w);
      }
    }
  }

  /** A write that the device keeps whole: its only newline, if it has one, is its last byte. */
  predicate KeptWhole(w: seq<Byte>) {
    Clean(w) || IsLine(w)
  }

  lemma {:induction false} UpToNewlineKeeps(w: seq<Byte>)
    ensures |UpToNewline(w)| <= |w|
    ensures UpToNewline(w) == w <==> KeptWhole(w)
  {
    if IsLine(w) {
      FirstLineUnique(w, []);
      assert w + [] == w;
    }
  }

  lemma {:induction false} CutStreamLength(ws: seq<seq<Byte>>)
    ensures |CutStream(ws)| <= |Flatten(ws)|
  {
    if ws != [] {
      var before, w := ws[..|ws| - 1], ws[|ws| - 1];
      CutStreamLength(before);
      UpToNewlineKeeps(w);
      assert ws == before + [w];
      FlattenAppend(before, [w]);
      FlattenSingle(w);
    }
  }

  /** Nothing that was written is dropped exactly when no write has a byte behind its first newline. */
  lemma {:induction false} NothingDroppedIff(ws: seq<seq<Byte>>)
    ensures CutStream(ws) == Flatten(ws) <==> forall i :: 0 <= i < |ws| ==> KeptWhole(ws[i])
  {
    if ws != [] {
      var before, w := ws[..|ws| - 1], ws[|ws| - 1];
      NothingDroppedIff(before);
      CutStreamLength(before);
      UpToNewlineKeeps(w);
      assert ws == before + [w];
      FlattenAppend(before, [w]);
      FlattenSingle(w);
      SameLengthParts(CutStream(before), UpToNewline(w), Flatten(before), w);
      assert (forall i :: 0 <= i < |ws| ==> KeptWhole(ws[i])) <==>
             (forall i :: 0 <= i < |before| ==> KeptWhole(before[i])) && KeptWhole(w) by {
        assert forall i :: 0 <= i < |before| ==> ws[i] == before[i];
        assert ws[|before|] == w;
      }
    }
  }

  lemma {:induction false} SameLengthParts(a: seq<Byte>, b: seq<Byte>, c: seq<Byte>, d: seq<Byte>)
    requires |a| <= |c| && |b| <= |d|
    ensures a + b == c + d <==> a == c && b == d
  {
    if a + b == c + d {
      assert |a + b| == |c + d|;
      assert (a + b)[..|a|] == a && (a + b)[|a|..] == b;
      assert (c + d)[..|c|] == c && (c + d)[|c|..] == d;
    }
  }

  /** The write "a\nb" loses its "b": the device commits "a\n" and keeps nothing pending. */
  lemma {:induction false} DroppedByteExample()
    ensures !KeptWhole([97, 10, 98])
    ensures Write(EMPTY_LOG, [97, 10, 98]) == Log([[97, 10]], [])
    ensures CutStream([[97, 10, 98]]) == [97, 10]
  {
    var w: seq<Byte>, l: seq<Byte> := [97, 10, 98], [97, 10];
    assert w == l + [98] && IsLine(l);
    FirstLineUnique(l, [98]);
    assert [] + l == l && [] + [l] == [l] && [w][..0] == [];
  }

  // ----- the window of the last ten commits

  function Start(n: nat): nat {
    if n <= CAPACITY then 0 else n - CAPACITY
  }

  function Window(committed: seq<seq<Byte>>): seq<seq<Byte>> {
    committed[Start(|committed|)..]
  }

  function Content(committed: seq<seq<Byte>>): seq<Byte> {
    Flatten(Window(committed))
  }

  function EvictedBytes(committed: seq<seq<Byte>>): nat {
    |Flatten(committed[..Start(|committed|)])|
  }

  /** The readable content is everything ever committed, minus the evicted bytes at the front. */
  lemma {:induction false} ContentIsSuffix(committed: seq<seq<Byte>>)
    ensures EvictedBytes(committed) <= |Flatten(committed)|
    ensures Content(committed) == Flatten(committed)[EvictedBytes(committed)..]
  {
    var k := Start(|committed|);
    assert committed == committed[..k] + committed[k..];
    FlattenAppend(committed[..k], committed[k..]);
  }

  /** One write evicts nothing, or exactly the oldest of ten readable commits. */
  lemma {:induction false} EvictionStep(l: Log, w: seq<Byte>)
    ensures var n := |l.committed|;
            EvictedBytes(Write(l, w).committed) ==
            EvictedBytes(l.committed) + if !Clean(w) && n >= CAPACITY then |l.committed[n - CAPACITY]| else 0
  {
    var n := |l.committed|;
    if !Clean(w) && n >= CAPACITY {
      var c' := Write(l, w).committed;
      var k := n - CAPACITY;
      assert c'[..k + 1] == l.committed[..k] + [l.committed[k]];
      FlattenAppend(l.committed[..k], [l.committed[k]]);
      FlattenSingle(l.committed[k]);
    } else {
      var c' := Write(l, w).committed;
      assert c'[..Start(|c'|)] == l.committed[..Start(n)];
    }
  }

  // ----- reading

  /** One read: it never crosses the end of the entry that holds position `pos`. */
  function ReadChunk(entries: seq<seq<Byte>>, pos: nat, count: nat): seq<Byte> {
    if entries == [] then []
    else if pos < |entries[0]| then entries[0][pos..pos + Min(count, |entries[0]| - pos)]
    else ReadChunk(entries[1..], pos - |entries[0]|, count)
  }

  /** The bytes of one read, against the concatenation: a stretch of it starting at `pos`, empty only at the end or
      when nothing was asked for. */
  lemma {:induction false} ReadChunkBytes(entries: seq<seq<Byte>>, pos: nat, count: nat)
    ensures var r, all := ReadChunk(entries, pos, count), Flatten(entries);
            && |r| <= count
            && (r != [] <==> pos < |all| && count > 0)
            && (pos <= |all| ==> pos + |r| <= |all| && r == all[pos..pos + |r|])
  {
    if entries != [] && pos >= |entries[0]| {
      var first, rest := entries[0], Flatten(entries[1..]);
      ReadChunkBytes(entries[1..], pos - |first|, count);
      var r := ReadChunk(entries, pos, count);
      if pos <= |first + rest| {
        assert (first + rest)[pos..pos + |r|] == rest[pos - |first|..pos - |first| + |r|];
      }
    }
  }

  /** Position `pos` is byte `o` of entry `k`. */
  predicate StandsAt(entries: seq<seq<Byte>>, pos: nat, k: int, o: int) {
    0 <= k < |entries| && 0 <= o < |entries[k]| && pos == |Flatten(entries[..k])| + o
  }

  /** One read from the entries themselves: at byte `o` of entry `k` it gives what is left of that entry, at most `count`
      bytes. */
  lemma {:induction false} ReadChunkAt(entries: seq<seq<Byte>>, pos: nat, k: nat, o: nat, count: nat)
    requires StandsAt(entries, pos, k, o)
    ensures ReadChunk(entries, pos, count) == entries[k][o..if count <= |entries[k]| - o then o + count else |entries[k]|]
  {
    if k == 0 {
      assert entries[..0] == [];
    } else {
      assert entries[..k] == [entries[0]] + entries[1..][..k - 1];
      FlattenCons(entries[0], entries[1..][..k - 1]);
      ReadChunkAt(entries[1..], pos - |entries[0]|, k - 1, o, count);
    }
  }

  /** A read that gives less than was asked for ends at the end of an entry. */
  lemma {:induction false} ShortReadEndsEntry(entries: seq<seq<Byte>>, pos: nat, count: nat) returns (k: nat)
    requires |ReadChunk(entries, pos, count)| < count && pos <= |Flatten(entries)|
    ensures k <= |entries| && pos + |ReadChunk(entries, pos, count)| == |Flatten(entries[..k])|
  {
    if entries == [] {
      k := 0;
    } else if pos < |entries[0]| {
      k := 1;
      assert entries[..1] == [entries[0]];
      FlattenSingle(entries[0]);
    } else {
      var j := ShortReadEndsEntry(entries[1..], pos - |entries[0]|, count);
      k := j + 1;
      assert entries[..k] == [entries[0]] + entries[1..][..j];
      FlattenCons(entries[0], entries[1..][..j]);
    }
  }

  /** What one read returns: a stretch of the concatenation, empty only at the end or when nothing was asked for, and
      short only at the end of an entry. */
  lemma {:induction false} ReadChunkIsStretch(entries: seq<seq<Byte>>, pos: nat, count: nat)
    ensures var r := ReadChunk(entries, pos, count);
            && |r| <= count
            && (r != [] <==> pos < |Flatten(entries)| && count > 0)
            && (pos <= |Flatten(entries)| ==>
                  && pos + |r| <= |Flatten(entries)|
                  && r == Flatten(entries)[pos..pos + |r|])
            && (|r| < count && pos <= |Flatten(entries)| ==>
                  exists k :: 0 <= k <= |entries| && pos + |r| == |Flatten(entries[..k])|)
  {
    ReadChunkBytes(entries, pos, count);
    if |ReadChunk(entries, pos, count)| < count && pos <= |Flatten(entries)| {
      var k := ShortReadEndsEntry(entries, pos, count);
    }
  }

  /** Consecutive reads, each continuing where the previous one stopped. */
  function ReadMany(entries: seq<seq<Byte>>, pos: nat, counts: seq<nat>): seq<Byte>
    decreases |counts|
  {
    if counts == [] then []
    else
      var r := ReadChunk(entries, pos, counts[0]);
      r + ReadMany(entries, pos + |r|, counts[1..])
  }

  lemma {:induction false} DrainBytes(entries: seq<seq<Byte>>, pos: nat, counts: seq<nat>)
    requires pos <= |Flatten(entries)| <= pos + |counts|
    requires forall i :: 0 <= i < |counts| ==> counts[i] > 0
    ensures ReadMany(entries, pos, counts) == Flatten(entries)[pos..]
    decreases |counts|
  {
    var all := Flatten(entries);
    if counts == [] {
      assert all[pos..] == [];
    } else {
      var r, rest := ReadChunk(entries, pos, counts[0]), counts[1..];
      ReadChunkBytes(entries, pos, counts[0]);
      assert r == all[pos..pos + |r|] && |all| <= pos + |r| + |rest|;
      DrainBytes(entries, pos + |r|, rest);
      StretchThenRest(all, pos, |r|);
    }
  }

  /** Draining: whatever positive counts are used, at most one call per remaining byte is needed, the
      results concatenate to the rest of the content, and from then on every read returns nothing. */
  lemma {:induction false} DrainDeliversContent(entries: seq<seq<Byte>>, pos: nat, counts: seq<nat>, more: nat)
    requires pos <= |Flatten(entries)|
    requires forall i :: 0 <= i < |counts| ==> counts[i] > 0
    requires |counts| >= |Flatten(entries)| - pos
    ensures ReadMany(entries, pos, counts) == Flatten(entries)[pos..]
    ensures ReadChunk(entries, |Flatten(entries)|, more) == []
  {
    DrainBytes(entries, pos, counts);
    ReadChunkBytes(entries, |Flatten(entries)|, more);
  }

  lemma {:induction false} StretchThenRest(all: seq<Byte>, pos: nat, n: nat)
    requires pos + n <= |all|
    ensures all[pos..pos + n] + all[pos + n..] == all[pos..]
  {
  }

  // ----- one reader against any mix of writes

  datatype Event = Wrote(bytes: seq<Byte>) | ReadUpTo(count: nat)

  /** A delivered piece: how many bytes had been evicted when it was read, its position in the
      stream of everything ever committed, and its bytes. */
  datatype Piece = Piece(evicted: nat, at: nat, bytes: seq<Byte>)

  datatype Reader = Reader(log: Log, pos: nat, got: seq<Piece>)

  function ReaderStep(r: Reader, e: Event): Reader {
    match e
    case Wrote(bytes) => r.(log := Write(r.log, bytes))
    case ReadUpTo(count) =>
      var chunk := ReadChunk(Window(r.log.committed), r.pos, count);
      var evicted := EvictedBytes(r.log.committed);
      Reader(r.log, r.pos + |chunk|, r.got + [Piece(evicted, evicted + r.pos, chunk)])
  }

  function ReaderRun(r: Reader, es: seq<Event>): Reader {
    if es == [] then r else ReaderStep(ReaderRun(r, es[..|es| - 1]), es[|es| - 1])
  }

  /** What one more read adds to a run: a piece that is empty only at the end of the content or when nothing is asked for, and
      else what is left of the entry at the reader's position, at most `count` bytes. */
  lemma {:induction false} ReadAdds(r: Reader, es: seq<Event>, count: nat)
    ensures var before, after := ReaderRun(r, es), ReaderRun(r, es + [ReadUpTo(count)]);
            && |after.got| == |before.got| + 1 && after.got[..|before.got|] == before.got && after.log == before.log
            && var entries, bytes := Window(before.log.committed), after.got[|before.got|].bytes;
               && after.pos == before.pos + |bytes|
               && (bytes != [] <==> before.pos < |Content(before.log.committed)| && count > 0)
               && forall k, o :: StandsAt(entries, before.pos, k, o) ==>
                    bytes == entries[k][o..if count <= |entries[k]| - o then o + count else |entries[k]|]
  {
    var before := ReaderRun(r, es);
    var entries := Window(before.log.committed);
    assert (es + [ReadUpTo(count)])[..|es|] == es;
    ReadChunkBytes(entries, before.pos, count);
    forall k, o | StandsAt(entries, before.pos, k, o)
      ensures ReadChunk(entries, before.pos, count) == entries[k][o..if count <= |entries[k]| - o then o + count else |entries[k]|]
    {
      ReadChunkAt(entries, before.pos, k, o, count);
    }
  }

  /** A write adds to the log, and the reader stays where it is. */
  lemma {:induction false} WriteAdds(r: Reader, es: seq<Event>, w: seq<Byte>)
    ensures var before, after := ReaderRun(r, es), ReaderRun(r, es + [Wrote(w)]);
            after == Reader(WriteAll(before.log, [w]), before.pos, before.got)
  {
    assert (es + [Wrote(w)])[..|es|] == es;
    assert [w][..0] == [];
  }

  /** A piece is a true stretch of the stream `all`. */
  predicate Genuine(p: Piece, all: seq<Byte>) {
    p.bytes != [] ==> p.at + |p.bytes| <= |all| && p.bytes == all[p.at..p.at + |p.bytes|]
  }

  /** What holds of the pieces `got` when the reader stands at `pos`, `evicted` bytes of `all` being gone. */
  ghost predicate TraceOk(got: seq<Piece>, pos: nat, evicted: nat, all: seq<Byte>) {
    && (forall i :: 0 <= i < |got| ==> Genuine(got[i], all) && got[i].evicted <= evicted)
    && Linked(got)
    && (got != [] ==> var p := got[|got| - 1]; p.at + |p.bytes| == p.evicted + pos)
  }

  ghost predicate ReaderInvariant(r: Reader) {
    TraceOk(r.got, r.pos, EvictedBytes(r.log.committed), Flatten(r.log.committed))
  }

  /** The next piece starts where the last one ended, moved on by exactly the bytes evicted meanwhile. */
  predicate FollowsOn(p: Piece, q: Piece) {
    && p.evicted <= q.evicted
    && q.at == p.at + |p.bytes| + (q.evicted - p.evicted)
  }

  predicate Linked(got: seq<Piece>) {
    forall j :: 1 <= j < |got| ==> FollowsOn(got[j - 1], got[j])
  }

  lemma {:induction false} CommittedGrows(l: Log, w: seq<Byte>)
    ensures Flatten(l.committed) <= Flatten(Write(l, w).committed)
    ensures EvictedBytes(l.committed) <= EvictedBytes(Write(l, w).committed)
  {
    EvictionStep(l, w);
    if !Clean(w) {
      FlattenAppend(l.committed, [l.pending + UpToNewline(w)]);
    }
  }

  lemma {:induction false} StretchJoins(all: seq<Byte>, base: nat, pos: nat, n: nat, from: nat)
    requires from <= pos && base + pos + n <= |all|
    ensures all[base..][pos..pos + n] == all[base + pos..base + pos + n]
    ensures all[base + from..base + pos] + all[base + pos..base + pos + n] == all[base + from..base + (pos + n)]
  {
  }

  /** One read, seen from the stream of all commits. */
  lemma {:induction false} ReadIsStretchOfAll(committed: seq<seq<Byte>>, pos: nat, count: nat)
    ensures var chunk, base, all :=
              ReadChunk(Window(committed), pos, count), EvictedBytes(committed), Flatten(committed);
            && (chunk != [] ==> base + pos + |chunk| <= |all|)
            && (base + pos + |chunk| <= |all| ==> chunk == all[base + pos..base + pos + |chunk|])
  {
    var chunk, base, all := ReadChunk(Window(committed), pos, count), EvictedBytes(committed), Flatten(committed);
    ReadChunkBytes(Window(committed), pos, count);
    ContentIsSuffix(committed);
    if base + pos + |chunk| <= |all| {
      StretchJoins(all, base, pos, |chunk|, pos);
    }
  }

  lemma {:induction false} TraceOkGrows(got: seq<Piece>, pos: nat, evicted: nat, all: seq<Byte>, evicted': nat, all': seq<Byte>)
    requires TraceOk(got, pos, evicted, all)
    requires evicted <= evicted' && all <= all'
    ensures TraceOk(got, pos, evicted', all')
  {
  }

  lemma {:induction false} TraceOkSnoc(got: seq<Piece>, pos: nat, evicted: nat, all: seq<Byte>, chunk: seq<Byte>)
    requires TraceOk(got, pos, evicted, all)
    requires Genuine(Piece(evicted, evicted + pos, chunk), all)
    ensures TraceOk(got + [Piece(evicted, evicted + pos, chunk)], pos + |chunk|, evicted, all)
  {
  }

  lemma {:induction false} ReaderWriteKeeps(r: Reader, w: seq<Byte>)
    requires ReaderInvariant(r)
    ensures ReaderInvariant(r.(log := Write(r.log, w)))
  {
    CommittedGrows(r.log, w);
    var c, c' := r.log.committed, Write(r.log, w).committed;
    TraceOkGrows(r.got, r.pos, EvictedBytes(c), Flatten(c), EvictedBytes(c'), Flatten(c'));
  }

  lemma {:induction false} ReaderReadKeeps(r: Reader, count: nat)
    requires ReaderInvariant(r)
    ensures ReaderInvariant(ReaderStep(r, ReadUpTo(count)))
  {
    var c := r.log.committed;
    ReadIsStretchOfAll(c, r.pos, count);
    TraceOkSnoc(r.got, r.pos, EvictedBytes(c), Flatten(c), ReadChunk(Window(c), r.pos, count));
  }

  lemma {:induction false} ReaderStepKeeps(r: Reader, e: Event)
    requires ReaderInvariant(r)
    ensures ReaderInvariant(ReaderStep(r, e))
  {
    match e
    case Wrote(w) => ReaderWriteKeeps(r, w);
    case ReadUpTo(count) => ReaderReadKeeps(r, count);
  }

  /** Over every mix of writes and reads, each piece a reader gets is a stretch of the stream of all
      commits, and between consecutive pieces it skips exactly the bytes evicted in between. */
  lemma {:induction false} ReaderSeesTheStream(l: Log, pos: nat, es: seq<Event>)
    ensures ReaderInvariant(ReaderRun(Reader(l, pos, []), es))
  {
    if es != [] {
      ReaderSeesTheStream(l, pos, es[..|es| - 1]);
      ReaderStepKeeps(ReaderRun(Reader(l, pos, []), es[..|es| - 1]), es[|es| - 1]);
    }
  }

  function Delivered(got: seq<Piece>): seq<Byte> {
    if got == [] then [] else Delivered(got[..|got| - 1]) + got[|got| - 1].bytes
  }

  lemma {:induction false} EvictedIsMonotone(r: Reader, es: seq<Event>)
    ensures EvictedBytes(r.log.committed) <= EvictedBytes(ReaderRun(r, es).log.committed)
  {
    if es != [] {
      var mid := ReaderRun(r, es[..|es| - 1]);
      EvictedIsMonotone(r, es[..|es| - 1]);
      match es[|es| - 1]
      case Wrote(w) => CommittedGrows(mid.log, w);
      case ReadUpTo(_) =>
    }
  }

  /** `bytes` is exactly the stretch of `all` between two positions, `base` bytes being evicted. */
  predicate IsStretch(bytes: seq<Byte>, all: seq<Byte>, base: nat, from: nat, to: nat) {
    from <= to && base + to <= |all| && bytes == all[base + from..base + to]
  }

  lemma {:induction false} StretchExtends(bytes: seq<Byte>, all: seq<Byte>, base: nat, from: nat, to: nat, chunk: seq<Byte>)
    requires IsStretch(bytes, all, base, from, to)
    requires base + to + |chunk| <= |all| && chunk == all[base + to..base + to + |chunk|]
    ensures IsStretch(bytes + chunk, all, base, from, to + |chunk|)
  {
  }

  lemma {:induction false} StretchGrows(bytes: seq<Byte>, all: seq<Byte>, all': seq<Byte>, base: nat, from: nat, to: nat)
    requires IsStretch(bytes, all, base, from, to) && all <= all'
    ensures IsStretch(bytes, all', base, from, to)
  {
  }

  lemma {:induction false} StretchAfterRead(bytes: seq<Byte>, committed: seq<seq<Byte>>, from: nat, pos: nat, count: nat)
    requires IsStretch(bytes, Flatten(committed), EvictedBytes(committed), from, pos)
    ensures var chunk := ReadChunk(Window(committed), pos, count);
            IsStretch(bytes + chunk, Flatten(committed), EvictedBytes(committed), from, pos + |chunk|)
  {
    ReadIsStretchOfAll(committed, pos, count);
    StretchExtends(bytes, Flatten(committed), EvictedBytes(committed), from, pos, ReadChunk(Window(committed), pos, count));
  }

  lemma {:induction false} HasStretchStep(r: Reader, e: Event, base: nat, from: nat)
    requires IsStretch(Delivered(r.got), Flatten(r.log.committed), base, from, r.pos)
    requires EvictedBytes(r.log.committed) == base
    ensures var r' := ReaderStep(r, e);
            IsStretch(Delivered(r'.got), Flatten(r'.log.committed), base, from, r'.pos)
  {
    match e
    case Wrote(w) =>
      CommittedGrows(r.log, w);
      StretchGrows(Delivered(r.got), Flatten(r.log.committed), Flatten(Write(r.log, w).committed), base, from, r.pos);
    case ReadUpTo(count) =>
      StretchAfterRead(Delivered(r.got), r.log.committed, from, r.pos, count);
      DeliveredSnoc(r.got, Piece(base, base + r.pos, ReadChunk(Window(r.log.committed), r.pos, count)));
  }

  lemma {:induction false} DeliveredSnoc(got: seq<Piece>, p: Piece)
    ensures Delivered(got + [p]) == Delivered(got) + p.bytes
  {
    assert (got + [p])[..|got|] == got;
  }

  /** With no eviction during a run, what the reader gets is one contiguous stretch of the stream of all
      commits, starting where it stood. */
  lemma {:induction false} NoEvictionIsContiguous(l: Log, pos: nat, es: seq<Event>)
    requires pos <= |Content(l.committed)|
    requires EvictedBytes(ReaderRun(Reader(l, pos, []), es).log.committed) == EvictedBytes(l.committed)
    ensures var r := ReaderRun(Reader(l, pos, []), es);
            IsStretch(Delivered(r.got), Flatten(r.log.committed), EvictedBytes(l.committed), pos, r.pos)
  {
    var start := Reader(l, pos, []);
    if es == [] {
      ContentIsSuffix(l.committed);
    } else {
      var front, mid := es[..|es| - 1], ReaderRun(start, es[..|es| - 1]);
      EvictedIsMonotone(start, front);
      assert EvictedBytes(mid.log.committed) <= EvictedBytes(ReaderStep(mid, es[|es| - 1]).log.committed) by {
        match es[|es| - 1]
        case Wrote(w) => CommittedGrows(mid.log, w);
        case ReadUpTo(_) =>
      }
      NoEvictionIsContiguous(l, pos, front);
      HasStretchStep(mid, es[|es| - 1], EvictedBytes(l.committed), pos);
    }
  }
}
