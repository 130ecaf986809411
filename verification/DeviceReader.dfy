/** A program that writes to the device and reads from it, against the reader of the specification. */
module DeviceReader {
  import opened Bytes
  import opened DeviceSpec
  import opened CircularBuffer
  import opened Kernel
  import opened Positions
  import opened Device

  function Volume(es: seq<Event>): nat {
    if es == [] then 0 else (if es[0].Wrote? then |es[0].bytes| else 0) + Volume(es[1..])
  }

  /** Every call of the driver succeeds. */
  predicate Works(env: Env) {
    !env.interrupted && env.kmallocOk && env.copyOk && env.kreallocOk
  }

  lemma {:induction false} RunSnoc(r: Reader, es: seq<Event>, i: nat)
    requires i < |es|
    ensures ReaderRun(r, es[..i + 1]) == ReaderStep(ReaderRun(r, es[..i]), es[i])
    ensures Volume(es[i..]) == (if es[i].Wrote? then |es[i].bytes| else 0) + Volume(es[i + 1..])
  {
    assert es[..i + 1][..i] == es[..i] && es[i..][1..] == es[i + 1..];
  }

  /** One write of the program. */
  method DoWrite(dev: AesdDevice, bytes: seq<Byte>, env: Env)
    requires dev.Valid() && dev.Intact() && Works(env) && |dev.log.pending| + |bytes| <= MAX_BLOCK
    modifies dev, dev.buffer, dev.buffer.entry, dev.heap
    ensures dev.Valid() && dev.Intact() && dev.log == DeviceSpec.Write(old(dev.log), bytes)
    ensures |dev.log.pending| <= |old(dev.log.pending)| + |bytes|
  {
    UpToNewlineKeeps(bytes);
    var n := dev.Write(bytes, env);
  }

  /** One read of the program. */
  method DoRead(dev: AesdDevice, pos: SizeT, count: nat, env: Env) returns (data: seq<Byte>, pos': SizeT)
    requires dev.Valid() && Works(env)
    ensures data == ReadChunk(Window(dev.log.committed), pos, count) && pos' == pos + |data|
  {
    LiveFits(dev.Accounts());
    ReadChunkBytes(Window(dev.log.committed), pos, count);
    var n, fpos';
    n, data, fpos' := dev.Read(count, pos, env);
    pos' := fpos';
  }

  /** Any mix of writes and reads: the device's log, the program's position and the bytes it gets are those of the reader of
      the specification. */
  method Follow(dev: AesdDevice, pos: SizeT, es: seq<Event>, envs: nat -> Env) returns (pos': SizeT, got: seq<seq<Byte>>)
    requires dev.Valid() && dev.Intact() && |dev.log.pending| + Volume(es) <= MAX_BLOCK
    requires forall i :: 0 <= i < |es| ==> Works(envs(i))
    modifies dev, dev.buffer, dev.buffer.entry, dev.heap
    ensures dev.Valid() && dev.Intact()
    ensures var r := ReaderRun(Reader(old(dev.log), pos, []), es);
            && dev.log == r.log && pos' == r.pos && |got| == |r.got|
            && forall i :: 0 <= i < |got| ==> got[i] == r.got[i].bytes
  {
    ghost var start := Reader(dev.log, pos, []);
    pos', got := pos, [];
    assert es[..0] == [] && es[0..] == es;
    for i := 0 to |es|
      invariant dev.Valid() && dev.Intact() && |dev.log.pending| + Volume(es[i..]) <= MAX_BLOCK
      invariant var r := ReaderRun(start, es[..i]);
                && dev.log == r.log && pos' == r.pos && |got| == |r.got|
                && forall i :: 0 <= i < |got| ==> got[i] == r.got[i].bytes
    {
      RunSnoc(start, es, i);
      match es[i] {
        case Wrote(bytes) => DoWrite(dev, bytes, envs(i));
        case ReadUpTo(count) =>
          var data;
          data, pos' := DoRead(dev, pos', count, envs(i));
          got := got + [data];
      }
    }
    assert es[..|es|] == es;
  }
}
