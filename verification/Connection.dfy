/** One connection: framing, writing and reading back, as handle_connection does it. */
module Connection {
  import opened Bytes
  import opened DeviceSpec
  import opened Kernel
  import opened Positions
  import opened Device
  import opened LineReader

  const CONNECTION_BUFFER_SIZE: nat := 65536
  const READ_BACK_SIZE: nat := 1024

  /** What the surroundings decide while one line is handled. */
  datatype Turn = Turn(terminate: bool, openOk: bool, write: Env, reopenOk: bool, read: nat -> Env, sendOk: nat -> bool)

  ghost predicate ReadsOk(t: Turn) {
    t.reopenOk && forall i :: !t.read(i).interrupted && t.read(i).copyOk
  }

  ghost predicate SendsOk(t: Turn) {
    forall i :: t.sendOk(i)
  }

  /** Reading on from `fpos` extends what has been read, until the content is exhausted. */
  lemma {:induction false} ChunkExtends(committed: seq<seq<Byte>>, fpos: nat)
    requires fpos <= |Content(committed)|
    ensures var chunk, content := ReadChunk(Window(committed), fpos, READ_BACK_SIZE), Content(committed);
            && fpos + |chunk| <= |content| && content[..fpos] + chunk == content[..fpos + |chunk|]
            && (chunk == [] <==> fpos == |content|)
  {
    ReadChunkBytes(Window(committed), fpos, READ_BACK_SIZE);
  }

  /** A block is what is left of the entry at the position, at most 1024 bytes. */
  lemma {:induction false} BlockOfEntry(committed: seq<seq<Byte>>, fpos: nat, k: nat, o: nat)
    requires StandsAt(Window(committed), fpos, k, o)
    ensures var entry := Window(committed)[k];
            ReadChunk(Window(committed), fpos, READ_BACK_SIZE) == entry[o..if |entry| - o >= 1024 then o + 1024 else |entry|]
  {
    ReadChunkAt(Window(committed), fpos, k, o, READ_BACK_SIZE);
  }

  // ----- how a read-back goes, block by block

  /** The file position after `i` blocks. */
  function ReadBackPos(committed: seq<seq<Byte>>, i: nat): nat {
    if i == 0 then 0
    else
      var pos := ReadBackPos(committed, i - 1);
      pos + |ReadChunk(Window(committed), pos, READ_BACK_SIZE)|
  }

  /** Read number `i` returns an error: the lock was interrupted, or there is something to copy and the copy fails. */
  predicate ReadFails(t: Turn, committed: seq<seq<Byte>>, i: nat) {
    t.read(i).interrupted || (ReadBackPos(committed, i) < |Content(committed)| && !t.read(i).copyOk)
  }

  /** Read number `i` returns a block, but sending it fails. */
  predicate SendFailsAt(t: Turn, committed: seq<seq<Byte>>, i: nat) {
    !ReadFails(t, committed, i) && ReadBackPos(committed, i) < |Content(committed)| && !t.sendOk(i)
  }

  /** Block number `i` is read and sent. */
  predicate BlockDelivered(t: Turn, committed: seq<seq<Byte>>, i: nat) {
    !ReadFails(t, committed, i) && ReadBackPos(committed, i) < |Content(committed)| && t.sendOk(i)
  }

  /** The first `i` blocks are delivered and the next read fails. */
  ghost predicate WildAt(t: Turn, committed: seq<seq<Byte>>, i: nat) {
    ReadFails(t, committed, i) && forall j: nat :: j < i ==> BlockDelivered(t, committed, j)
  }

  /** The first `i` blocks are delivered and were everything. */
  ghost predicate CompleteAt(t: Turn, committed: seq<seq<Byte>>, i: nat) {
    && !ReadFails(t, committed, i) && ReadBackPos(committed, i) >= |Content(committed)|
    && forall j: nat :: j < i ==> BlockDelivered(t, committed, j)
  }

  /** Some read fails after nothing but delivered blocks. */
  ghost predicate GoesWild(t: Turn, committed: seq<seq<Byte>>) {
    t.reopenOk && exists i: nat :: WildAt(t, committed, i)
  }

  /** Everything is delivered. */
  ghost predicate GoesWell(t: Turn, committed: seq<seq<Byte>>) {
    t.reopenOk && exists i: nat :: CompleteAt(t, committed, i)
  }

  /** What was sent is the content of the first `i` blocks. */
  predicate SentUpTo(committed: seq<seq<Byte>>, i: nat, sent: seq<Byte>) {
    ReadBackPos(committed, i) <= |Content(committed)| && sent == Content(committed)[..ReadBackPos(committed, i)]
  }

  /** The first `stop` blocks are delivered, and the next is not. */
  ghost predicate StopsAt(t: Turn, committed: seq<seq<Byte>>, stop: nat) {
    !BlockDelivered(t, committed, stop) && forall j: nat :: j < stop ==> BlockDelivered(t, committed, j)
  }

  /** What was sent are the blocks up to the first that is not delivered; nothing when the open fails. */
  ghost predicate SentAsDecided(t: Turn, committed: seq<seq<Byte>>, sent: seq<Byte>) {
    if t.reopenOk then exists stop: nat :: StopsAt(t, committed, stop) && SentUpTo(committed, stop, sent) else sent == []
  }

  /** In the middle of a read-back, before read number `i`: so far all is well, or the send of block `stop` has failed. */
  ghost predicate UnderWay(t: Turn, committed: seq<seq<Byte>>, i: nat, well: bool, sent: seq<Byte>, stop: nat) {
    && ReadBackPos(committed, i) <= |Content(committed)|
    && (if well then stop == i && SentUpTo(committed, i, sent)
        else stop < i && SendFailsAt(t, committed, stop) && SentUpTo(committed, stop, sent))
    && forall j: nat :: j < stop ==> BlockDelivered(t, committed, j)
  }

  lemma {:induction false} UnderWayStep(t: Turn, committed: seq<seq<Byte>>, i: nat, sent: seq<Byte>, data: seq<Byte>)
    requires UnderWay(t, committed, i, true, sent, i) && !ReadFails(t, committed, i)
    requires ReadBackPos(committed, i) < ReadBackPos(committed, i + 1) <= |Content(committed)|
    requires Content(committed)[..ReadBackPos(committed, i)] + data == Content(committed)[..ReadBackPos(committed, i + 1)]
    ensures t.sendOk(i) ==> UnderWay(t, committed, i + 1, true, sent + data, i + 1)
    ensures !t.sendOk(i) ==> UnderWay(t, committed, i + 1, false, sent, i)
  {
  }

  /** The first block that is not delivered decides how the read-back ends. */
  lemma {:induction false} StopDecides(t: Turn, committed: seq<seq<Byte>>, stop: nat)
    requires StopsAt(t, committed, stop)
    ensures (exists i: nat :: WildAt(t, committed, i)) <==> ReadFails(t, committed, stop)
    ensures (exists i: nat :: CompleteAt(t, committed, i)) <==>
            !ReadFails(t, committed, stop) && ReadBackPos(committed, stop) >= |Content(committed)|
  {
    if ReadFails(t, committed, stop) {
      assert WildAt(t, committed, stop);
    } else if ReadBackPos(committed, stop) >= |Content(committed)| {
      assert CompleteAt(t, committed, stop);
    }
    forall i: nat | WildAt(t, committed, i) || CompleteAt(t, committed, i)
      ensures i == stop
    {
      assert i < stop ==> BlockDelivered(t, committed, i);
      assert stop < i ==> BlockDelivered(t, committed, stop);
    }
  }

  /** Exactly how a read-back ends: what was sent is a prefix of the content; a failed read is mistaken for a byte count
      exactly when it follows delivered blocks only; and 0 is returned exactly when everything was delivered. */
  ghost predicate ReadBackResult(t: Turn, committed: seq<seq<Byte>>, ret: int, sent: seq<Byte>, wild: bool) {
    && sent <= Content(committed) && SentAsDecided(t, committed, sent) && (ret == 0 || ret == -1)
    && (!wild && ret == 0 ==> sent == Content(committed))
    && (wild <==> GoesWild(t, committed))
    && (!wild && ret == 0 <==> GoesWell(t, committed))
  }

  /** The three ways out of the loop: a failed read that is taken for a count, the end of the content, and the read
      after a failed send. */
  lemma {:induction false} ReadBackEnds(t: Turn, committed: seq<seq<Byte>>, i: nat, well: bool, sent: seq<Byte>,
                                        stop: nat, bytesRead: int)
    requires t.reopenOk && UnderWay(t, committed, i, well, sent, stop)
    requires bytesRead < 0 <==> ReadFails(t, committed, i)
    requires well ==> bytesRead <= 0
    requires bytesRead == 0 <==> !ReadFails(t, committed, i) && ReadBackPos(committed, i) == |Content(committed)|
    ensures well && bytesRead < 0 ==> ReadBackResult(t, committed, 0, sent, true)
    ensures well && bytesRead == 0 ==> ReadBackResult(t, committed, 0, sent, false)
    ensures !well ==> ReadBackResult(t, committed, -1, sent, false)
  {
    assert StopsAt(t, committed, stop);
    StopDecides(t, committed, stop);
  }

  lemma {:induction false} BlocksBeforeEnd(committed: seq<seq<Byte>>, i: nat, n: nat)
    requires i <= n
    ensures ReadBackPos(committed, i) <= ReadBackPos(committed, n)
  {
    if i < n {
      BlocksBeforeEnd(committed, i, n - 1);
    }
  }

  /** A read-back that delivers everything: no read of a block fails, and no send. */
  lemma {:induction false} WellMeans(t: Turn, committed: seq<seq<Byte>>)
    requires GoesWell(t, committed)
    ensures t.reopenOk
    ensures forall i: nat :: ReadBackPos(committed, i) < |Content(committed)| ==>
              !t.read(i).interrupted && t.read(i).copyOk && t.sendOk(i)
  {
    var n: nat :| CompleteAt(t, committed, n);
    forall i: nat | ReadBackPos(committed, i) < |Content(committed)|
      ensures !t.read(i).interrupted && t.read(i).copyOk && t.sendOk(i)
    {
      if i >= n {
        BlocksBeforeEnd(committed, n, i);
      }
      assert BlockDelivered(t, committed, i);
    }
  }

  /** A read-back in which an error is sent as a count: that read fails, and no read or send before it. */
  lemma {:induction false} WildMeans(t: Turn, committed: seq<seq<Byte>>) returns (i: nat)
    requires GoesWild(t, committed)
    ensures t.reopenOk && (t.read(i).interrupted || !t.read(i).copyOk)
    ensures forall j: nat :: j < i ==> !t.read(j).interrupted && t.read(j).copyOk && t.sendOk(j)
  {
    i :| WildAt(t, committed, i);
    forall j: nat | j < i
      ensures !t.read(j).interrupted && t.read(j).copyOk && t.sendOk(j)
    {
      assert BlockDelivered(t, committed, j);
    }
  }

  /** A turn whose first copy to the user fails is wild as soon as the device holds a byte. */
  lemma {:induction false} FailedCopyIsWild(committed: seq<seq<Byte>>)
    requires Content(committed) != []
    ensures var bad := Env(false, true, false, true, false, _ => 0);
            GoesWild(Turn(false, true, bad, true, _ => bad, _ => true), committed)
  {
    var bad := Env(false, true, false, true, false, _ => 0);
    assert WildAt(Turn(false, true, bad, true, _ => bad, _ => true), committed, 0);
  }

  lemma {:induction false} NeverWild(t: Turn, committed: seq<seq<Byte>>)
    requires ReadsOk(t)
    ensures !GoesWild(t, committed)
  {
  }

  /** Without failing reads and sends the read-back is complete. */
  lemma {:induction false} GoodReadBack(t: Turn, committed: seq<seq<Byte>>, from: nat) returns (stop: nat)
    requires ReadsOk(t) && SendsOk(t) && forall j: nat :: j < from ==> BlockDelivered(t, committed, j)
    requires ReadBackPos(committed, from) <= |Content(committed)|
    ensures CompleteAt(t, committed, stop)
    decreases |Content(committed)| - ReadBackPos(committed, from)
  {
    if ReadBackPos(committed, from) == |Content(committed)| {
      stop := from;
    } else {
      ChunkExtends(committed, ReadBackPos(committed, from));
      assert BlockDelivered(t, committed, from);
      stop := GoodReadBack(t, committed, from + 1);
    }
  }

  class Filestore {
    const dev: AesdDevice
    /** file_mutex */
    var locked: bool

    constructor ()
      ensures Valid() && !locked && dev.log == EMPTY_LOG
      ensures fresh(dev) && fresh(dev.buffer) && fresh(dev.buffer.entry) && fresh(dev.heap)
    {
      dev := new AesdDevice();
      locked := false;
    }

    ghost predicate Valid()
      reads this, dev, dev.buffer, dev.buffer.entry, dev.heap
    {
      dev.Valid() && dev.Intact()
    }

    /** filestore_write: a failing write returns with the mutex still held. */
    method Write(data: seq<Byte>, t: Turn) returns (ret: int)
      requires Valid() && !locked
      modifies this, dev, dev.buffer, dev.buffer.entry, dev.heap
      ensures dev.Valid()
      ensures ret == 0 || ret == -1
      ensures ret == 0 <==> t.openOk && ReachesDevice(data, t.write) && Fits(old(dev.entry.size), UpToNewline(data), t.write)
      ensures ret == 0 ==> Valid() && !locked && dev.log == DeviceSpec.Write(old(dev.log), data)
      ensures ret == -1 ==> locked && dev.log == old(dev.log)
    {
      locked := true;
      var n := -1;
      if t.openOk {
        n := dev.Write(data, t.write);
      }
      if n < 0 {
        return -1;
      }
      locked := false;
      return 0;
    }

    /** One read of the read-back. */
    method ReadBlock(t: Turn, i: nat, fpos: nat) returns (bytesRead: int, data: seq<Byte>, fpos': nat)
      requires Valid() && fpos == ReadBackPos(dev.log.committed, i) <= |Content(dev.log.committed)|
      ensures bytesRead < 0 <==> ReadFails(t, dev.log.committed, i)
      ensures bytesRead == 0 <==> !ReadFails(t, dev.log.committed, i) && fpos == |Content(dev.log.committed)|
      ensures bytesRead > 0 ==>
                && fpos < fpos' == ReadBackPos(dev.log.committed, i + 1) <= |Content(dev.log.committed)|
                && Content(dev.log.committed)[..fpos] + data == Content(dev.log.committed)[..fpos']
    {
      LiveFits(dev.Accounts());
      ChunkExtends(dev.log.committed, fpos);
      bytesRead, data, fpos' := dev.Read(READ_BACK_SIZE, fpos, t.read(i));
    }

    /** The loop of the read-back, in blocks of 1024 bytes. `wild` says that a failed read was taken for a byte count, the
        count being unsigned, and handed to send. */
    method SendContent(t: Turn) returns (ret: int, sent: seq<Byte>, wild: bool)
      requires Valid() && t.reopenOk
      ensures ReadBackResult(t, dev.log.committed, ret, sent, wild)
    {
      ret, sent, wild := 0, [], false;
      ghost var committed := dev.log.committed;
      var fpos: nat, i: nat, bytesRead := 0, 0, 0;
      ghost var stop: nat := 0;
      while true
        invariant fpos == ReadBackPos(committed, i) <= |Content(committed)| && (ret == 0 || ret == -1)
        invariant UnderWay(t, committed, i, ret == 0, sent, stop)
        decreases |Content(committed)| - fpos, ret
      {
        var data, fpos';
        bytesRead, data, fpos' := ReadBlock(t, i, fpos);
        if bytesRead == 0 || ret == -1 {
          break;
        }
        if bytesRead < 0 {
          ReadBackEnds(t, committed, i, true, sent, i, bytesRead);
          wild := true;
          return;
        }
        UnderWayStep(t, committed, i, sent, data);
        if t.sendOk(i) {
          sent := sent + data;
          stop := i + 1;
        } else {
          ret := -1;
        }
        fpos, i := fpos', i + 1;
      }
      ReadBackEnds(t, committed, i, ret == 0, sent, stop, bytesRead);
      if bytesRead < 0 {
        ret := -1;
      }
    }

    /** filestore_read_to_dest: the read-back under the file mutex. */
    method ReadToDest(t: Turn) returns (ret: int, sent: seq<Byte>, wild: bool)
      requires Valid() && !locked
      modifies this
      ensures ReadBackResult(t, dev.log.committed, ret, sent, wild)
      ensures locked <==> wild
    {
      locked := true;
      if !t.reopenOk {
        locked := false;
        return -1, [], false;
      }
      ret, sent, wild := SendContent(t);
      if !wild {
        locked := false;
      }
    }
  }

  // ----- the whole connection

  lemma {:induction false} StoredLine(r: Raw, n: nat, was: seq<Byte>, now: seq<Byte>, ret: int)
    requires 0 < n <= |was| && LineStored(r, n, was, now, ret)
    ensures ret > 0 <==> r.ending != AtError && CutTo(r.line, n - 1) != []
    ensures ret > 0 ==> ret <= |now| && now[..ret] == CutTo(r.line, n - 1)
  {
  }

  /** read_line into the connection's buffer, and what the caller finds in it. */
  method NextLine(fd: Descriptor, buffer: array<Byte>) returns (n: int, line: seq<Byte>)
    requires buffer.Length == CONNECTION_BUFFER_SIZE
    modifies fd, buffer
    ensures fd.input == RawLine(old(fd.input)).rest && |fd.input| <= |old(fd.input)|
    ensures n > 0 <==> Frames(old(fd.input), CONNECTION_BUFFER_SIZE) != []
    ensures n > 0 ==>
              && |fd.input| < |old(fd.input)|
              && Frames(old(fd.input), CONNECTION_BUFFER_SIZE) == [line] + Frames(fd.input, CONNECTION_BUFFER_SIZE)
  {
    ghost var raw, was := RawLine(fd.input), buffer[..];
    RawShrinks(fd.input);
    n := ReadLine(fd, buffer, CONNECTION_BUFFER_SIZE);
    StoredLine(raw, CONNECTION_BUFFER_SIZE, was, buffer[..], n);
    line := if n > 0 then buffer[..n] else [];
  }

  lemma {:induction false} WriteAllSnoc(l: Log, ws: seq<seq<Byte>>, w: seq<Byte>)
    ensures WriteAll(l, ws + [w]) == DeviceSpec.Write(WriteAll(l, ws), w)
  {
    assert (ws + [w])[..|ws|] == ws;
  }

  /** Nothing goes wrong: no failing call, no signal, and room for every pending line. */
  ghost predicate AllGood(turns: nat -> Turn, l: Log, frames: seq<seq<Byte>>) {
    && (forall i :: !turns(i).terminate && turns(i).openOk && ReadsOk(turns(i)) && SendsOk(turns(i)))
    && (forall i :: var e := turns(i).write; !e.interrupted && e.kmallocOk && e.copyOk && e.kreallocOk)
    && |l.pending| + |Flatten(frames)| <= MAX_BLOCK
  }

  /** The replies to a sequence of writes: after each, the content at that moment. */
  ghost predicate RepliesAre(replies: seq<seq<Byte>>, l: Log, written: seq<seq<Byte>>) {
    && |replies| == |written|
    && forall i :: 0 <= i < |replies| ==> replies[i] == Content(WriteAll(l, written[..i + 1]).committed)
  }

  lemma {:induction false} RepliesSnoc(replies: seq<seq<Byte>>, l: Log, written: seq<seq<Byte>>, w: seq<Byte>, sent: seq<Byte>)
    requires RepliesAre(replies, l, written)
    requires sent == Content(WriteAll(l, written + [w]).committed)
    ensures RepliesAre(replies + [sent], l, written + [w])
  {
    var written' := written + [w];
    forall i | 0 <= i < |written'|
      ensures (replies + [sent])[i] == Content(WriteAll(l, written'[..i + 1]).committed)
    {
      if i < |written| {
        assert written'[..i + 1] == written[..i + 1];
      } else {
        assert written'[..i + 1] == written';
      }
    }
  }

  /** The write of a line succeeds. */
  predicate WriteWorks(t: Turn, l: Log, line: seq<Byte>) {
    t.openOk && ReachesDevice(line, t.write) && Fits(|l.pending|, UpToNewline(line), t.write)
  }

  /** How a connection ends: its stream is exhausted or the server terminates; it waits for ever for the mutex that its own
      failed write kept; an error was sent as a byte count; or a read-back failed otherwise. */
  datatype Exit = Exhausted | StuckInLock | SentJunk | ReadBackFailed

  /** What the surroundings make of the frames of a connection: how many of them reach the device, and how it ends. */
  datatype Outcome = Outcome(lines: nat, exit: Exit)

  ghost function Served(turns: nat -> Turn, k: nat, l: Log, frames: seq<seq<Byte>>): (o: Outcome)
    ensures o.lines <= |frames|
    decreases |frames|
  {
    if frames == [] || turns(k).terminate then Outcome(0, Exhausted)
    else
      var l' := DeviceSpec.Write(l, frames[0]);
      if !WriteWorks(turns(k), l, frames[0]) then Outcome(0, StuckInLock)
      else if GoesWild(turns(k), l'.committed) then Outcome(1, SentJunk)
      else if !GoesWell(turns(k), l'.committed) then Outcome(1, ReadBackFailed)
      else Further(1, Served(turns, k + 1, l', frames[1..]))
  }

  function Further(n: nat, o: Outcome): Outcome {
    o.(lines := n + o.lines)
  }

  /** Line `i` of the connection is written, and its read-back delivers everything. */
  ghost predicate LineServed(turns: nat -> Turn, k: nat, l: Log, frames: seq<seq<Byte>>, i: nat)
    requires i < |frames|
  {
    && !turns(k + i).terminate && WriteWorks(turns(k + i), WriteAll(l, frames[..i]), frames[i])
    && GoesWell(turns(k + i), WriteAll(l, frames[..i + 1]).committed)
  }

  /** The loop ends before line `n` or in its write, or with the read-back of line `n - 1`, according to `exit`. */
  ghost predicate EndsWith(turns: nat -> Turn, k: nat, l: Log, frames: seq<seq<Byte>>, n: nat, exit: Exit)
    requires n <= |frames|
  {
    match exit
    case Exhausted => n == |frames| || turns(k + n).terminate
    case StuckInLock =>
      n < |frames| && !turns(k + n).terminate && !WriteWorks(turns(k + n), WriteAll(l, frames[..n]), frames[n])
    case SentJunk => n > 0 && GoesWild(turns(k + n - 1), WriteAll(l, frames[..n]).committed)
    case ReadBackFailed =>
      n > 0 && !GoesWild(turns(k + n - 1), WriteAll(l, frames[..n]).committed) &&
      !GoesWell(turns(k + n - 1), WriteAll(l, frames[..n]).committed)
  }

  lemma {:induction false} WriteAllCons(l: Log, frames: seq<seq<Byte>>, n: nat)
    requires frames != [] && n < |frames|
    ensures WriteAll(l, frames[..n + 1]) == WriteAll(DeviceSpec.Write(l, frames[0]), frames[1..][..n])
  {
    if n == 0 {
      assert frames[..1] == [] + [frames[0]] && frames[1..][..0] == [];
      WriteAllSnoc(l, [], frames[0]);
    } else {
      WriteAllCons(l, frames, n - 1);
      assert frames[..n + 1] == frames[..n] + [frames[n]] && frames[1..][..n] == frames[1..][..n - 1] + [frames[n]];
      WriteAllSnoc(l, frames[..n], frames[n]);
      WriteAllSnoc(DeviceSpec.Write(l, frames[0]), frames[1..][..n - 1], frames[n]);
    }
  }

  lemma {:induction false} LineServedNext(turns: nat -> Turn, k: nat, l: Log, frames: seq<seq<Byte>>, i: nat)
    requires frames != [] && i < |frames| - 1
    requires LineServed(turns, k + 1, DeviceSpec.Write(l, frames[0]), frames[1..], i)
    ensures LineServed(turns, k, l, frames, i + 1)
  {
    WriteAllCons(l, frames, i);
    WriteAllCons(l, frames, i + 1);
    assert k + 1 + i == k + (i + 1);
  }

  lemma {:induction false} EndsWithNext(turns: nat -> Turn, k: nat, l: Log, frames: seq<seq<Byte>>, n: nat, exit: Exit)
    requires frames != [] && n < |frames|
    requires EndsWith(turns, k + 1, DeviceSpec.Write(l, frames[0]), frames[1..], n, exit)
    ensures EndsWith(turns, k, l, frames, n + 1, exit)
  {
    WriteAllCons(l, frames, n);
    assert k + 1 + n == k + (n + 1) && k + 1 + n - 1 == k + (n + 1) - 1;
  }

  /** All lines before the last that reached the device were served whole, so was the last unless its read-back ended the
      loop, and the exit has its reason. */
  ghost predicate Justified(turns: nat -> Turn, k: nat, l: Log, frames: seq<seq<Byte>>, o: Outcome) {
    && o.lines <= |frames| && EndsWith(turns, k, l, frames, o.lines, o.exit)
    && forall i: nat :: i < o.lines && (i + 1 < o.lines || o.exit.Exhausted? || o.exit.StuckInLock?) ==>
         LineServed(turns, k, l, frames, i)
  }

  lemma {:induction false} JustifiedAtOnce(turns: nat -> Turn, k: nat, l: Log, frames: seq<seq<Byte>>)
    ensures frames == [] || turns(k).terminate ==> Justified(turns, k, l, frames, Outcome(0, Exhausted))
    ensures frames != [] && !turns(k).terminate ==>
              var c := DeviceSpec.Write(l, frames[0]).committed;
              && (!WriteWorks(turns(k), l, frames[0]) ==> Justified(turns, k, l, frames, Outcome(0, StuckInLock)))
              && (GoesWild(turns(k), c) ==> Justified(turns, k, l, frames, Outcome(1, SentJunk)))
              && (!GoesWild(turns(k), c) && !GoesWell(turns(k), c) ==> Justified(turns, k, l, frames, Outcome(1, ReadBackFailed)))
  {
    assert frames[..0] == [] && k + 0 == k && k + 1 - 1 == k;
    if frames != [] {
      WriteAllCons(l, frames, 0);
      assert frames[1..][..0] == [];
    }
  }

  lemma {:induction false} JustifiedFurther(turns: nat -> Turn, k: nat, l: Log, frames: seq<seq<Byte>>, o: Outcome)
    requires frames != [] && LineServed(turns, k, l, frames, 0)
    requires Justified(turns, k + 1, DeviceSpec.Write(l, frames[0]), frames[1..], o)
    ensures Justified(turns, k, l, frames, Further(1, o))
  {
    EndsWithNext(turns, k, l, frames, o.lines, o.exit);
    forall i: nat | 0 < i < o.lines + 1 && (i < o.lines || o.exit.Exhausted? || o.exit.StuckInLock?)
      ensures LineServed(turns, k, l, frames, i)
    {
      LineServedNext(turns, k, l, frames, i - 1);
    }
  }

  lemma {:induction false} FirstLineServed(turns: nat -> Turn, k: nat, l: Log, frames: seq<seq<Byte>>)
    requires frames != [] && !turns(k).terminate && WriteWorks(turns(k), l, frames[0])
    requires GoesWell(turns(k), DeviceSpec.Write(l, frames[0]).committed)
    ensures LineServed(turns, k, l, frames, 0)
  {
    WriteAllCons(l, frames, 0);
    assert frames[..0] == [] && frames[1..][..0] == [] && k + 0 == k;
  }

  /** The outcome is justified by what each call did, line by line. */
  lemma {:induction false} ServedIsJustified(turns: nat -> Turn, k: nat, l: Log, frames: seq<seq<Byte>>)
    ensures Justified(turns, k, l, frames, Served(turns, k, l, frames))
    decreases |frames|
  {
    JustifiedAtOnce(turns, k, l, frames);
    if frames != [] && !turns(k).terminate && WriteWorks(turns(k), l, frames[0]) {
      var l' := DeviceSpec.Write(l, frames[0]);
      if !GoesWild(turns(k), l'.committed) && GoesWell(turns(k), l'.committed) {
        ServedIsJustified(turns, k + 1, l', frames[1..]);
        FirstLineServed(turns, k, l, frames);
        JustifiedFurther(turns, k, l, frames, Served(turns, k + 1, l', frames[1..]));
      }
    }
  }

  /** With nothing going wrong every frame reaches the device. */
  lemma {:induction false} AllServed(turns: nat -> Turn, k: nat, l: Log, frames: seq<seq<Byte>>)
    requires AllGood(turns, l, frames)
    ensures Served(turns, k, l, frames) == Outcome(|frames|, Exhausted)
    decreases |frames|
  {
    if frames != [] {
      var t, l' := turns(k), DeviceSpec.Write(l, frames[0]);
      assert WriteWorks(t, l, frames[0]);
      NeverWild(t, l'.committed);
      var stop := GoodReadBack(t, l'.committed, 0);
      AllServed(turns, k + 1, l', frames[1..]);
    }
  }

  /** The replies of a connection that ends with `exit`: the whole content after each line, but for a read-back that failed
      at the last line. */
  ghost predicate Answered(replies: seq<seq<Byte>>, l: Log, written: seq<seq<Byte>>, exit: Exit) {
    match exit
    case Exhausted | StuckInLock => RepliesAre(replies, l, written)
    case SentJunk => written != [] && RepliesAre(replies, l, written[..|written| - 1])
    case ReadBackFailed =>
      && |replies| == |written| > 0 && replies[|replies| - 1] <= Content(WriteAll(l, written).committed)
      && RepliesAre(replies[..|replies| - 1], l, written[..|written| - 1])
  }

  /** One turn of the loop of handle_connection: write the line, then read everything back. */
  method ServeLine(fs: Filestore, line: seq<Byte>, t: Turn) returns (stuck: bool, wild: bool, failed: bool, sent: seq<Byte>)
    requires fs.Valid() && !fs.locked
    modifies fs, fs.dev, fs.dev.buffer, fs.dev.buffer.entry, fs.dev.heap
    ensures stuck <==> !WriteWorks(t, old(fs.dev.log), line)
    ensures stuck ==> !wild && fs.locked && fs.dev.log == old(fs.dev.log)
    ensures !stuck ==> fs.Valid() && fs.dev.log == DeviceSpec.Write(old(fs.dev.log), line)
    ensures !stuck && !wild ==> !fs.locked
    ensures !stuck ==> ReadBackResult(t, fs.dev.log.committed, if failed then -1 else 0, sent, wild)
  {
    stuck, wild, failed, sent := false, false, false, [];
    var ret := fs.Write(line, t);
    if ret == -1 {
      stuck := true;
      return;
    }
    ret, sent, wild := fs.ReadToDest(t);
    failed := ret == -1;
  }

  /** The state of the loop before line `|written|`: what is left decides the outcome, unless a read-back has failed. */
  ghost predicate Serving(turns: nat -> Turn, l: Log, frames: seq<seq<Byte>>, written: seq<seq<Byte>>, rest: seq<seq<Byte>>,
                          replies: seq<seq<Byte>>, failed: bool) {
    && frames == written + rest
    && if failed
       then Served(turns, 0, l, frames) == Outcome(|written|, ReadBackFailed) && Answered(replies, l, written, ReadBackFailed)
       else && Served(turns, 0, l, frames) == Further(|written|, Served(turns, |written|, WriteAll(l, written), rest))
            && RepliesAre(replies, l, written)
  }

  /** The connection is over, with the outcome that its surroundings decide. */
  ghost predicate ServedAs(turns: nat -> Turn, l: Log, frames: seq<seq<Byte>>, written: seq<seq<Byte>>,
                           replies: seq<seq<Byte>>, stuck: bool, wild: bool) {
    var o := Served(turns, 0, l, frames);
    && written == frames[..o.lines] && (stuck <==> o.exit.StuckInLock?) && (wild <==> o.exit.SentJunk?)
    && Answered(replies, l, written, o.exit)
  }

  lemma {:induction false} ServingStep(turns: nat -> Turn, l: Log, frames: seq<seq<Byte>>, written: seq<seq<Byte>>,
                                       line: seq<Byte>, rest: seq<seq<Byte>>, replies: seq<seq<Byte>>, ret: int,
                                       sent: seq<Byte>, wild: bool)
    requires Serving(turns, l, frames, written, [line] + rest, replies, false)
    requires !turns(|written|).terminate && WriteWorks(turns(|written|), WriteAll(l, written), line)
    requires ReadBackResult(turns(|written|), DeviceSpec.Write(WriteAll(l, written), line).committed, ret, sent, wild)
    ensures WriteAll(l, written + [line]) == DeviceSpec.Write(WriteAll(l, written), line)
    ensures wild ==> ServedAs(turns, l, frames, written + [line], replies, false, true)
    ensures !wild ==> Serving(turns, l, frames, written + [line], rest, replies + [sent], ret == -1)
  {
    var w, o := written + [line], Served(turns, |written|, WriteAll(l, written), [line] + rest);
    WriteAllSnoc(l, written, line);
    assert ([line] + rest)[1..] == rest && written + ([line] + rest) == w + rest && w[..|w| - 1] == written;
    if wild {
      assert o == Outcome(1, SentJunk);
    } else if ret == -1 {
      assert o == Outcome(1, ReadBackFailed);
      assert (replies + [sent])[..|w| - 1] == replies;
    } else {
      assert o == Further(1, Served(turns, |w|, WriteAll(l, w), rest));
      RepliesSnoc(replies, l, written, line, sent);
    }
  }

  /** The loop ends before line `|written|`, or the write of that line fails. */
  lemma {:induction false} ServingEnds(turns: nat -> Turn, l: Log, frames: seq<seq<Byte>>, written: seq<seq<Byte>>,
                                       rest: seq<seq<Byte>>, replies: seq<seq<Byte>>, failed: bool)
    requires Serving(turns, l, frames, written, rest, replies, failed)
    requires failed || rest == [] || turns(|written|).terminate || !WriteWorks(turns(|written|), WriteAll(l, written), rest[0])
    ensures ServedAs(turns, l, frames, written, replies, !(failed || rest == [] || turns(|written|).terminate), false)
  {
    assert (written + rest)[..|written|] == written;
  }

  /** One turn of the loop of handle_connection: write the line, then read everything back. The ghost arguments say where
      the connection stands. */
  method ServeNext(fs: Filestore, line: seq<Byte>, turns: nat -> Turn, k: nat, ghost l: Log, ghost frames: seq<seq<Byte>>,
                   ghost written: seq<seq<Byte>>, ghost rest: seq<seq<Byte>>, ghost replies: seq<seq<Byte>>)
    returns (stuck: bool, wild: bool, failed: bool, sent: seq<Byte>)
    requires fs.Valid() && !fs.locked && fs.dev.log == WriteAll(l, written) && k == |written| && !turns(k).terminate
    requires Serving(turns, l, frames, written, [line] + rest, replies, false)
    modifies fs, fs.dev, fs.dev.buffer, fs.dev.buffer.entry, fs.dev.heap
    ensures stuck ==> !wild && fs.locked && fs.dev.log == WriteAll(l, written) && ServedAs(turns, l, frames, written, replies, true, false)
    ensures !stuck ==> fs.Valid() && fs.dev.log == WriteAll(l, written + [line])
    ensures !stuck && wild ==> ServedAs(turns, l, frames, written + [line], replies, false, true)
    ensures !stuck && !wild ==> !fs.locked && Serving(turns, l, frames, written + [line], rest, replies + [sent], failed)
  {
    stuck, wild, failed, sent := ServeLine(fs, line, turns(k));
    if stuck {
      ServingEnds(turns, l, frames, written, [line] + rest, replies, false);
    } else {
      ServingStep(turns, l, frames, written, line, rest, replies, if failed then -1 else 0, sent, wild);
    }
  }

  /** handle_connection against a device nobody else uses. `written` is what reached the device, `stuck` says
      that a write failed and the next lock of the mutex waits for ever, `wild` is as in ReadToDest, and ends the model. */
  method HandleConnection(fd: Descriptor, buffer: array<Byte>, fs: Filestore, turns: nat -> Turn)
    returns (ghost written: seq<seq<Byte>>, replies: seq<seq<Byte>>, stuck: bool, wild: bool)
    requires fs.Valid() && !fs.locked && buffer.Length == CONNECTION_BUFFER_SIZE
    modifies fd, buffer, fs, fs.dev, fs.dev.buffer, fs.dev.buffer.entry, fs.dev.heap
    ensures ServedAs(turns, old(fs.dev.log), Frames(old(fd.input), 65536), written, replies, stuck, wild)
    ensures fs.dev.log == WriteAll(old(fs.dev.log), written)
    ensures stuck ==> fs.locked
    ensures !stuck && !wild ==> fs.Valid() && !fs.locked
  {
    ghost var log, frames := fs.dev.log, Frames(fd.input, CONNECTION_BUFFER_SIZE);
    written, replies, stuck, wild := [], [], false, false;
    var failed := false;
    var k: nat := 0;
    while true
      invariant fs.Valid() && !fs.locked && k == |written| && fs.dev.log == WriteAll(log, written)
      invariant Serving(turns, log, frames, written, Frames(fd.input, CONNECTION_BUFFER_SIZE), replies, failed)
      decreases |fd.input|
    {
      ghost var ahead := Frames(fd.input, CONNECTION_BUFFER_SIZE);
      var n, line := NextLine(fd, buffer);
      if n <= 0 || turns(k).terminate || failed {
        ServingEnds(turns, log, frames, written, ahead, replies, failed);
        return;
      }
      var sent;
      stuck, wild, failed, sent := ServeNext(fs, line, turns, k, log, frames, written,
                                             Frames(fd.input, CONNECTION_BUFFER_SIZE), replies);
      if stuck {
        return;
      }
      written := written + [line];
      if wild {
        return;
      }
      replies := replies + [sent];
      k := k + 1;
    }
  }
}
