/** What the invariant of the connection threads means: mutual exclusion, an order-preserving merge of the
    clients' lines, and consistent replies. */
module ServerGuarantees {
  import opened Bytes
  import opened DeviceSpec
  import opened LineReader
  import opened Connection
  import opened EndToEnd
  import opened Protocol

  // ----- locks

  /** In every reachable state each lock has at most one holder, and a thread that holds the device lock took the
      file mutex before. */
  lemma {:induction false} MutualExclusion(frames: seq<seq<seq<Byte>>>, acts: seq<Action>, t: nat, u: nat)
    requires t < |frames| && u < |frames|
    ensures var s := Exec(Init(frames), acts);
            && |s.threads| == |frames|
            && (HoldsFile(s.threads[t].pc) && HoldsFile(s.threads[u].pc) ==> t == u)
            && (HoldsDev(s.threads[t].pc) && HoldsDev(s.threads[u].pc) ==> t == u)
            && (s.dev == Some(t) ==> s.file == Some(t))
  {
    RunKeepsInv(frames, acts);
    var s := Exec(Init(frames), acts);
    assert LocksOk(s, t, s.threads[t].pc) && LocksOk(s, u, s.threads[u].pc);
  }

  // ----- the merge

  /** Write `i` is entry number |By(writes[..i], t)| among the writes of its thread `t`. */
  lemma {:induction false} ByIndex(writes: seq<Written>, i: nat)
    requires i < |writes|
    ensures var t := writes[i].who;
            var k := |By(writes[..i], t)|;
            k < |By(writes, t)| && By(writes, t)[k] == writes[i].line
    decreases |writes|
  {
    var n, t := |writes| - 1, writes[i].who;
    assert writes == writes[..n] + [writes[n]];
    ByAppend(writes[..n], writes[n], t);
    if i < n {
      ByIndex(writes[..n], i);
      assert writes[..n][..i] == writes[..i];
    }
  }

  /** Every write is a frame of its thread. */
  lemma {:induction false} PlaceOfWrite(s: State, frames: seq<seq<seq<Byte>>>, i: nat) returns (k: nat)
    requires Inv(s, frames) && i < |s.writes|
    ensures var t := s.writes[i].who; t < |frames| && k < |frames[t]| && frames[t][k] == s.writes[i].line
  {
    var t := s.writes[i].who;
    assert ThreadOk(s.writes, s.log, t, s.threads[t], frames[t]);
    ByIndex(s.writes, i);
    k := |By(s.writes[..i], t)|;
  }

  lemma {:induction false} WritesAreLines(s: State, frames: seq<seq<seq<Byte>>>)
    requires Inv(s, frames) && forall t :: 0 <= t < |frames| ==> AllLines(frames[t])
    ensures AllLines(Texts(s.writes))
  {
    forall i | 0 <= i < |s.writes|
      ensures IsLine(s.writes[i].line)
    {
      var k := PlaceOfWrite(s, frames, i);
    }
  }

  lemma {:induction false} LinesAreCommitted(s: State, frames: seq<seq<seq<Byte>>>)
    requires Inv(s, frames) && forall t :: 0 <= t < |frames| ==> AllLines(frames[t])
    ensures AllLines(Texts(s.writes)) && s.log == Log(Texts(s.writes), [])
  {
    WritesAreLines(s, frames);
    WritesAreCommitsIffLines(Texts(s.writes));
  }

  /** The committed history is an order-preserving merge of what the clients sent, for every schedule: the writes
      of each thread are its frames in order, with nothing added, lost or repeated; and when every client sends
      complete lines, the commits are exactly those writes, none split and none joined. */
  lemma {:induction false} OrderPreservingMerge(frames: seq<seq<seq<Byte>>>, acts: seq<Action>)
    ensures var s := Exec(Init(frames), acts);
            && |s.threads| == |frames|
            && (forall t :: 0 <= t < |frames| ==> By(s.writes, t) + s.threads[t].todo == frames[t])
            && (forall t :: 0 <= t < |frames| && s.threads[t].pc.Done? ==> By(s.writes, t) == frames[t])
            && s.log == WriteAll(EMPTY_LOG, Texts(s.writes))
            && (s.log.committed == Texts(s.writes) <==> AllLines(Texts(s.writes)))
            && ((forall t :: 0 <= t < |frames| ==> AllLines(frames[t])) ==> s.log == Log(Texts(s.writes), []))
  {
    RunKeepsInv(frames, acts);
    var s := Exec(Init(frames), acts);
    forall t | 0 <= t < |frames|
      ensures By(s.writes, t) + s.threads[t].todo == frames[t]
      ensures s.threads[t].pc.Done? ==> By(s.writes, t) == frames[t]
    {
      assert ThreadOk(s.writes, s.log, t, s.threads[t], frames[t]);
    }
    WritesAreCommitsIffLines(Texts(s.writes));
    if forall t :: 0 <= t < |frames| ==> AllLines(frames[t]) {
      WritesAreLines(s, frames);
    }
  }

  predicate SendsShortLines(input: seq<ReadEvent>) {
    && NoFailure(input) && Unfinished(Payload(input)) == []
    && AllShort(Lines(Payload(input)), 65535)
  }

  /** What the threads of several clients read from their sockets. */
  function FramesOf(inputs: seq<seq<ReadEvent>>): seq<seq<seq<Byte>>> {
    seq(|inputs|, t requires 0 <= t < |inputs| => Frames(inputs[t], CONNECTION_BUFFER_SIZE))
  }

  /** From sockets to device, for every set of streams and every run: the commits and the pending bytes are the newline
      split of the written frames put together; no frame is cut. */
  lemma {:induction false} CommitsOfAnyStreams(inputs: seq<seq<ReadEvent>>, acts: seq<Action>)
    ensures var s := Exec(Init(FramesOf(inputs)), acts);
            var stream := Flatten(Texts(s.writes));
            s.log == Log(Lines(stream), Unfinished(stream))
  {
    var frames := FramesOf(inputs);
    RunKeepsInv(frames, acts);
    var s := Exec(Init(frames), acts);
    forall i | 0 <= i < |s.writes|
      ensures KeptWhole(s.writes[i].line)
    {
      var t := s.writes[i].who;
      var k := PlaceOfWrite(s, frames, i);
      FramesHaveOneNewline(inputs[t], CONNECTION_BUFFER_SIZE);
    }
    NothingDroppedIff(Texts(s.writes));
    WriteHistory(Texts(s.writes));
  }

  /** When every client sends complete lines of at most 65535 bytes, the commits of every run are an order-preserving merge
      of the lines of the clients' streams, each line whole. */
  lemma {:induction false} ClientLinesMerge(inputs: seq<seq<ReadEvent>>, acts: seq<Action>)
    requires forall t :: 0 <= t < |inputs| ==> SendsShortLines(inputs[t])
    ensures var s := Exec(Init(FramesOf(inputs)), acts);
            && |s.threads| == |inputs|
            && s.log == Log(Texts(s.writes), [])
            && forall t :: 0 <= t < |inputs| ==> By(s.writes, t) + s.threads[t].todo == Lines(Payload(inputs[t]))
  {
    var frames := FramesOf(inputs);
    forall t | 0 <= t < |inputs|
      ensures frames[t] == Lines(Payload(inputs[t])) && AllLines(frames[t])
    {
      assert SendsShortLines(inputs[t]);
      FramesAreLinesIff(inputs[t]);
    }
    OrderPreservingMerge(frames, acts);
  }

  // ----- replies

  /** Each reply, in every run: it answers the thread's frame of the same number, and its blocks are the whole content of
      the device at one moment, after that frame was written and before the thread's next one was. Unless an error was sent
      as a byte count, these blocks are all that was sent. */
  lemma {:induction false} ReplyIsSnapshot(frames: seq<seq<seq<Byte>>>, acts: seq<Action>, t: nat, k: nat)
    requires t < |frames| == |Exec(Init(frames), acts).threads|
    requires k < |Exec(Init(frames), acts).threads[t].replies|
    ensures var s := Exec(Init(frames), acts);
            var r := s.threads[t].replies[k];
            && k < |frames[t]| && r.mine < r.snap <= |s.writes|
            && s.writes[r.mine] == Written(t, frames[t][k])
            && DeviceBytes(r.parts) == Content(WriteAll(EMPTY_LOG, Texts(s.writes[..r.snap])).committed)
            && (NoJunk(r.parts) ==> Wire(r.parts) == DeviceBytes(r.parts))
            && (forall j :: k < j < |s.threads[t].replies| ==> r.snap <= s.threads[t].replies[j].mine)
  {
    RunKeepsInv(frames, acts);
    var s := Exec(Init(frames), acts);
    assert ThreadOk(s.writes, s.log, t, s.threads[t], frames[t]);
    var r := s.threads[t].replies[k];
    assert ReplyOk(s.writes, t, k, r);
    ByIndex(s.writes, r.mine);
    if NoJunk(r.parts) {
      WireWithoutJunk(r.parts);
    }
  }

  /** With clients that send complete lines: a reply holds the last ten lines of the history at its moment. The
      client's own line is one of them exactly when at most nine lines were committed in between; otherwise the
      reply starts after it. */
  lemma {:induction false} ReplyHoldsOwnLine(frames: seq<seq<seq<Byte>>>, acts: seq<Action>, t: nat, k: nat)
    requires t < |frames| == |Exec(Init(frames), acts).threads|
    requires k < |Exec(Init(frames), acts).threads[t].replies|
    requires forall u :: 0 <= u < |frames| ==> AllLines(frames[u])
    ensures var s := Exec(Init(frames), acts);
            var r, lines := s.threads[t].replies[k], s.log.committed;
            && k < |frames[t]| && r.mine < r.snap <= |lines| && lines[r.mine] == frames[t][k]
            && DeviceBytes(r.parts) == Flatten(lines[Start(r.snap)..r.snap])
            && (if r.snap - r.mine - 1 <= 9
                then Start(r.snap) <= r.mine &&
                     DeviceBytes(r.parts) == Flatten(lines[Start(r.snap)..r.mine]) + frames[t][k] + Flatten(lines[r.mine + 1..r.snap])
                else r.mine < Start(r.snap))
  {
    RunKeepsInv(frames, acts);
    ReplyIsSnapshot(frames, acts, t, k);
    var s := Exec(Init(frames), acts);
    var r, lines := s.threads[t].replies[k], Texts(s.writes);
    LinesAreCommitted(s, frames);
    assert Texts(s.writes[..r.snap]) == lines[..r.snap];
    SnapshotOfLines(lines, r.mine, r.snap);
  }

  /** The content after the first `snap` of a sequence of lines, seen from line `mine`. */
  lemma {:induction false} SnapshotOfLines(lines: seq<seq<Byte>>, mine: nat, snap: nat)
    requires AllLines(lines) && mine < snap <= |lines|
    ensures var content := Content(WriteAll(EMPTY_LOG, lines[..snap]).committed);
            && content == Flatten(lines[Start(snap)..snap])
            && (Start(snap) <= mine <==> snap - mine - 1 <= 9)
            && (Start(snap) <= mine ==>
                  content == Flatten(lines[Start(snap)..mine]) + lines[mine] + Flatten(lines[mine + 1..snap]))
  {
    WritesAreCommitsIffLines(lines[..snap]);
    WindowOfPrefix(lines, snap);
    if Start(snap) <= mine {
      FlattenSlice(lines, Start(snap), mine, snap);
    }
  }

  lemma {:induction false} WindowOfPrefix(lines: seq<seq<Byte>>, snap: nat)
    requires snap <= |lines|
    ensures Window(lines[..snap]) == lines[Start(snap)..snap]
  {
  }

  lemma {:induction false} FlattenSlice(ss: seq<seq<Byte>>, lo: nat, i: nat, hi: nat)
    requires lo <= i < hi <= |ss|
    ensures Flatten(ss[lo..hi]) == Flatten(ss[lo..i]) + ss[i] + Flatten(ss[i + 1..hi])
  {
    FlattenAround(ss[lo..hi], i - lo);
    assert ss[lo..hi][..i - lo] == ss[lo..i];
    assert ss[lo..hi][i - lo + 1..] == ss[i + 1..hi];
  }

  lemma {:induction false} FlattenAround(ss: seq<seq<Byte>>, i: nat)
    requires i < |ss|
    ensures Flatten(ss) == Flatten(ss[..i]) + ss[i] + Flatten(ss[i + 1..])
  {
    assert ss == ss[..i] + ss[i..];
    FlattenAppend(ss[..i], ss[i..]);
    assert ss[i..] == [ss[i]] + ss[i + 1..];
    FlattenCons(ss[i], ss[i + 1..]);
  }

  // ----- failures in a read-back

  lemma {:induction false} WireSnoc(ps: seq<Delivery>, p: Delivery)
    ensures Wire(ps + [p]) == Wire(ps) + p.bytes
  {
    assert (ps + [p])[..|ps|] == ps;
  }

  /** A send that succeeds puts its bytes on the wire, be they a block of the device or whatever memory held; only the thread
      that sends is concerned. */
  lemma {:induction false} SendsGoOut(s: State, a: Action)
    requires Enabled(s, a) && (a.SendJunk? || (a.Go? && s.threads[a.t].pc == Sending))
    ensures var th, s' := s.threads[a.t], Apply(s, a);
            && Wire(s'.threads[a.t].out) == Wire(th.out) + (if a.SendJunk? then a.junk else th.chunk)
            && DeviceBytes(s'.threads[a.t].out) == DeviceBytes(th.out) + (if a.SendJunk? then [] else th.chunk)
            && s' == s.(threads := s.threads[a.t := s'.threads[a.t]])
  {
    var th := s.threads[a.t];
    var p := if a.SendJunk? then Junk(a.junk) else FromDevice(th.chunk);
    WireSnoc(th.out, p);
    DeviceBytesSnoc(th.out, p);
  }

  lemma {:induction false} FailedStep(s: State, a: Action, frames: seq<seq<seq<Byte>>>, t: nat)
    requires Inv(s, frames) && Enabled(s, a) && t < |s.threads| && s.threads[t].failed
    ensures var th, th' := s.threads[t], Apply(s, a).threads[t]; th'.failed && th'.sent == th.sent && th'.replies == th.replies
  {
    assert ThreadOk(s.writes, s.log, t, s.threads[t], frames[t]);
  }

  /** A thread whose read-back has failed writes no further line and gives no further reply, whatever comes after. */
  lemma {:induction false} FailedForGood(s: State, frames: seq<seq<seq<Byte>>>, t: nat, acts: seq<Action>)
    requires Inv(s, frames) && t < |s.threads| && s.threads[t].failed
    ensures var s' := Exec(s, acts);
            && Inv(s', frames) && s'.threads[t].failed
            && s'.threads[t].sent == s.threads[t].sent && s'.threads[t].replies == s.threads[t].replies
  {
    if acts != [] {
      var front, a := acts[..|acts| - 1], acts[|acts| - 1];
      FailedForGood(s, frames, t, front);
      var before := Exec(s, front);
      if Enabled(before, a) {
        StepKeepsInv(before, a, frames);
        FailedStep(before, a, frames, t);
      }
    }
  }

  /** After a failed open or send, be it of a block or of junk, the thread writes no further line and gives no further reply:
      the line in hand stays its last, and unanswered. */
  lemma {:induction false} FailureEndsService(s: State, frames: seq<seq<seq<Byte>>>, a: Action, acts: seq<Action>)
    requires Inv(s, frames) && Enabled(s, a) && (a.FailOpen? || a.FailSend?)
    ensures a.t < |Exec(Apply(s, a), acts).threads|
    ensures var th, th' := s.threads[a.t], Exec(Apply(s, a), acts).threads[a.t];
            th'.sent == th.sent && th'.replies == th.replies && |th'.replies| == |th'.sent| - 1
  {
    StepKeepsInv(s, a, frames);
    FailedForGood(Apply(s, a), frames, a.t, acts);
    assert ThreadOk(s.writes, s.log, a.t, s.threads[a.t], frames[a.t]);
  }
}
