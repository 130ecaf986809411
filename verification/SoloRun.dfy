/** The transition system and handle_connection agree: one client whose calls all succeed leaves the same log and gets the
    same replies in both. */
module SoloRun {
  import opened Bytes
  import opened DeviceSpec
  import opened LineReader
  import opened Connection
  import opened Protocol
  import opened Progress

  // ----- runs in which nothing fails

  predicate OnlyGo(acts: seq<Action>) {
    forall i :: 0 <= i < |acts| ==> acts[i].Go?
  }

  predicate Smooth(th: Thread) {
    && !th.failed && !th.pc.Aborted? && !th.pc.SendingJunk? && NoJunk(th.out)
    && forall k :: 0 <= k < |th.replies| ==> NoJunk(th.replies[k].parts)
  }

  lemma {:induction false} AdvanceSmooth(s: State, th: Thread)
    requires Smooth(th)
    ensures Smooth(Advance(s, th))
  {
  }

  lemma {:induction false} SmoothRun(frames: seq<seq<seq<Byte>>>, acts: seq<Action>)
    requires OnlyGo(acts)
    ensures forall t :: 0 <= t < |Exec(Init(frames), acts).threads| ==> Smooth(Exec(Init(frames), acts).threads[t])
  {
    if acts != [] {
      var before, a := Exec(Init(frames), acts[..|acts| - 1]), acts[|acts| - 1];
      SmoothRun(frames, acts[..|acts| - 1]);
      if Enabled(before, a) {
        OnlyOneMoves(before, a);
        AdvanceSmooth(before, before.threads[a.t]);
      }
    }
  }

  // ----- one client

  lemma {:induction false} ByOnly(writes: seq<Written>)
    requires forall i :: 0 <= i < |writes| ==> writes[i].who == 0
    ensures By(writes, 0) == Texts(writes)
  {
    if writes != [] {
      ByOnly(writes[..|writes| - 1]);
      assert Texts(writes) == Texts(writes[..|writes| - 1]) + [writes[|writes| - 1].line];
    }
  }

  /** The bytes that a client gets in its replies. */
  function Received(replies: seq<Reply>): seq<seq<Byte>> {
    seq(|replies|, k requires 0 <= k < |replies| => Wire(replies[k].parts))
  }

  /** Reply `k` of a lone client is the content just after its line `k`. */
  lemma {:induction false} SoloReply(writes: seq<Written>, replies: seq<Reply>, k: nat)
    requires RepliesOk(writes, 0, replies) && |replies| == |writes| && k < |replies| && NoJunk(replies[k].parts)
    requires forall i :: 0 <= i < |writes| ==> writes[i].who == 0
    ensures Wire(replies[k].parts) == Content(WriteAll(EMPTY_LOG, Texts(writes)[..k + 1]).committed)
  {
    var r := replies[k];
    assert ReplyOk(writes, 0, k, r);
    ByOnly(writes[..r.mine]);
    assert r.mine == k;
    if k + 1 < |replies| {
      assert ReplyOk(writes, 0, k + 1, replies[k + 1]);
      ByOnly(writes[..replies[k + 1].mine]);
      assert r.snap <= replies[k + 1].mine == k + 1;
    }
    WireWithoutJunk(r.parts);
    assert Texts(writes[..k + 1]) == Texts(writes)[..k + 1];
  }

  /** A run of one client in which nothing fails writes its frames, and answers each with the content just after it. */
  lemma {:induction false} SoloOutcome(frames: seq<seq<Byte>>, acts: seq<Action>)
    requires OnlyGo(acts) && AllFinished(Exec(Init([frames]), acts))
    ensures var s := Exec(Init([frames]), acts);
            && |s.threads| == 1 && s.log == WriteAll(EMPTY_LOG, frames)
            && RepliesAre(Received(s.threads[0].replies), EMPTY_LOG, frames)
  {
    RunKeepsInv([frames], acts);
    SmoothRun([frames], acts);
    var s := Exec(Init([frames]), acts);
    var th := s.threads[0];
    assert ThreadOk(s.writes, s.log, 0, th, [frames][0]) && Smooth(th) && th.pc.Done?;
    ByOnly(s.writes);
    assert th.sent + [] == th.sent && Texts(s.writes) == frames;
    forall k | 0 <= k < |th.replies|
      ensures Received(th.replies)[k] == Content(WriteAll(EMPTY_LOG, frames[..k + 1]).committed)
    {
      SoloReply(s.writes, th.replies, k);
    }
  }

  lemma {:induction false} RepliesDetermined(a: seq<seq<Byte>>, b: seq<seq<Byte>>, l: Log, written: seq<seq<Byte>>)
    requires RepliesAre(a, l, written) && RepliesAre(b, l, written)
    ensures a == b
  {
  }

  /** handle_connection, on an empty device and with nothing failing, does what every such run of the transition system
      does. */
  method SameAsRun(fd: Descriptor, buffer: array<Byte>, fs: Filestore, turns: nat -> Turn, ghost acts: seq<Action>)
    returns (replies: seq<seq<Byte>>)
    requires fs.Valid() && !fs.locked && fs.dev.log == EMPTY_LOG && buffer.Length == CONNECTION_BUFFER_SIZE
    requires AllGood(turns, EMPTY_LOG, Frames(fd.input, CONNECTION_BUFFER_SIZE))
    requires OnlyGo(acts) && AllFinished(Exec(Init([Frames(fd.input, CONNECTION_BUFFER_SIZE)]), acts))
    modifies fd, buffer, fs, fs.dev, fs.dev.buffer, fs.dev.buffer.entry, fs.dev.heap
    ensures var s := Exec(Init([Frames(old(fd.input), CONNECTION_BUFFER_SIZE)]), acts);
            |s.threads| == 1 && fs.dev.log == s.log && replies == Received(s.threads[0].replies)
  {
    ghost var frames := Frames(fd.input, CONNECTION_BUFFER_SIZE);
    SoloOutcome(frames, acts);
    AllServed(turns, 0, EMPTY_LOG, frames);
    ghost var written;
    var stuck, wild;
    written, replies, stuck, wild := HandleConnection(fd, buffer, fs, turns);
    assert written == frames;
    RepliesDetermined(replies, Received(Exec(Init([frames]), acts).threads[0].replies), EMPTY_LOG, frames);
  }
}
