/** The server's connection threads as a transition system: any number of threads, the server's file mutex
    around the driver's device lock, and every interleaving of their steps. */
module Protocol {
  import opened Bytes
  import opened DeviceSpec
  import opened Connection

  /** Where a connection thread stands. "Wait" is before a lock call, "Unlock" before an unlock call. */
  datatype Pc =
    | Framing | WaitFileW | WaitDevW | Writing | UnlockDevW | UnlockFileW
    | WaitFileR | WaitDevR | Reading | UnlockDevR | Sending | UnlockFileR
    | SendingJunk   // a failed read is taken for a byte count and handed to send
    | Done          // the stream is exhausted
    | Aborted       // left the loop for another reason
    | Stuck         // a failed write kept the file mutex; the read-back now waits for it

  /** A line that reached the device, and the thread that wrote it. */
  datatype Written = Written(who: nat, line: seq<Byte>)

  /** What one send delivers: a block that was read from the device, or whatever memory holds. */
  datatype Delivery = FromDevice(bytes: seq<Byte>) | Junk(bytes: seq<Byte>)

  /** A finished read-back: the index of the thread's own write, how many writes the device had seen when the
      read-back locked the file mutex, and what was sent. */
  datatype Reply = Reply(mine: nat, snap: nat, parts: seq<Delivery>)

  /** `todo` and `sent` are the frames still to come and those written; `failed` is operation_failed; the rest belongs to
      the line in hand, `out` being what its read-back has delivered. */
  datatype Thread = Thread(pc: Pc, todo: seq<seq<Byte>>, sent: seq<seq<Byte>>, mine: nat, snap: nat,
                           fpos: nat, chunk: seq<Byte>, out: seq<Delivery>, replies: seq<Reply>, failed: bool)

  datatype State = State(threads: seq<Thread>, file: Option<nat>, dev: Option<nat>, log: Log, writes: seq<Written>)

  /** The next step of a thread; its leaving the loop early, for a read error or a signal; the failure of its write,
      before or after the driver got the device lock; in its read-back, the failure of the open, of a read or of a send;
      and a send with an error for its byte count, which delivers `junk`. */
  datatype Action =
    | Go(t: nat) | Leave(t: nat) | FailWrite(t: nat) | FailOpen(t: nat) | FailRead(t: nat) | FailSend(t: nat)
    | SendJunk(t: nat, junk: seq<Byte>)

  /** The blocks of the device in what was sent. */
  function DeviceBytes(ps: seq<Delivery>): seq<Byte> {
    if ps == [] then []
    else DeviceBytes(ps[..|ps| - 1]) + if ps[|ps| - 1].FromDevice? then ps[|ps| - 1].bytes else []
  }

  /** Everything that was sent. */
  function Wire(ps: seq<Delivery>): seq<Byte> {
    if ps == [] then [] else Wire(ps[..|ps| - 1]) + ps[|ps| - 1].bytes
  }

  predicate NoJunk(ps: seq<Delivery>) {
    forall i :: 0 <= i < |ps| ==> ps[i].FromDevice?
  }

  lemma {:induction false} DeviceBytesSnoc(ps: seq<Delivery>, p: Delivery)
    ensures DeviceBytes(ps + [p]) == DeviceBytes(ps) + if p.FromDevice? then p.bytes else []
  {
    assert (ps + [p])[..|ps|] == ps;
  }

  lemma {:induction false} WireWithoutJunk(ps: seq<Delivery>)
    requires NoJunk(ps)
    ensures Wire(ps) == DeviceBytes(ps)
  {
    if ps != [] {
      WireWithoutJunk(ps[..|ps| - 1]);
    }
  }

  predicate HoldsFile(pc: Pc) {
    match pc
    case WaitDevW | Writing | UnlockDevW | UnlockFileW | Stuck => true
    case WaitDevR | Reading | UnlockDevR | Sending | SendingJunk | UnlockFileR => true
    case _ => false
  }

  predicate HoldsDev(pc: Pc) {
    pc.Writing? || pc.UnlockDevW? || pc.Reading? || pc.UnlockDevR?
  }

  function Newcomer(frames: seq<seq<Byte>>): Thread {
    Thread(Framing, frames, [], 0, 0, 0, [], [], [], false)
  }

  function Init(frames: seq<seq<seq<Byte>>>): State {
    State(seq(|frames|, i requires 0 <= i < |frames| => Newcomer(frames[i])), None, None, EMPTY_LOG, [])
  }

  predicate Enabled(s: State, a: Action) {
    && a.t < |s.threads|
    && var th, pc := s.threads[a.t], s.threads[a.t].pc;
       match a
       case Leave(_) => pc == Framing
       case FailWrite(_) => pc == WaitDevW || pc == Writing
       case FailOpen(_) => pc == WaitDevR && th.out == [] && !th.failed
       case FailRead(_) => pc == WaitDevR || (pc == Reading && th.fpos < |Content(s.log.committed)|)
       case FailSend(_) => pc == Sending || pc == SendingJunk
       case SendJunk(_, _) => pc == SendingJunk
       case Go(_) =>
         match pc
         case WaitFileW | WaitFileR | Stuck => s.file == None
         case WaitDevW | WaitDevR => s.dev == None
         case Done | Aborted | SendingJunk => false
         case _ => true
  }

  /** One step of thread `t`, on the thread alone. */
  function Advance(s: State, th: Thread): Thread {
    match th.pc
    case Framing => th.(pc := if th.todo == [] then Done else if th.failed then Aborted else WaitFileW)
    case WaitFileW => th.(pc := WaitDevW)
    case WaitDevW => th.(pc := Writing)
    case Writing =>
      if th.todo == [] then th
      else th.(pc := UnlockDevW, todo := th.todo[1..], sent := th.sent + [th.todo[0]], mine := |s.writes|)
    case UnlockDevW => th.(pc := UnlockFileW)
    case UnlockFileW => th.(pc := WaitFileR)
    case WaitFileR | Stuck => th.(pc := WaitDevR, snap := |s.writes|, fpos := 0, out := [])
    case WaitDevR => th.(pc := Reading)
    case Reading =>
      var chunk := ReadChunk(Window(s.log.committed), th.fpos, READ_BACK_SIZE);
      th.(pc := UnlockDevR, chunk := chunk, fpos := th.fpos + |chunk|)
    case UnlockDevR => th.(pc := if th.chunk == [] || th.failed then UnlockFileR else Sending)
    case Sending => th.(pc := WaitDevR, out := th.out + [FromDevice(th.chunk)])
    case UnlockFileR =>
      th.(pc := Framing, replies := th.replies + if th.failed then [] else [Reply(th.mine, th.snap, th.out)])
    case Done | Aborted | SendingJunk => th
  }

  /** The effect of an action on its thread. */
  function Step(s: State, a: Action, th: Thread): Thread {
    match a
    case Go(_) => Advance(s, th)
    case Leave(_) => th.(pc := Aborted)
    case FailWrite(_) => th.(pc := Stuck)
    case FailOpen(_) => th.(pc := UnlockFileR, failed := true)
    case FailRead(_) => th.(pc := if th.failed then UnlockFileR else SendingJunk)
    case FailSend(_) => th.(pc := WaitDevR, failed := true)
    case SendJunk(_, junk) => th.(pc := WaitDevR, out := th.out + [Junk(junk)])
  }

  function FileAfter(s: State, a: Action, pc: Pc): Option<nat> {
    if !a.Go? then s.file
    else match pc
      case WaitFileW | WaitFileR | Stuck => Some(a.t)
      case UnlockFileW | UnlockFileR => None
      case _ => s.file
  }

  /** A failing call of the driver gives the device lock back. */
  function DevAfter(s: State, a: Action, pc: Pc): Option<nat> {
    match a
    case Go(_) =>
      (match pc
       case WaitDevW | WaitDevR => Some(a.t)
       case UnlockDevW | UnlockDevR => None
       case _ => s.dev)
    case FailWrite(_) => if pc.Writing? then None else s.dev
    case FailRead(_) => if pc.Reading? then None else s.dev
    case _ => s.dev
  }

  /** The action is the write of a line. */
  predicate IsWrite(a: Action, th: Thread) {
    a.Go? && th.pc.Writing? && th.todo != []
  }

  function Apply(s: State, a: Action): State
    requires Enabled(s, a)
  {
    var th := s.threads[a.t];
    var moved := s.(threads := s.threads[a.t := Step(s, a, th)], file := FileAfter(s, a, th.pc), dev := DevAfter(s, a, th.pc));
    if IsWrite(a, th)
    then moved.(log := DeviceSpec.Write(s.log, th.todo[0]), writes := s.writes + [Written(a.t, th.todo[0])])
    else moved
  }

  /** A schedule; an action that is not enabled when its turn comes does nothing. */
  function Exec(s: State, acts: seq<Action>): State {
    if acts == [] then s
    else
      var before, a := Exec(s, acts[..|acts| - 1]), acts[|acts| - 1];
      if Enabled(before, a) then Apply(before, a) else before
  }

  // ----- what the write sequence says

  function By(writes: seq<Written>, t: nat): seq<seq<Byte>> {
    if writes == [] then []
    else
      var w := writes[|writes| - 1];
      By(writes[..|writes| - 1], t) + if w.who == t then [w.line] else []
  }

  function Texts(writes: seq<Written>): seq<seq<Byte>> {
    seq(|writes|, i requires 0 <= i < |writes| => writes[i].line)
  }

  /** The device's log after a sequence of writes. */
  function LogOf(writes: seq<Written>): Log {
    WriteAll(EMPTY_LOG, Texts(writes))
  }

  lemma {:induction false} ByAppend(writes: seq<Written>, w: Written, t: nat)
    ensures By(writes + [w], t) == By(writes, t) + if w.who == t then [w.line] else []
  {
    assert (writes + [w])[..|writes|] == writes;
  }

  lemma {:induction false} LogAppend(writes: seq<Written>, w: Written)
    ensures LogOf(writes + [w]) == DeviceSpec.Write(LogOf(writes), w.line)
  {
    assert Texts(writes + [w]) == Texts(writes) + [w.line];
    WriteAllSnoc(EMPTY_LOG, Texts(writes), w.line);
  }

  // ----- the invariant

  predicate AfterWrite(pc: Pc) {
    match pc
    case UnlockDevW | UnlockFileW | WaitFileR | WaitDevR | Reading | UnlockDevR | Sending | SendingJunk | UnlockFileR => true
    case _ => false
  }

  predicate Draining(pc: Pc) {
    pc.WaitDevR? || pc.Reading? || pc.UnlockDevR? || pc.Sending? || pc.SendingJunk? || pc.UnlockFileR?
  }

  /** Write number `mine` is the `k`-th of thread `t`. */
  predicate IsWriteOf(writes: seq<Written>, t: nat, k: nat, mine: nat) {
    mine < |writes| && writes[mine].who == t && |By(writes[..mine], t)| == k
  }

  /** The `k`-th reply of thread `t`: its blocks are one snapshot of the device, taken after the thread's own `k`-th
      write. */
  predicate ReplyOk(writes: seq<Written>, t: nat, k: nat, r: Reply) {
    && IsWriteOf(writes, t, k, r.mine)
    && r.mine < r.snap <= |writes|
    && DeviceBytes(r.parts) == Content(LogOf(writes[..r.snap]).committed)
  }

  /** Each reply is right, and its snapshot was taken before the later writes of the thread. */
  predicate RepliesOk(writes: seq<Written>, t: nat, replies: seq<Reply>) {
    && (forall k :: 0 <= k < |replies| ==> ReplyOk(writes, t, k, replies[k]))
    && (forall j, k :: 0 <= j < k < |replies| ==> replies[j].snap <= replies[k].mine)
  }

  predicate RepliesBefore(replies: seq<Reply>, mine: nat) {
    forall j :: 0 <= j < |replies| ==> replies[j].snap <= mine
  }

  /** A read-back under way: it reads one snapshot, and the blocks it has delivered are the front of it. */
  predicate DrainOk(writes: seq<Written>, log: Log, th: Thread, delivered: seq<Byte>) {
    var content := Content(log.committed);
    && th.snap == |writes| && th.mine < th.snap && th.fpos <= |content|
    && (th.pc.Sending? ==> th.chunk != [])
    && if th.failed then delivered <= content
       else && (if th.pc.UnlockDevR? || th.pc.Sending? then delivered + th.chunk else delivered) == content[..th.fpos]
            && (th.pc.UnlockFileR? || (th.pc.UnlockDevR? && th.chunk == []) ==> th.fpos == |content|)
  }

  /** Where a thread can be once its read-back has failed. */
  predicate FailedOk(pc: Pc) {
    match pc
    case WaitDevR | Reading | UnlockDevR | UnlockFileR | Framing | Done | Aborted => true
    case _ => false
  }

  predicate LocksOk(s: State, t: nat, pc: Pc) {
    (HoldsFile(pc) <==> s.file == Some(t)) && (HoldsDev(pc) <==> s.dev == Some(t))
  }

  /** What has become of the frames of thread `t`: those it wrote, those to come, and a reply to each that it wrote, but
      for the one in hand and one whose read-back failed. */
  predicate AccountOk(writes: seq<Written>, t: nat, frames: seq<seq<Byte>>, sent: seq<seq<Byte>>, todo: seq<seq<Byte>>,
                      replies: seq<Reply>, mine: nat, inHand: bool, failed: bool) {
    && sent == By(writes, t) && sent + todo == frames
    && |replies| == |sent| - (if inHand || failed then 1 else 0)
    && (inHand ==> IsWriteOf(writes, t, |sent| - 1, mine) && RepliesBefore(replies, mine))
    && RepliesOk(writes, t, replies)
  }

  predicate PlaceOk(pc: Pc, todo: seq<seq<Byte>>, failed: bool) {
    && (pc.WaitFileW? || pc.WaitDevW? || pc.Writing? ==> todo != [])
    && (pc.Done? ==> todo == [])
    && (failed ==> FailedOk(pc))
  }

  predicate ThreadOk(writes: seq<Written>, log: Log, t: nat, th: Thread, frames: seq<seq<Byte>>) {
    && AccountOk(writes, t, frames, th.sent, th.todo, th.replies, th.mine, AfterWrite(th.pc), th.failed)
    && PlaceOk(th.pc, th.todo, th.failed)
    && (Draining(th.pc) ==> DrainOk(writes, log, th, DeviceBytes(th.out)))
  }

  ghost predicate Inv(s: State, frames: seq<seq<seq<Byte>>>) {
    && |s.threads| == |frames|
    && (s.file.Some? ==> s.file.value < |s.threads|) && (s.dev.Some? ==> s.dev.value < |s.threads|)
    && s.log == LogOf(s.writes)
    && (forall i :: 0 <= i < |s.writes| ==> s.writes[i].who < |s.threads|)
    && (forall t :: 0 <= t < |s.threads| ==> LocksOk(s, t, s.threads[t].pc))
    && (forall t :: 0 <= t < |s.threads| ==> ThreadOk(s.writes, s.log, t, s.threads[t], frames[t]))
  }

  // ----- every step keeps it

  lemma {:induction false} RepliesAppend(writes: seq<Written>, t: nat, replies: seq<Reply>, w: Written)
    requires RepliesOk(writes, t, replies)
    ensures RepliesOk(writes + [w], t, replies)
  {
    forall k | 0 <= k < |replies|
      ensures ReplyOk(writes + [w], t, k, replies[k])
    {
      var r := replies[k];
      assert ReplyOk(writes, t, k, r);
      assert (writes + [w])[..r.mine] == writes[..r.mine];
      assert (writes + [w])[..r.snap] == writes[..r.snap];
    }
  }

  /** A write by one thread leaves every other thread that is not reading back as it was. */
  lemma {:induction false} OthersAfterWrite(writes: seq<Written>, log: Log, t: nat, th: Thread, frames: seq<seq<Byte>>,
                                            w: Written, log': Log)
    requires ThreadOk(writes, log, t, th, frames) && w.who != t && !Draining(th.pc)
    ensures ThreadOk(writes + [w], log', t, th, frames)
  {
    ByAppend(writes, w, t);
    RepliesAppend(writes, t, th.replies, w);
    if AfterWrite(th.pc) {
      assert (writes + [w])[..th.mine] == writes[..th.mine];
    }
  }

  lemma {:induction false} NewestWrite(writes: seq<Written>, t: nat, line: seq<Byte>)
    ensures IsWriteOf(writes + [Written(t, line)], t, |By(writes, t)|, |writes|)
  {
    assert (writes + [Written(t, line)])[..|writes|] == writes;
  }

  lemma {:induction false} RepliesAreBefore(writes: seq<Written>, t: nat, replies: seq<Reply>)
    requires RepliesOk(writes, t, replies)
    ensures RepliesBefore(replies, |writes|)
  {
    forall j | 0 <= j < |replies|
      ensures replies[j].snap <= |writes|
    {
      assert ReplyOk(writes, t, j, replies[j]);
    }
  }

  lemma {:induction false} AccountAfterWrite(writes: seq<Written>, t: nat, frames: seq<seq<Byte>>, sent: seq<seq<Byte>>,
                                             todo: seq<seq<Byte>>, replies: seq<Reply>, mine: nat)
    requires AccountOk(writes, t, frames, sent, todo, replies, mine, false, false) && todo != []
    ensures AccountOk(writes + [Written(t, todo[0])], t, frames, sent + [todo[0]], todo[1..], replies, |writes|, true, false)
  {
    ByAppend(writes, Written(t, todo[0]), t);
    RepliesAppend(writes, t, replies, Written(t, todo[0]));
    NewestWrite(writes, t, todo[0]);
    RepliesAreBefore(writes, t, replies);
    assert sent + todo == sent + [todo[0]] + todo[1..];
  }

  lemma {:induction false} OwnWrite(s: State, t: nat, th: Thread, frames: seq<seq<Byte>>)
    requires ThreadOk(s.writes, s.log, t, th, frames) && th.pc == Writing
    ensures var w := Written(t, th.todo[0]);
            ThreadOk(s.writes + [w], DeviceSpec.Write(s.log, w.line), t, Advance(s, th), frames)
  {
    assert !th.failed && th.todo != [];
    AccountAfterWrite(s.writes, t, frames, th.sent, th.todo, th.replies, th.mine);
    var th' := Advance(s, th);
    assert th'.sent == th.sent + [th.todo[0]] && th'.todo == th.todo[1..] && th'.mine == |s.writes|;
    assert th'.replies == th.replies && th'.pc == UnlockDevW && !th'.failed;
  }

  lemma {:induction false} DrainRead(s: State, th: Thread, delivered: seq<Byte>)
    requires DrainOk(s.writes, s.log, th, delivered) && th.pc == Reading
    ensures DrainOk(s.writes, s.log, Advance(s, th), delivered)
  {
    ChunkExtends(s.log.committed, th.fpos);
  }

  lemma {:induction false} OwnRead(s: State, t: nat, th: Thread, frames: seq<seq<Byte>>)
    requires ThreadOk(s.writes, s.log, t, th, frames) && th.pc == Reading
    ensures ThreadOk(s.writes, s.log, t, Advance(s, th), frames)
  {
    DrainRead(s, th, DeviceBytes(th.out));
    var th' := Advance(s, th);
    assert th'.sent == th.sent && th'.todo == th.todo && th'.replies == th.replies && th'.mine == th.mine;
    assert th'.pc == UnlockDevR && th'.out == th.out && th'.failed == th.failed;
  }

  lemma {:induction false} DrainSend(writes: seq<Written>, log: Log, th: Thread, th': Thread, delivered: seq<Byte>)
    requires DrainOk(writes, log, th, delivered) && th.pc == Sending && !th.failed
    requires th' == th.(pc := WaitDevR, out := th'.out)
    ensures DrainOk(writes, log, th', delivered + th.chunk)
  {
  }

  lemma {:induction false} OwnSend(s: State, t: nat, th: Thread, frames: seq<seq<Byte>>)
    requires ThreadOk(s.writes, s.log, t, th, frames) && th.pc == Sending
    ensures ThreadOk(s.writes, s.log, t, Advance(s, th), frames)
  {
    DeviceBytesSnoc(th.out, FromDevice(th.chunk));
    DrainSend(s.writes, s.log, th, Advance(s, th), DeviceBytes(th.out));
  }

  lemma {:induction false} OwnReply(s: State, t: nat, th: Thread, frames: seq<seq<Byte>>)
    requires ThreadOk(s.writes, s.log, t, th, frames) && th.pc == UnlockFileR && s.log == LogOf(s.writes)
    ensures ThreadOk(s.writes, s.log, t, Advance(s, th), frames)
  {
    assert s.writes[..th.snap] == s.writes;
    if !th.failed {
      assert DeviceBytes(th.out) == Content(s.log.committed);
      assert ReplyOk(s.writes, t, |th.replies|, Reply(th.mine, th.snap, th.out));
    }
  }

  /** Taking and giving back the device lock within a read-back. */
  lemma {:induction false} OwnLock(s: State, t: nat, th: Thread, frames: seq<seq<Byte>>)
    requires ThreadOk(s.writes, s.log, t, th, frames) && (th.pc.WaitDevR? || th.pc.UnlockDevR?)
    ensures ThreadOk(s.writes, s.log, t, Advance(s, th), frames)
  {
  }

  /** The steps outside a read-back that only move a thread on, up to the one that begins a read-back. */
  lemma {:induction false} OwnOther(s: State, t: nat, th: Thread, frames: seq<seq<Byte>>)
    requires ThreadOk(s.writes, s.log, t, th, frames) && !th.pc.Writing? && !Draining(th.pc) && !th.pc.Stuck?
    ensures ThreadOk(s.writes, s.log, t, Advance(s, th), frames)
  {
    var th' := Advance(s, th);
    assert AfterWrite(th'.pc) == AfterWrite(th.pc);
  }

  /** Failures inside a read-back keep what is promised of the thread: its earlier replies, and a front of the snapshot. */
  lemma {:induction false} OwnFailure(s: State, a: Action, th: Thread, frames: seq<seq<Byte>>)
    requires ThreadOk(s.writes, s.log, a.t, th, frames) && Enabled(s, a) && s.threads[a.t] == th && !a.Go?
    ensures ThreadOk(s.writes, s.log, a.t, Step(s, a, th), frames)
  {
    if a.SendJunk? {
      DeviceBytesSnoc(th.out, Junk(a.junk));
    }
  }

  /** Every step of a thread but the write of a line keeps what is promised of it. */
  lemma {:induction false} OwnStep(s: State, a: Action, th: Thread, frames: seq<seq<Byte>>)
    requires ThreadOk(s.writes, s.log, a.t, th, frames) && Enabled(s, a) && s.threads[a.t] == th && !IsWrite(a, th)
    requires s.log == LogOf(s.writes) && LocksOk(s, a.t, th.pc)
    ensures ThreadOk(s.writes, s.log, a.t, Step(s, a, th), frames)
  {
    if !a.Go? {
      OwnFailure(s, a, th, frames);
    } else if th.pc.Reading? {
      OwnRead(s, a.t, th, frames);
    } else if th.pc.Sending? {
      OwnSend(s, a.t, th, frames);
    } else if th.pc.UnlockFileR? {
      OwnReply(s, a.t, th, frames);
    } else if th.pc.WaitDevR? || th.pc.UnlockDevR? {
      OwnLock(s, a.t, th, frames);
    } else {
      OwnOther(s, a.t, th, frames);
    }
  }

  lemma {:induction false} StepKeepsLocks(s: State, a: Action, u: nat)
    requires Enabled(s, a) && u < |s.threads|
    requires LocksOk(s, a.t, s.threads[a.t].pc) && LocksOk(s, u, s.threads[u].pc)
    requires s.threads[a.t].pc.Writing? ==> s.threads[a.t].todo != []
    ensures LocksOk(Apply(s, a), u, Apply(s, a).threads[u].pc)
  {
  }

  lemma {:induction false} StepKeepsThreads(s: State, a: Action, frames: seq<seq<seq<Byte>>>, u: nat)
    requires Inv(s, frames) && Enabled(s, a) && u < |s.threads|
    ensures var s' := Apply(s, a); ThreadOk(s'.writes, s'.log, u, s'.threads[u], frames[u])
  {
    var t, th := a.t, s.threads[a.t];
    assert LocksOk(s, t, th.pc) && LocksOk(s, u, s.threads[u].pc);
    assert ThreadOk(s.writes, s.log, t, th, frames[t]) && ThreadOk(s.writes, s.log, u, s.threads[u], frames[u]);
    if IsWrite(a, th) {
      if u == t {
        OwnWrite(s, t, th, frames[t]);
      } else {
        OthersAfterWrite(s.writes, s.log, u, s.threads[u], frames[u], Written(t, th.todo[0]),
                         DeviceSpec.Write(s.log, th.todo[0]));
      }
    } else if u == t {
      OwnStep(s, a, th, frames[t]);
    }
  }

  lemma {:induction false} StepKeepsInv(s: State, a: Action, frames: seq<seq<seq<Byte>>>)
    requires Inv(s, frames) && Enabled(s, a)
    ensures Inv(Apply(s, a), frames)
  {
    assert ThreadOk(s.writes, s.log, a.t, s.threads[a.t], frames[a.t]) && LocksOk(s, a.t, s.threads[a.t].pc);
    forall u | 0 <= u < |s.threads|
      ensures LocksOk(Apply(s, a), u, Apply(s, a).threads[u].pc)
    {
      assert LocksOk(s, u, s.threads[u].pc);
      StepKeepsLocks(s, a, u);
    }
    forall u | 0 <= u < |s.threads|
      ensures var s' := Apply(s, a); ThreadOk(s'.writes, s'.log, u, s'.threads[u], frames[u])
    {
      StepKeepsThreads(s, a, frames, u);
    }
    var th := s.threads[a.t];
    if IsWrite(a, th) {
      LogAppend(s.writes, Written(a.t, th.todo[0]));
    }
  }

  /** Every schedule of every set of clients stays inside the invariant. */
  lemma {:induction false} RunKeepsInv(frames: seq<seq<seq<Byte>>>, acts: seq<Action>)
    ensures Inv(Exec(Init(frames), acts), frames)
  {
    if acts != [] {
      RunKeepsInv(frames, acts[..|acts| - 1]);
      var before, a := Exec(Init(frames), acts[..|acts| - 1]), acts[|acts| - 1];
      if Enabled(before, a) {
        StepKeepsInv(before, a, frames);
      }
    }
  }
}
