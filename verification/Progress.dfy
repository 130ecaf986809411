/** Progress of the connection threads: exactly when they can finish, and exactly which runs end. */
module Progress {
  import opened Bytes
  import opened DeviceSpec
  import opened Connection
  import opened Protocol

  predicate Finished(pc: Pc) {
    pc.Done? || pc.Aborted?
  }

  predicate AllFinished(s: State) {
    forall t :: 0 <= t < |s.threads| ==> Finished(s.threads[t].pc)
  }

  predicate FinishesAll(s: State, acts: seq<Action>) {
    AllFinished(Exec(s, acts))
  }

  /** No write has failed. */
  predicate NoneStuck(s: State) {
    forall t :: 0 <= t < |s.threads| ==> !s.threads[t].pc.Stuck?
  }

  /** The step is a read that fails and is taken for a byte count. */
  predicate IsWild(s: State, a: Action) {
    Enabled(s, a) && a.FailRead? && !s.threads[a.t].failed
  }

  /** No deadlock: unless every thread has finished, some thread can take a step in which nothing fails. */
  lemma {:induction false} SomeoneCanStep(s: State, frames: seq<seq<seq<Byte>>>) returns (a: Action)
    requires Inv(s, frames) && NoneStuck(s) && !AllFinished(s)
    ensures Enabled(s, a) && (a.Go? || a.SendJunk?)
  {
    var t: nat;
    if s.file.Some? {
      t := s.file.value;
    } else {
      t :| t < |s.threads| && !Finished(s.threads[t].pc);
    }
    assert LocksOk(s, t, s.threads[t].pc);
    if s.dev.Some? {
      assert LocksOk(s, s.dev.value, s.threads[s.dev.value].pc);
    }
    a := if s.threads[t].pc.SendingJunk? then SendJunk(t, []) else Go(t);
  }

  /** Work left for a thread; the whole read-back of a line counts as one phase. */
  function Rank(th: Thread): nat {
    10 * |th.todo| +
    match th.pc
    case Stuck => 0
    case Writing => 1
    case WaitDevW => 2
    case WaitFileW | Done | Aborted => 3
    case Framing => 4
    case UnlockFileR => 5
    case WaitDevR | Reading | UnlockDevR | Sending | SendingJunk => 7
    case WaitFileR => 8
    case UnlockFileW => 9
    case UnlockDevW => 10
  }

  function RankSum(threads: seq<Thread>): nat {
    if threads == [] then 0 else Rank(threads[0]) + RankSum(threads[1..])
  }

  lemma {:induction false} RankSumUpdate(threads: seq<Thread>, t: nat, th: Thread)
    requires t < |threads|
    ensures RankSum(threads[t := th]) == RankSum(threads) - Rank(threads[t]) + Rank(th)
  {
    if t == 0 {
      assert threads[t := th][1..] == threads[1..];
    } else {
      assert threads[t := th][1..] == threads[1..][t - 1 := th];
      RankSumUpdate(threads[1..], t - 1, th);
    }
  }

  /** Work left within a read-back, the content not changing meanwhile. */
  function DrainRank(content: seq<Byte>, th: Thread): int {
    var left := if th.failed then 0 else 4 * (|content| - th.fpos);
    match th.pc
    case WaitDevR => left + 3
    case Reading => left + 2
    case UnlockDevR => if th.chunk == [] || th.failed then 1 else left + 5
    case Sending | SendingJunk => left + 4
    case _ => 0
  }

  function DrainLeft(s: State): int {
    if s.file.Some? && s.file.value < |s.threads|
    then DrainRank(Content(s.log.committed), s.threads[s.file.value]) else 0
  }

  lemma {:induction false} DrainLeftIsNat(s: State, frames: seq<seq<seq<Byte>>>)
    requires Inv(s, frames)
    ensures DrainLeft(s) >= 0
  {
    if s.file.Some? {
      assert ThreadOk(s.writes, s.log, s.file.value, s.threads[s.file.value], frames[s.file.value]);
    }
  }

  predicate UsesUpWork(content: seq<Byte>, th: Thread, th': Thread) {
    Rank(th') < Rank(th) ||
    (Rank(th') == Rank(th) && Draining(th.pc) && Draining(th'.pc) && DrainRank(content, th') < DrainRank(content, th))
  }

  /** The part of a thread's invariant that bounds its work. */
  predicate HasWork(s: State, th: Thread) {
    (th.pc.Writing? ==> th.todo != []) && (Draining(th.pc) ==> th.fpos <= |Content(s.log.committed)|)
  }

  lemma {:induction false} AdvanceUsesUpWork(s: State, th: Thread)
    requires HasWork(s, th) && !Finished(th.pc) && !th.pc.Stuck? && !th.pc.SendingJunk?
    ensures UsesUpWork(Content(s.log.committed), th, Advance(s, th))
  {
    var content, th' := Content(s.log.committed), Advance(s, th);
    if th.pc.Reading? {
      ReadChunkBytes(Window(s.log.committed), th.fpos, READ_BACK_SIZE);
      assert th'.pc == UnlockDevR && th'.fpos == th.fpos + |th'.chunk|;
      assert th'.chunk != [] ==> th'.fpos >= th.fpos + 1;
    }
  }

  lemma {:induction false} FailureUsesUpWork(s: State, a: Action, th: Thread)
    requires HasWork(s, th) && Enabled(s, a) && s.threads[a.t] == th
    requires !a.Go? && !IsWild(s, a)
    ensures UsesUpWork(Content(s.log.committed), th, Step(s, a, th))
  {
  }

  /** Within a read-back a thread keeps the file mutex, and the content stays as it is. */
  lemma {:induction false} DrainStepKeeps(s: State, a: Action)
    requires Enabled(s, a) && LocksOk(s, a.t, s.threads[a.t].pc)
    requires Draining(s.threads[a.t].pc) && Draining(Apply(s, a).threads[a.t].pc)
    ensures Apply(s, a).file == s.file == Some(a.t) && Apply(s, a).log == s.log
  {
  }

  /** Every step but a wild read uses up work: it ends a phase of its thread, or it advances the one read-back under way. */
  lemma {:induction false} StepUsesUpWork(s: State, a: Action, frames: seq<seq<seq<Byte>>>)
    requires Inv(s, frames) && Enabled(s, a) && !IsWild(s, a)
    ensures var s' := Apply(s, a);
            RankSum(s'.threads) < RankSum(s.threads) ||
            (RankSum(s'.threads) == RankSum(s.threads) && DrainLeft(s') < DrainLeft(s))
  {
    var t, th, th' := a.t, s.threads[a.t], Apply(s, a).threads[a.t];
    assert ThreadOk(s.writes, s.log, t, th, frames[t]) && LocksOk(s, t, th.pc);
    OnlyOneMoves(s, a);
    RankSumUpdate(s.threads, t, th');
    if a.Go? {
      AdvanceUsesUpWork(s, th);
      assert th' == Advance(s, th);
    } else {
      FailureUsesUpWork(s, a, th);
    }
    if Rank(th') == Rank(th) {
      DrainStepKeeps(s, a);
    }
  }

  lemma {:induction false} OnlyOneMoves(s: State, a: Action)
    requires Enabled(s, a)
    ensures var s' := Apply(s, a);
            |s'.threads| == |s.threads| && s'.threads == s.threads[a.t := s'.threads[a.t]]
  {
  }

  function Prefix(schedule: nat -> Action, n: nat): seq<Action> {
    if n == 0 then [] else Prefix(schedule, n - 1) + [schedule(n - 1)]
  }

  /** The state after the first `i` actions of an infinite schedule. */
  function StateAt(frames: seq<seq<seq<Byte>>>, schedule: nat -> Action, i: nat): State {
    Exec(Init(frames), Prefix(schedule, i))
  }

  predicate FinishedAt(frames: seq<seq<seq<Byte>>>, schedule: nat -> Action, i: nat) {
    AllFinished(StateAt(frames, schedule, i))
  }

  /** The schedule always picks a step that can be taken, as long as there is one to pick. */
  ghost predicate KeepsGoing(frames: seq<seq<seq<Byte>>>, schedule: nat -> Action) {
    forall i: nat :: FinishedAt(frames, schedule, i) || Enabled(StateAt(frames, schedule, i), schedule(i))
  }

  /** From action `from` on no failed read is taken for a byte count. */
  ghost predicate TameFrom(frames: seq<seq<seq<Byte>>>, schedule: nat -> Action, from: nat) {
    forall i: nat :: i >= from ==> !IsWild(StateAt(frames, schedule, i), schedule(i))
  }

  lemma {:induction false} AtStep(frames: seq<seq<seq<Byte>>>, schedule: nat -> Action, i: nat)
    ensures var s := StateAt(frames, schedule, i);
            StateAt(frames, schedule, i + 1) == if Enabled(s, schedule(i)) then Apply(s, schedule(i)) else s
  {
    var acts := Prefix(schedule, i + 1);
    assert acts[..|acts| - 1] == Prefix(schedule, i);
  }

  /** No infinite run: a schedule that keeps going, without wild reads from some point on, brings every thread to its
      end. */
  lemma {:induction false} TameScheduleFinishes(frames: seq<seq<seq<Byte>>>, schedule: nat -> Action, from: nat) returns (n: nat)
    requires KeepsGoing(frames, schedule) && TameFrom(frames, schedule, from)
    ensures FinishedAt(frames, schedule, n)
    decreases RankSum(StateAt(frames, schedule, from).threads), DrainLeft(StateAt(frames, schedule, from))
  {
    var s := StateAt(frames, schedule, from);
    if FinishedAt(frames, schedule, from) {
      n := from;
    } else {
      RunKeepsInv(frames, Prefix(schedule, from));
      assert Enabled(s, schedule(from)) && !IsWild(s, schedule(from));
      StepUsesUpWork(s, schedule(from), frames);
      AtStep(frames, schedule, from);
      DrainLeftIsNat(s, frames);
      n := TameScheduleFinishes(frames, schedule, from + 1);
    }
  }

  lemma {:induction false} NoStepWhenFinished(s: State, a: Action)
    requires AllFinished(s)
    ensures !Enabled(s, a)
  {
  }

  lemma {:induction false} FinishedStays(frames: seq<seq<seq<Byte>>>, schedule: nat -> Action, n: nat, i: nat)
    requires FinishedAt(frames, schedule, n) && n <= i
    ensures FinishedAt(frames, schedule, i)
  {
    if n < i {
      FinishedStays(frames, schedule, n, i - 1);
      NoStepWhenFinished(StateAt(frames, schedule, i - 1), schedule(i - 1));
      AtStep(frames, schedule, i - 1);
    }
  }

  lemma {:induction false} FinishedIsTame(frames: seq<seq<seq<Byte>>>, schedule: nat -> Action, n: nat)
    requires FinishedAt(frames, schedule, n)
    ensures TameFrom(frames, schedule, n)
  {
    forall i: nat | i >= n
      ensures !IsWild(StateAt(frames, schedule, i), schedule(i))
    {
      FinishedStays(frames, schedule, n, i);
      NoStepWhenFinished(StateAt(frames, schedule, i), schedule(i));
    }
  }

  /** Exactly when a run ends: a schedule that keeps going brings every thread to its end if and only if it has finitely
      many reads that fail and are taken for a byte count. */
  lemma {:induction false} FinishesIffTame(frames: seq<seq<seq<Byte>>>, schedule: nat -> Action)
    requires KeepsGoing(frames, schedule)
    ensures (exists n: nat :: FinishedAt(frames, schedule, n)) <==> (exists from: nat :: TameFrom(frames, schedule, from))
  {
    if from: nat :| TameFrom(frames, schedule, from) {
      var n := TameScheduleFinishes(frames, schedule, from);
    }
    if n: nat :| FinishedAt(frames, schedule, n) {
      FinishedIsTame(frames, schedule, n);
    }
  }

  /** From any safe state without a stuck thread, stepping whoever can step finishes everything. */
  lemma {:induction false} CanFinish(s: State, frames: seq<seq<seq<Byte>>>) returns (acts: seq<Action>)
    requires Inv(s, frames) && NoneStuck(s)
    ensures AllFinished(Exec(s, acts))
    decreases RankSum(s.threads), DrainLeft(s)
  {
    if AllFinished(s) {
      acts := [];
    } else {
      var a := SomeoneCanStep(s, frames);
      StepKeepsInv(s, a, frames);
      StepUsesUpWork(s, a, frames);
      DrainLeftIsNat(s, frames);
      NoneStuckStep(s, a);
      var rest := CanFinish(Apply(s, a), frames);
      acts := [a] + rest;
      ExecCons(s, a, rest);
    }
  }

  lemma {:induction false} NoneStuckStep(s: State, a: Action)
    requires NoneStuck(s) && Enabled(s, a) && !a.FailWrite?
    ensures NoneStuck(Apply(s, a))
  {
    OnlyOneMoves(s, a);
  }

  lemma {:induction false} ExecSnoc(s: State, acts: seq<Action>, a: Action)
    ensures var s' := Exec(s, acts); Exec(s, acts + [a]) == if Enabled(s', a) then Apply(s', a) else s'
  {
    assert (acts + [a])[..|acts|] == acts;
  }

  lemma {:induction false} ExecCons(s: State, a: Action, acts: seq<Action>)
    requires Enabled(s, a)
    ensures Exec(s, [a] + acts) == Exec(Apply(s, a), acts)
  {
    if acts == [] {
      ExecSnoc(s, [], a);
      assert [a] + acts == [] + [a];
    } else {
      var front, last := acts[..|acts| - 1], acts[|acts| - 1];
      ExecCons(s, a, front);
      ExecSnoc(s, [a] + front, last);
      ExecSnoc(Apply(s, a), front, last);
      assert [a] + acts == [a] + front + [last] && acts == front + [last];
    }
  }

  /** After a failed write the mutex is never released: its holder waits for itself, and nothing is ever written or
      delivered again, whatever the other threads do. */
  lemma {:induction false} StuckForever(s: State, frames: seq<seq<seq<Byte>>>, t: nat, acts: seq<Action>)
    requires Inv(s, frames) && t < |s.threads| && s.threads[t].pc.Stuck?
    ensures var s' := Exec(s, acts);
            && Inv(s', frames)
            && s'.threads[t] == s.threads[t] && s'.file == Some(t)
            && s'.writes == s.writes && s'.log == s.log
            && forall u :: 0 <= u < |s.threads| ==> s'.threads[u].replies == s.threads[u].replies
  {
    assert LocksOk(s, t, s.threads[t].pc);
    if acts != [] {
      StuckForever(s, frames, t, acts[..|acts| - 1]);
      var before, a := Exec(s, acts[..|acts| - 1]), acts[|acts| - 1];
      if Enabled(before, a) {
        StepKeepsInv(before, a, frames);
        StuckStep(before, a, frames, t);
      }
    }
  }

  lemma {:induction false} StuckStep(s: State, a: Action, frames: seq<seq<seq<Byte>>>, t: nat)
    requires Inv(s, frames) && t < |s.threads| && s.threads[t].pc.Stuck? && s.file == Some(t) && Enabled(s, a)
    ensures var s' := Apply(s, a);
            && |s'.threads| == |s.threads| && s'.threads[t] == s.threads[t] && s'.file == Some(t)
            && s'.writes == s.writes && s'.log == s.log
            && forall u :: 0 <= u < |s.threads| ==> s'.threads[u].replies == s.threads[u].replies
  {
    assert LocksOk(s, a.t, s.threads[a.t].pc);
    OnlyOneMoves(s, a);
  }

  /** Exactly when the server can still serve everybody: in a reachable state some continuation finishes all
      threads if and only if no write has failed so far. */
  lemma {:induction false} CanFinishIffNoneStuck(frames: seq<seq<seq<Byte>>>, acts: seq<Action>)
    ensures var s := Exec(Init(frames), acts);
            (exists more :: FinishesAll(s, more)) <==> NoneStuck(s)
  {
    RunKeepsInv(frames, acts);
    var s := Exec(Init(frames), acts);
    if NoneStuck(s) {
      var more := CanFinish(s, frames);
      assert FinishesAll(s, more);
    } else {
      var t :| 0 <= t < |s.threads| && s.threads[t].pc.Stuck?;
      forall more
        ensures !FinishesAll(s, more)
      {
        StuckForever(s, frames, t, more);
      }
    }
  }

  // ----- the harmful runs exist

  /** One client, one line, and a write that fails: the thread is stuck with the mutex. */
  lemma {:induction false} StuckExample(line: seq<Byte>) returns (acts: seq<Action>)
    ensures var s := Exec(Init([[line]]), acts); |s.threads| == 1 && s.threads[0].pc.Stuck? && s.file == Some(0)
  {
    var s := Init([[line]]);
    acts := [];
    assert Exec(s, acts) == s && s.threads == [Newcomer([line])];
    ExecSnoc(s, acts, Go(0));
    acts := acts + [Go(0)];
    assert Exec(s, acts).threads[0].pc == WaitFileW;
    ExecSnoc(s, acts, Go(0));
    acts := acts + [Go(0)];
    assert Exec(s, acts).threads[0].pc == WaitDevW && Exec(s, acts).file == Some(0);
    ExecSnoc(s, acts, FailWrite(0));
    acts := acts + [FailWrite(0)];
  }

  /** One client writes its line and comes to its read-back, in which every read fails and every send succeeds. */
  function WildSchedule(i: nat): Action {
    if i < 7 then Go(0) else if i % 2 == 1 then FailRead(0) else SendJunk(0, [])
  }

  function WildPc(i: nat): Pc {
    match i
    case 0 => Framing
    case 1 => WaitFileW
    case 2 => WaitDevW
    case 3 => Writing
    case 4 => UnlockDevW
    case 5 => UnlockFileW
    case 6 => WaitFileR
    case _ => if i % 2 == 1 then WaitDevR else SendingJunk
  }

  /** The lone client before its step number `i`. */
  predicate AloneAt(s: State, i: nat) {
    && |s.threads| == 1 && s.threads[0].pc == WildPc(i) && !s.threads[0].failed
    && (i <= 3 ==> s.threads[0].todo != []) && (i == 7 ==> s.threads[0].out == [])
    && LocksOk(s, 0, WildPc(i)) && (s.file.Some? ==> s.file.value == 0) && (s.dev.Some? ==> s.dev.value == 0)
  }

  lemma {:induction false} AloneStep(s: State, i: nat)
    requires AloneAt(s, i)
    ensures Enabled(s, WildSchedule(i)) && AloneAt(Apply(s, WildSchedule(i)), i + 1)
  {
  }

  lemma {:induction false} AloneNext(line: seq<Byte>, i: nat)
    requires i > 0 && AloneAt(StateAt([[line]], WildSchedule, i - 1), i - 1)
    ensures AloneAt(StateAt([[line]], WildSchedule, i), i)
  {
    AloneStep(StateAt([[line]], WildSchedule, i - 1), i - 1);
    AtStep([[line]], WildSchedule, i - 1);
  }

  lemma {:induction false} AloneBegins(line: seq<Byte>)
    ensures AloneAt(StateAt([[line]], WildSchedule, 0), 0)
  {
  }

  lemma {:induction false} AloneForEver(line: seq<Byte>, i: nat)
    ensures AloneAt(StateAt([[line]], WildSchedule, i), i)
  {
    if i == 0 {
      AloneBegins(line);
    } else {
      AloneForEver(line, i - 1);
      AloneNext(line, i);
    }
  }

  /** In that run the open may fail too, the read in the driver, and the send of what the failed read left. */
  lemma {:induction false} FailuresPossible(line: seq<Byte>)
    ensures Enabled(StateAt([[line]], WildSchedule, 7), FailOpen(0)) && Enabled(StateAt([[line]], WildSchedule, 7), FailRead(0))
    ensures Enabled(StateAt([[line]], WildSchedule, 8), FailSend(0))
  {
    AloneForEver(line, 7);
    AloneForEver(line, 8);
  }

  /** A schedule that keeps going and never ends. */
  lemma {:induction false} EndlessExample(line: seq<Byte>)
    ensures KeepsGoing([[line]], WildSchedule)
    ensures !exists n: nat :: FinishedAt([[line]], WildSchedule, n)
  {
    forall i: nat
      ensures Enabled(StateAt([[line]], WildSchedule, i), WildSchedule(i)) && !FinishedAt([[line]], WildSchedule, i)
    {
      AloneForEver(line, i);
      AloneStep(StateAt([[line]], WildSchedule, i), i);
    }
  }
}
