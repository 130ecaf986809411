/** The accept and reap loop of aesdsocket.c: connection records in a LIST, swept while their threads finish. */
module Reaper {
  import opened TailQueue
  import opened ListQueue
  import opened Threads
  import opened SweepPlan

  function Members(s: seq<Cell>): set<Cell> {
    set x | x in s
  }

  /** What the main thread's books say, links apart. */
  ghost predicate Booked(head: Cell, accepted: seq<Cell>, freed: set<Cell>, stage: Stages, list: seq<Cell>) {
    && list == NewestFirst(accepted, freed) && EachOnce(accepted) && head !in freed
    && stage.Keys == Members(accepted) && forall r :: r in freed ==> HasReturned(stage, r)
  }

  lemma {:induction false} BookedAccept(head: Cell, accepted: seq<Cell>, freed: set<Cell>, stage: Stages, list: seq<Cell>, elm: Cell)
    requires Booked(head, accepted, freed, stage, list) && elm !in accepted
    ensures Booked(head, accepted + [elm], freed, stage[elm := Running], [elm] + list)
    ensures Members(accepted + [elm]) == Members(accepted) + {elm}
  {
    assert (accepted + [elm])[..|accepted|] == accepted;
    assert elm !in stage.Keys;
    forall r | r in freed
      ensures HasReturned(stage[elm := Running], r)
    {
      assert HasReturned(stage, r);
    }
  }

  lemma {:induction false} BookedReap(head: Cell, accepted: seq<Cell>, freed: set<Cell>, stage: Stages, list: seq<Cell>, k: nat)
    requires Booked(head, accepted, freed, stage, list) && Distinct([head] + list)
    requires k < |list| && HasReturned(stage, list[k])
    ensures Booked(head, accepted, freed + {list[k]}, stage, Removed(list, k))
  {
    TailDistinct(head, list);
    NewestFirstWithout(accepted, freed, {list[k]});
    RemovedIsWithout(list, k);
  }

  lemma {:induction false} BookedLater(head: Cell, accepted: seq<Cell>, freed: set<Cell>, stage: Stages, list: seq<Cell>, stage': Stages)
    requires Booked(head, accepted, freed, stage, list) && Later(stage, stage')
    ensures Booked(head, accepted, freed, stage', list)
  {
  }

  /** A record whose thread has not returned is in the list and not freed. */
  lemma {:induction false} UnreturnedAreListed(head: Cell, accepted: seq<Cell>, freed: set<Cell>, stage: Stages, list: seq<Cell>)
    requires Booked(head, accepted, freed, stage, list)
    ensures forall r :: r in accepted && !HasReturned(stage, r) ==> r in list && r !in freed
  {
    NewestFirstMembers(accepted, freed);
  }

  // ----- runs of the accept and reap loop

  datatype AcceptOutcome = Connected | AcceptFailed | NoMemory

  /** Every record ever accepted, those freed, the stages of the threads, and the list. */
  datatype Books = Books(accepted: seq<Cell>, freed: set<Cell>, stage: Stages, list: seq<Cell>)

  /** One turn of the loop: the books at its start, after the accept call, and after the sweep, and where the sweep ended. */
  datatype Round = Round(start: Books, ready: Books, end: Books, stop: nat)

  /** The sweep of the round is blocked in a join. */
  predicate Blocks(r: Round) {
    r.stop < |r.ready.list|
  }

  /** A new connection has a new record at the front of the list, its thread running; otherwise nothing changes. */
  predicate AcceptedAs(b: Books, outcome: AcceptOutcome, b': Books) {
    if outcome.Connected?
    then && |b'.accepted| == |b.accepted| + 1
         && var elm := b'.accepted[|b.accepted|];
            elm !in b.accepted && b' == Books(b.accepted + [elm], b.freed, b.stage[elm := Running], [elm] + b.list)
    else b' == b
  }

  ghost predicate RoundOk(r: Round, outcome: AcceptOutcome, before: nat -> seq<Step>, during: nat -> seq<Step>) {
    && AcceptedAs(r.start, outcome, r.ready) && r.end.accepted == r.ready.accepted
    && SweptTo(Plan(r.ready.list, r.ready.stage, before, during), r.stop, r.end.list, r.end.freed, r.ready.freed, r.end.stage,
               Blocks(r))
  }

  /** The books after some rounds. */
  function BooksAfter(first: Books, rounds: seq<Round>): Books {
    if rounds == [] then first else rounds[|rounds| - 1].end
  }

  /** Round `j` does what the accept call and the threads decide. */
  ghost function Expected(outcomes: seq<AcceptOutcome>, before: nat -> nat -> seq<Step>, during: nat -> nat -> seq<Step>)
    : (nat, Round) -> bool {
    (j: nat, r: Round) => j < |outcomes| && RoundOk(r, outcomes[j], before(j), during(j))
  }

  /** The rounds follow each other, each is as `expected`, and only the last may block. */
  ghost predicate RunOk(rounds: seq<Round>, first: Books, expected: (nat, Round) -> bool) {
    && (forall j: nat :: j < |rounds| ==> expected(j, rounds[j]))
    && (rounds != [] ==> rounds[0].start == first)
    && (forall i, j :: 0 <= i < j < |rounds| ==> !Blocks(rounds[i]) && (j == i + 1 ==> rounds[j].start == rounds[i].end))
  }

  lemma {:induction false} RunLonger(rounds: seq<Round>, r: Round, first: Books, expected: (nat, Round) -> bool)
    requires RunOk(rounds, first, expected) && expected(|rounds|, r)
    requires r.start == BooksAfter(first, rounds) && (rounds != [] ==> !Blocks(rounds[|rounds| - 1]))
    ensures RunOk(rounds + [r], first, expected) && BooksAfter(first, rounds + [r]) == r.end
  {
  }

  lemma {:induction false} RoundCount(r: Round, outcome: AcceptOutcome, before: nat -> seq<Step>, during: nat -> seq<Step>)
    requires RoundOk(r, outcome, before, during)
    ensures |r.end.accepted| == |r.start.accepted| + if outcome == Connected then 1 else 0
  {
  }

  lemma {:induction false} CountAlong(rounds: seq<Round>, first: Books, outcomes: seq<AcceptOutcome>,
                                      expected: (nat, Round) -> bool, n: nat)
    requires RunOk(rounds, first, expected) && 0 < n <= |rounds| <= |outcomes|
    requires forall j :: 0 <= j < |rounds| ==>
               |rounds[j].end.accepted| == |rounds[j].start.accepted| + if outcomes[j] == Connected then 1 else 0
    ensures |rounds[n - 1].end.accepted| == |first.accepted| + multiset(outcomes[..n])[Connected]
  {
    assert outcomes[..n] == outcomes[..n - 1] + [outcomes[n - 1]];
    if n == 1 {
      assert outcomes[..0] == [];
    } else {
      CountAlong(rounds, first, outcomes, expected, n - 1);
      assert rounds[n - 1].start == rounds[n - 2].end;
    }
  }

  /** As many records have been accepted as connections came in. */
  lemma {:induction false} AcceptedCount(rounds: seq<Round>, first: Books, outcomes: seq<AcceptOutcome>,
                                         before: nat -> nat -> seq<Step>, during: nat -> nat -> seq<Step>)
    requires RunOk(rounds, first, Expected(outcomes, before, during)) && |rounds| <= |outcomes|
    ensures |BooksAfter(first, rounds).accepted| == |first.accepted| + multiset(outcomes[..|rounds|])[Connected]
  {
    var expected := Expected(outcomes, before, during);
    forall j | 0 <= j < |rounds|
      ensures |rounds[j].end.accepted| == |rounds[j].start.accepted| + if outcomes[j] == Connected then 1 else 0
    {
      assert expected(j, rounds[j]);
      RoundCount(rounds[j], outcomes[j], before(j), during(j));
    }
    if rounds == [] {
      assert outcomes[..0] == [];
    } else {
      CountAlong(rounds, first, outcomes, expected, |rounds|);
    }
  }

  // ----- the main thread and its list

  class Acceptor {
    const head: Cell
    /** How far the thread of each accepted record has got; accepting starts it, and only thread steps move it. */
    var stage: Stages
    /** Records handed back to free. */
    var freed: set<Cell>
    ghost var accepted: seq<Cell>
    ghost var list: seq<Cell>

    /** The list is well formed and holds exactly the accepted and not yet freed records, newest first; no record was
        inserted twice; and the thread of every freed record has returned. */
    ghost predicate Valid()
      reads this, head, list
    {
      List(head, list) && Booked(head, accepted, freed, stage, list)
    }

    ghost function Now(): Books
      reads this
    {
      Books(accepted, freed, stage, list)
    }

    ghost function Records(): set<Cell>
      reads this
    {
      Members(accepted)
    }

    constructor ()
      ensures Valid() && fresh(head) && accepted == [] && freed == {}
    {
      head := new Cell();
      stage, freed, accepted, list := map[], {}, [], [];
    }

    // ----- memory accesses: only what is not freed

    /** Any access of a thread to its record. */
    method Touch(r: Cell)
      requires r !in freed
    {
    }

    method NextOf(r: Cell) returns (n: Cell?)
      requires r !in freed
      ensures n == r.next
    {
      n := r.next;
    }

    method FlagOf(r: Cell) returns (b: bool)
      requires r !in freed
      ensures b <==> HasFlag(stage, r)
    {
      b := r in stage && stage[r] != Running;
    }

    /** LIST_REMOVE writes into both neighbours. */
    method Unlink(r: Cell, ghost k: nat)
      requires List(head, list) && k < |list| && list[k] == r
      requires r !in freed && r.prev != null && r.prev !in freed && (r.next != null ==> r.next !in freed)
      modifies r.next, r.prev
      ensures List(head, Removed(list, k))
    {
      ListRemove(r, head, list, k);
    }

    /** LIST_INSERT_HEAD writes into the first record. */
    method LinkFirst(elm: Cell)
      requires List(head, list) && elm !in [head] + list
      requires head !in freed && elm !in freed && (head.next != null ==> head.next !in freed)
      modifies head, elm, head.next
      ensures List(head, [elm] + list)
    {
      assert ([head] + list)[0] == head;
      ListInsertHead(head, elm, list);
    }

    // ----- steps of the threads

    /** One step of a thread, at any moment. It never accesses a freed record. */
    method ThreadStep(s: Step)
      requires Valid()
      modifies this`stage
      ensures Valid() && stage == Moved(old(stage), s)
      ensures s.r in freed ==> HasReturned(stage, s.r) && stage == old(stage)
    {
      MovedIsLater(stage, s);
      BookedLater(head, accepted, freed, stage, list, Moved(stage, s));
      if Touches(stage, s) {
        Touch(s.r);
      }
      stage := Moved(stage, s);
    }

    method ThreadSteps(ss: seq<Step>)
      requires Valid()
      modifies this`stage
      ensures Valid() && stage == MovedAll(old(stage), ss)
    {
      assert ss[..0] == [];
      for n := 0 to |ss|
        invariant Valid() && stage == MovedAll(old(stage), ss[..n])
      {
        assert ss[..n + 1][..n] == ss[..n];
        ThreadStep(ss[n]);
      }
      assert ss[..|ss|] == ss;
    }

    // ----- the main thread

    lemma {:induction false} FirstIsAccepted()
      requires Valid()
      ensures head.next != null ==> head.next in accepted && head.next !in freed
    {
      NewestFirstMembers(accepted, freed);
      assert ([head] + list)[0] == head;
    }

    /** Accepting a connection: a new record goes to the front of the list, its flag clear. */
    method AcceptConnection() returns (elm: Cell)
      requires Valid()
      modifies this, head, head.next
      ensures Valid() && fresh(elm)
      ensures accepted == old(accepted) + [elm] && list == [elm] + old(list)
      ensures freed == old(freed) && stage == old(stage)[elm := Running]
      ensures Records() == old(Records()) + {elm}
    {
      elm := new Cell();
      assert elm !in accepted;
      BookedAccept(head, accepted, freed, stage, list, elm);
      FirstIsAccepted();
      LinkFirst(elm);
      list := [elm] + list;
      accepted := accepted + [elm];
      stage := stage[elm := Running];
    }

    /** The cells that unlinking record `k` reads or writes are not freed. */
    lemma {:induction false} NothingFreedNearby(k: nat)
      requires Valid() && k < |list|
      ensures list[k] !in freed && list[k] in accepted
      ensures list[k].prev == head || list[k].prev in accepted
      ensures list[k].prev != null && list[k].prev !in freed
      ensures list[k].next == (if k + 1 < |list| then list[k + 1] else null)
      ensures list[k].next != null ==> list[k].next in accepted && list[k].next !in freed
    {
      NewestFirstMembers(accepted, freed);
      var c := [head] + list;
      assert c[k + 1] == list[k] && c[k + 1].prev == c[k] && c[k + 1].next == Succ(c, k + 1);
    }

    /** LIST_REMOVE and free, for a record whose thread pthread_join has waited for. */
    method Reap(data: Cell, ghost k: nat)
      requires Valid() && k < |list| && list[k] == data && HasReturned(stage, data)
      modifies this, head, Records()
      ensures Valid() && data !in old(freed)
      ensures list == Removed(old(list), k) && freed == old(freed) + {data}
      ensures accepted == old(accepted) && stage == old(stage)
    {
      NothingFreedNearby(k);
      BookedReap(head, accepted, freed, stage, list, k);
      Unlink(data, k);
      freed := freed + {data};
      list := Removed(list, k);
    }

    /** pthread_join, in which the main thread waits while threads step, and then the reaping. `blocked` says that the
        thread has not returned and the join still waits. The thread belongs to an accepted record and was not joined
        before, which rules out the errors of pthread_join. */
    method Join(data: Cell, during: seq<Step>, ghost k: nat) returns (blocked: bool)
      requires Valid() && k < |list| && list[k] == data
      modifies this, head, Records()
      ensures Valid() && accepted == old(accepted) && data in old(stage) && data !in old(freed)
      ensures stage == MovedAll(old(stage), during) && (blocked <==> !HasReturned(stage, data))
      ensures list == if blocked then old(list) else Removed(old(list), k)
      ensures freed == if blocked then old(freed) else old(freed) + {data}
    {
      NothingFreedNearby(k);
      ThreadSteps(during);
      blocked := !(data in stage && stage[data] == Returned);
      if !blocked {
        Reap(data, k);
      }
    }

    /** One turn of the sweep: fetch the successor; let threads step; read the flag; if it is set, join and reap. */
    method Visit(data: Cell, before: seq<Step>, during: seq<Step>, ghost k: nat) returns (loop: Cell?, blocked: bool)
      requires Valid() && k < |list| && list[k] == data
      modifies this, head, Records()
      ensures Valid() && accepted == old(accepted) && data !in old(freed)
      ensures Visited(data, k, before, during, old(list), old(freed), old(stage), list, freed, stage, blocked)
      ensures loop == if k + 1 < |old(list)| then old(list)[k + 1] else null
    {
      blocked := false;
      NothingFreedNearby(k);
      loop := NextOf(data);
      ThreadSteps(before);
      var complete := FlagOf(data);
      if complete {
        blocked := Join(data, during, k);
      }
    }

    /** The same turn, as progress of a sweep, or its end. */
    method VisitNext(data: Cell, ghost p: Plan, i: nat, before: seq<Step>, during: seq<Step>, ghost base: set<Cell>)
      returns (loop: Cell?, blocked: bool)
      requires Valid() && SweepAt(p, i, list, freed, base, stage) && i < |p.s| && p.s[i] == data
      requires before == p.before(i) && during == p.during(i)
      modifies this, head, Records()
      ensures Valid() && accepted == old(accepted)
      ensures blocked ==> SweepResult(p, i, list, freed, base, stage, true)
      ensures !blocked ==> SweepAt(p, i + 1, list, freed, base, stage) && loop == First(p.s[i + 1..])
    {
      ghost var k, now, gone, m := PlaceAt(p.s, Finds(p), i), list, freed, stage;
      SweepPlace(p, i, list, freed, base, stage);
      loop, blocked := Visit(data, before, during, k);
      VisitResult(p, i, now, gone, base, m, list, freed, stage, blocked);
    }

    /** The loop of LIST_FOREACH_SAFE. */
    method Visits(first: Cell?, ghost p: Plan, before: nat -> seq<Step>, during: nat -> seq<Step>, ghost base: set<Cell>)
      returns (blocked: bool, ghost stop: nat)
      requires Valid() && SweepAt(p, 0, list, freed, base, stage) && first == First(p.s)
      requires before == p.before && during == p.during
      modifies this, head, Records()
      ensures Valid() && accepted == old(accepted)
      ensures SweepResult(p, stop, list, freed, base, stage, blocked)
    {
      assert p.s[0..] == p.s;
      var data, i: nat := first, 0;
      while data != null
        invariant Valid() && accepted == old(accepted)
        invariant SweepAt(p, i, list, freed, base, stage) && data == First(p.s[i..])
        decreases |p.s| - i
      {
        stop := i;
        data, blocked := VisitNext(data, p, i, before(i), during(i), base);
        if blocked {
          return;
        }
        i := i + 1;
      }
      blocked, stop := false, i;
      SweepEnds(p, i, list, freed, base, stage);
    }

    /** The reaping sweep with LIST_FOREACH_SAFE, for every way the threads step before record `i` is looked at and while
        the main thread waits for it. Every link, flag and record that is read belongs to a record that is not freed. The
        sweep is blocked exactly when some record is found complete and its thread does not return during the join; up to
        there it takes out and frees exactly the records that it finds complete. */
    method Sweep(before: nat -> seq<Step>, during: nat -> seq<Step>) returns (blocked: bool, ghost stop: nat)
      requires Valid()
      modifies this, head, Records()
      ensures Valid() && accepted == old(accepted)
      ensures SweepResult(Plan(old(list), old(stage), before, during), stop, list, freed, old(freed), stage, blocked)
    {
      ghost var p := Plan(list, stage, before, during);
      TailDistinct(head, list);
      SweepBegin(p, freed);
      assert ([head] + list)[0] == head;
      blocked, stop := Visits(head.next, p, before, during, freed);
    }

    /** One turn of the loop: accept, then sweep. */
    method Turn(outcome: AcceptOutcome, before: nat -> seq<Step>, during: nat -> seq<Step>) returns (ghost r: Round, blocked: bool)
      requires Valid()
      modifies this, head, Records()
      ensures Valid() && fresh(Records() - old(Records()))
      ensures r.start == old(Now()) && r.end == Now() && RoundOk(r, outcome, before, during) && (blocked <==> Blocks(r))
    {
      ghost var start := Now();
      FirstIsAccepted();
      if outcome.Connected? {
        var elm := AcceptConnection();
      }
      ghost var ready := Now();
      ghost var stop;
      blocked, stop := Sweep(before, during);
      r := Round(start, ready, Now(), stop);
    }

    /** The same turn, as round `j` of a run. */
    method NextRound(outcomes: seq<AcceptOutcome>, before: nat -> nat -> seq<Step>, during: nat -> nat -> seq<Step>, j: nat,
                     ghost expected: (nat, Round) -> bool)
      returns (ghost r: Round, blocked: bool)
      requires Valid() && j < |outcomes| && expected == Expected(outcomes, before, during)
      modifies this, head, Records()
      ensures Valid() && fresh(Records() - old(Records()))
      ensures r.start == old(Now()) && r.end == Now() && expected(j, r) && (blocked <==> Blocks(r))
    {
      r, blocked := Turn(outcomes[j], before(j), during(j));
    }

    method Rounds(outcomes: seq<AcceptOutcome>, before: nat -> nat -> seq<Step>, during: nat -> nat -> seq<Step>,
                  ghost expected: (nat, Round) -> bool)
      returns (blocked: bool, ghost rounds: seq<Round>)
      requires Valid() && expected == Expected(outcomes, before, during)
      modifies this, head, Records()
      ensures Valid() && fresh(Records() - old(Records()))
      ensures RunOk(rounds, old(Now()), expected) && Now() == BooksAfter(old(Now()), rounds)
      ensures |rounds| <= |outcomes| && (!blocked ==> |rounds| == |outcomes|)
      ensures blocked <==> rounds != [] && Blocks(rounds[|rounds| - 1])
    {
      blocked, rounds := false, [];
      var j := 0;
      while j < |outcomes| && !blocked
        invariant 0 <= j <= |outcomes| && j == |rounds| && Valid() && fresh(Records() - old(Records()))
        invariant RunOk(rounds, old(Now()), expected) && Now() == BooksAfter(old(Now()), rounds)
        invariant blocked <==> rounds != [] && Blocks(rounds[|rounds| - 1])
      {
        ghost var r;
        r, blocked := NextRound(outcomes, before, during, j, expected);
        RunLonger(rounds, r, old(Now()), expected);
        rounds := rounds + [r];
        j := j + 1;
      }
    }

    /** The accept and reap loop, for any sequence of accept outcomes and any steps of the threads: `rounds` tells it turn by
        turn. It stops exactly when a sweep is blocked in a join. At the end, as at every moment before, a record whose
        thread has not returned is in the list and not freed. */
    method Run(outcomes: seq<AcceptOutcome>, before: nat -> nat -> seq<Step>, during: nat -> nat -> seq<Step>)
      returns (blocked: bool, ghost rounds: seq<Round>)
      requires Valid()
      modifies this, head, Records()
      ensures Valid() && fresh(Records() - old(Records()))
      ensures RunOk(rounds, old(Now()), Expected(outcomes, before, during)) && Now() == BooksAfter(old(Now()), rounds)
      ensures blocked <==> exists j :: 0 <= j < |rounds| && Blocks(rounds[j])
      ensures !blocked ==> |rounds| == |outcomes| && |accepted| == |old(accepted)| + multiset(outcomes)[Connected]
      ensures forall r :: r in accepted && !HasReturned(stage, r) ==> r in list && r !in freed
    {
      ghost var expected := Expected(outcomes, before, during);
      blocked, rounds := Rounds(outcomes, before, during, expected);
      AcceptedCount(rounds, old(Now()), outcomes, before, during);
      assert !blocked ==> outcomes[..|rounds|] == outcomes;
      UnreturnedAreListed(head, accepted, freed, stage, list);
    }

    /** Threads step, the flag of record `i` is read, and when it is clear its successor is fetched. */
    method Look(data: Cell, ghost p: Plan, i: nat, before: seq<Step>) returns (complete: bool, next: Cell?)
      requires Valid() && i < |p.s| && list == p.s && p.s[i] == data && before == p.before(i) && WalkAt(p, i, stage)
      modifies this`stage
      ensures Valid() && (complete <==> Found(p, i))
      ensures complete ==> stage == MovedAll(p.m, Seen(p, i)) && NoneFound(p, i)
      ensures !complete ==> WalkAt(p, i + 1, stage) && next == First(p.s[i + 1..])
    {
      next := null;
      NothingFreedNearby(i);
      MovedAllAppend(p.m, Played(p, i), before);
      ThreadSteps(before);
      complete := FlagOf(data);
      if !complete {
        WalkOn(p, i);
        next := NextOf(data);
      }
    }

    /** The first record that is found complete ends the walk: the thread does not return, or the record is freed and the
        walk reads its successor. */
    method EndWalk(data: Cell, ghost p: Plan, i: nat, during: seq<Step>) returns (fault: bool, blocked: bool)
      requires Valid() && i < |p.s| && list == p.s && p.s[i] == data && during == p.during(i)
      requires stage == MovedAll(p.m, Seen(p, i)) && NoneFound(p, i) && Found(p, i)
      modifies this, head, Records()
      ensures FaultOrBlock(p, fault, blocked) && WalkLeaves(p, fault, list, freed, old(freed))
    {
      WalkEnds(p, i);
      FirstFoundUnique(p, i);
      MovedAllAppend(p.m, Seen(p, i), during);
      blocked := Join(data, during, i);
      fault := data in freed;
    }

    /** One turn of the walk: it goes on to the successor, or it is over. */
    method WalkVisit(data: Cell, ghost p: Plan, i: nat, before: seq<Step>, during: seq<Step>)
      returns (over: bool, fault: bool, blocked: bool, next: Cell?)
      requires Valid() && i < |p.s| && list == p.s && p.s[i] == data && WalkAt(p, i, stage)
      requires before == p.before(i) && during == p.during(i)
      modifies this, head, Records()
      ensures over ==> FaultOrBlock(p, fault, blocked) && WalkLeaves(p, fault, list, freed, old(freed))
      ensures !over ==> && Valid() && accepted == old(accepted) && list == old(list) && freed == old(freed)
                        && WalkAt(p, i + 1, stage) && next == First(p.s[i + 1..])
    {
      fault, blocked := false, false;
      over, next := Look(data, p, i, before);
      if over {
        fault, blocked := EndWalk(data, p, i, during);
      }
    }

    /** The sweep after the loop uses LIST_FOREACH, which reads the successor of a record after it was freed. `fault` says
        that it does, and ends the walk there. It happens exactly when the first record that is complete as the walk gets
        to it also has its thread return during the join; without a return the walk stays blocked in that join. */
    method FinalSweep(before: nat -> seq<Step>, during: nat -> seq<Step>) returns (fault: bool, blocked: bool)
      requires Valid()
      modifies this, head, Records()
      ensures FaultOrBlock(Plan(old(list), old(stage), before, during), fault, blocked)
      ensures WalkLeaves(Plan(old(list), old(stage), before, during), fault, list, freed, old(freed))
    {
      ghost var p := Plan(list, stage, before, during);
      WalkBegins(p);
      assert ([head] + list)[0] == head && p.s[0..] == list;
      var data := head.next;
      var i: nat := 0;
      while data != null
        invariant Valid() && list == p.s && freed == old(freed) && accepted == old(accepted)
        invariant WalkAt(p, i, stage) && data == First(p.s[i..])
        decreases |p.s| - i
      {
        var over;
        over, fault, blocked, data := WalkVisit(data, p, i, before(i), during(i));
        if over {
          return;
        }
        i := i + 1;
      }
      WalkEnds(p, i);
      fault, blocked := false, false;
    }
  }
}
