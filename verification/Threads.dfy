/** The connection threads, as far as their records are concerned: how a thread comes to its end, step by step. */
module Threads {
  import opened TailQueue

  /** A thread works on its connection; it has set thread_complete; it has read its record for the last time; it has
      returned. */
  datatype Stage = Running | Flagged | Logged | Returned

  /** A step of the thread of record `r`. The first three read or write the record. */
  datatype Step = Work(r: Cell) | SetFlag(r: Cell) | LastTouch(r: Cell) | Finish(r: Cell)

  type Stages = map<Cell, Stage>

  /** The step is the next one of its thread and accesses the record. */
  predicate Touches(m: Stages, s: Step) {
    && s.r in m
    && match s
       case Work(r) => m[r] == Running
       case SetFlag(r) => m[r] == Running
       case LastTouch(r) => m[r] == Flagged
       case Finish(_) => false
  }

  /** A step that is not the next one of its thread does nothing. */
  function Moved(m: Stages, s: Step): Stages {
    match s
    case Work(_) => m
    case SetFlag(r) => if r in m && m[r] == Running then m[r := Flagged] else m
    case LastTouch(r) => if r in m && m[r] == Flagged then m[r := Logged] else m
    case Finish(r) => if r in m && m[r] == Logged then m[r := Returned] else m
  }

  function MovedAll(m: Stages, ss: seq<Step>): Stages {
    if ss == [] then m else Moved(MovedAll(m, ss[..|ss| - 1]), ss[|ss| - 1])
  }

  /** A thread touches its record while it works, when it sets the flag and when it logs, and not after that. */
  lemma {:induction false} TouchesIff(m: Stages, s: Step)
    ensures Touches(m, s) <==> s.r in m && ((s.Work? && m[s.r] == Running) || (!s.Finish? && Moved(m, s) != m))
    ensures s.r in m && (m[s.r] == Logged || m[s.r] == Returned) ==> !Touches(m, s)
  {
    if Touches(m, s) && !s.Work? {
      assert Moved(m, s)[s.r] != m[s.r];
    }
  }

  /** The flag of the record is set. */
  predicate HasFlag(m: Stages, r: Cell) {
    r in m && m[r] != Running
  }

  predicate HasReturned(m: Stages, r: Cell) {
    r in m && m[r] == Returned
  }

  /** Threads only move forward. */
  ghost predicate Later(m: Stages, m': Stages) {
    && m'.Keys == m.Keys
    && forall r :: r in m ==> (HasFlag(m, r) ==> HasFlag(m', r)) && (HasReturned(m, r) ==> HasReturned(m', r))
  }

  lemma {:induction false} MovedIsLater(m: Stages, s: Step)
    ensures Later(m, Moved(m, s))
  {
  }

  lemma {:induction false} MovedAllIsLater(m: Stages, ss: seq<Step>)
    ensures Later(m, MovedAll(m, ss))
  {
    if ss != [] {
      MovedAllIsLater(m, ss[..|ss| - 1]);
      MovedIsLater(MovedAll(m, ss[..|ss| - 1]), ss[|ss| - 1]);
    }
  }

  lemma {:induction false} MovedAllAppend(m: Stages, a: seq<Step>, b: seq<Step>)
    ensures MovedAll(m, a + b) == MovedAll(MovedAll(m, a), b)
  {
    if b == [] {
      assert a + b == a;
    } else {
      MovedAllAppend(m, a, b[..|b| - 1]);
      assert (a + b)[..|a + b| - 1] == a + b[..|b| - 1];
    }
  }

  // ----- what the steps amount to

  predicate FlaggedIn(ss: seq<Step>, r: Cell) {
    exists i :: 0 <= i < |ss| && ss[i] == SetFlag(r)
  }

  /** The thread of `r` sets its flag and later comes to the log call. */
  predicate LoggedIn(ss: seq<Step>, r: Cell) {
    exists j :: 0 <= j < |ss| && ss[j] == LastTouch(r) && FlaggedIn(ss[..j], r)
  }

  /** It sets its flag, later logs, and later still comes to its end. */
  predicate ReturnedIn(ss: seq<Step>, r: Cell) {
    exists k :: 0 <= k < |ss| && ss[k] == Finish(r) && LoggedIn(ss[..k], r)
  }

  lemma {:induction false} InLonger(ss: seq<Step>, s: Step, r: Cell)
    ensures FlaggedIn(ss + [s], r) <==> FlaggedIn(ss, r) || s == SetFlag(r)
    ensures LoggedIn(ss + [s], r) <==> LoggedIn(ss, r) || (s == LastTouch(r) && FlaggedIn(ss, r))
    ensures ReturnedIn(ss + [s], r) <==> ReturnedIn(ss, r) || (s == Finish(r) && LoggedIn(ss, r))
  {
    var ss' := ss + [s];
    assert ss'[|ss|] == s && ss'[..|ss|] == ss;
    forall i | 0 <= i < |ss|
      ensures ss'[i] == ss[i] && ss'[..i] == ss[..i]
    {
    }
  }

  /** The flag of a record is set exactly when it was, or when its thread has come to the step that sets it. */
  lemma {:induction false} FlagIff(m: Stages, ss: seq<Step>, r: Cell)
    requires r in m
    ensures HasFlag(MovedAll(m, ss), r) <==> HasFlag(m, r) || FlaggedIn(ss, r)
  {
    MovedAllIsLater(m, ss);
    if ss != [] {
      var front, last := ss[..|ss| - 1], ss[|ss| - 1];
      FlagIff(m, front, r);
      InLonger(front, last, r);
      assert ss == front + [last];
    }
  }

  /** A running thread has touched its record for the last time exactly when it has set its flag and then logged, and has
      returned exactly when it has come to its end after that. */
  lemma {:induction false} ReturnedIff(m: Stages, ss: seq<Step>, r: Cell)
    requires r in m && m[r] == Running
    ensures var m' := MovedAll(m, ss);
            && r in m' && (m'[r] == Logged || m'[r] == Returned <==> LoggedIn(ss, r))
            && (m'[r] == Returned <==> ReturnedIn(ss, r))
  {
    if ss != [] {
      var front, last := ss[..|ss| - 1], ss[|ss| - 1];
      ReturnedIff(m, front, r);
      FlagIff(m, front, r);
      InLonger(front, last, r);
      assert ss == front + [last];
    }
  }
}
