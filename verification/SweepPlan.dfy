/** What a sweep over a list of records has to do, given how the threads step meanwhile. */
module SweepPlan {
  import opened TailQueue
  import opened Threads

  // ----- lists of records

  function Without(s: seq<Cell>, gone: set<Cell>): seq<Cell> {
    if s == [] then []
    else Without(s[..|s| - 1], gone) + if s[|s| - 1] in gone then [] else [s[|s| - 1]]
  }

  /** The accepted records that are not gone, newest first. */
  function NewestFirst(accepted: seq<Cell>, gone: set<Cell>): seq<Cell> {
    if accepted == [] then []
    else (if accepted[|accepted| - 1] in gone then [] else [accepted[|accepted| - 1]])
         + NewestFirst(accepted[..|accepted| - 1], gone)
  }

  /** No record occurs twice. */
  predicate EachOnce(s: seq<Cell>) {
    s == [] || (s[|s| - 1] !in s[..|s| - 1] && EachOnce(s[..|s| - 1]))
  }

  lemma {:induction false} WithoutAppend(s: seq<Cell>, t: seq<Cell>, gone: set<Cell>)
    ensures Without(s + t, gone) == Without(s, gone) + Without(t, gone)
  {
    if t == [] {
      assert s + t == s;
    } else {
      assert (s + t)[..|s + t| - 1] == s + t[..|t| - 1];
      WithoutAppend(s, t[..|t| - 1], gone);
    }
  }

  /** Survivors are the old elements that are not gone, in their old order. */
  lemma {:induction false} WithoutMembers(s: seq<Cell>, gone: set<Cell>)
    ensures forall x :: x in Without(s, gone) <==> x in s && x !in gone
  {
    if s != [] {
      var front, last := s[..|s| - 1], s[|s| - 1];
      WithoutMembers(front, gone);
      assert forall x :: x in s <==> x in front || x == last;
    }
  }

  lemma {:induction false} WithoutNothing(s: seq<Cell>, gone: set<Cell>)
    requires forall x :: x in s ==> x !in gone
    ensures Without(s, gone) == s
  {
    if s != [] {
      WithoutNothing(s[..|s| - 1], gone);
    }
  }

  lemma {:induction false} WithoutSame(s: seq<Cell>, gone: set<Cell>, gone': set<Cell>)
    requires forall x :: x in s ==> (x in gone <==> x in gone')
    ensures Without(s, gone) == Without(s, gone')
  {
    if s != [] {
      WithoutSame(s[..|s| - 1], gone, gone');
    }
  }

  lemma {:induction false} RemovedIsWithout(s: seq<Cell>, k: nat)
    requires Distinct(s) && k < |s|
    ensures Removed(s, k) == Without(s, {s[k]})
  {
    var front, last := s[..|s| - 1], s[|s| - 1];
    if k == |s| - 1 {
      WithoutNothing(front, {s[k]});
    } else {
      RemovedIsWithout(front, k);
      assert Removed(s, k) == Removed(front, k) + [last];
    }
  }

  lemma {:induction false} TailDistinct(h: Cell, s: seq<Cell>)
    requires Distinct([h] + s)
    ensures Distinct(s) && h !in s
  {
    var c := [h] + s;
    assert forall i :: 0 <= i < |s| ==> s[i] == c[i + 1];
    assert c[0] == h;
  }

  function First(s: seq<Cell>): Cell? {
    if s == [] then null else s[0]
  }

  lemma {:induction false} NewestFirstWithout(accepted: seq<Cell>, gone: set<Cell>, more: set<Cell>)
    ensures NewestFirst(accepted, gone + more) == Without(NewestFirst(accepted, gone), more)
  {
    if accepted != [] {
      var front, last := accepted[..|accepted| - 1], accepted[|accepted| - 1];
      NewestFirstWithout(front, gone, more);
      var one := if last in gone then [] else [last];
      WithoutAppend(one, NewestFirst(front, gone), more);
      assert Without(one, more) == if last in gone + more then [] else [last] by {
        if one != [] {
          assert one[..0] == [];
        }
      }
    }
  }

  lemma {:induction false} NewestFirstMembers(accepted: seq<Cell>, gone: set<Cell>)
    ensures forall x :: x in NewestFirst(accepted, gone) <==> x in accepted && x !in gone
  {
    if accepted != [] {
      var front, last := accepted[..|accepted| - 1], accepted[|accepted| - 1];
      NewestFirstMembers(front, gone);
      assert forall x :: x in accepted <==> x in front || x == last;
    }
  }

  // ----- one sweep

  /** A sweep: the list and the stages of the threads at its start, the steps that threads take before record `k` is looked
      at, and those they take while the main thread waits for the thread of record `k`. */
  datatype Plan = Plan(s: seq<Cell>, m: Stages, before: nat -> seq<Step>, during: nat -> seq<Step>)

  /** The steps that threads have taken when the flag of record `k` is read. */
  function Seen(p: Plan, k: nat): seq<Step> {
    Played(p, k) + p.before(k)
  }

  /** The steps that threads have taken when the sweep has done with the first `k` records. */
  function Played(p: Plan, k: nat): seq<Step> {
    if k == 0 then []
    else
      var seen := Played(p, k - 1) + p.before(k - 1);
      if k - 1 < |p.s| && HasFlag(MovedAll(p.m, seen), p.s[k - 1]) then seen + p.during(k - 1) else seen
  }

  /** The stages when the sweep has done with the first `i` records. */
  function StageAt(p: Plan, i: nat): Stages {
    MovedAll(p.m, Played(p, i))
  }

  /** The flag of record `k` is set when the sweep gets to it. */
  predicate Found(p: Plan, k: int) {
    0 <= k < |p.s| && HasFlag(MovedAll(p.m, Seen(p, k)), p.s[k])
  }

  /** The flag of record `k` is set, but its thread does not return while the sweep waits for it. */
  predicate Waits(p: Plan, k: int) {
    Found(p, k) && !HasReturned(MovedAll(p.m, Seen(p, k) + p.during(k)), p.s[k])
  }

  /** Record `k` is the first whose flag is set when the sweep gets to it. */
  predicate FirstFound(p: Plan, k: int) {
    Found(p, k) && forall j :: 0 <= j < k ==> !Found(p, j)
  }

  lemma {:induction false} PlayedNext(p: Plan, k: nat)
    ensures Played(p, k + 1) == if Found(p, k) then Seen(p, k) + p.during(k) else Seen(p, k)
  {
  }

  /** Among the steps before the first `k` records is one that sets the flag of `r`. */
  predicate FlaggedBefore(p: Plan, k: nat, r: Cell) {
    exists j :: 0 <= j < k && FlaggedIn(p.before(j), r)
  }

  /** Among the steps during the joins for the first `k` records is one that sets the flag of `r`. */
  predicate FlaggedDuring(p: Plan, k: nat, r: Cell) {
    exists j :: 0 <= j < k && Found(p, j) && FlaggedIn(p.during(j), r)
  }

  lemma {:induction false} FlaggedByNext(p: Plan, k: nat, r: Cell)
    ensures FlaggedIn(Played(p, k + 1), r) <==>
            FlaggedIn(Played(p, k), r) || FlaggedIn(p.before(k), r) || (Found(p, k) && FlaggedIn(p.during(k), r))
  {
    PlayedNext(p, k);
    FlaggedInBoth(Played(p, k), p.before(k), r);
    FlaggedInBoth(Seen(p, k), p.during(k), r);
  }

  /** The step that sets a flag is not forgotten. */
  lemma {:induction false} FlagIsPlayed(p: Plan, j: nat, k: nat, r: Cell)
    requires j < k && (FlaggedIn(p.before(j), r) || (Found(p, j) && FlaggedIn(p.during(j), r)))
    ensures FlaggedIn(Played(p, k), r)
  {
    FlaggedByNext(p, k - 1, r);
    if j < k - 1 {
      FlagIsPlayed(p, j, k - 1, r);
    }
  }

  /** Where a flag was set. */
  lemma {:induction false} WhenFlagged(p: Plan, k: nat, r: Cell) returns (j: nat)
    requires FlaggedIn(Played(p, k), r)
    ensures j < k && (FlaggedIn(p.before(j), r) || (Found(p, j) && FlaggedIn(p.during(j), r)))
  {
    FlaggedByNext(p, k - 1, r);
    j := k - 1;
    if !FlaggedIn(p.before(j), r) && !(Found(p, j) && FlaggedIn(p.during(j), r)) {
      j := WhenFlagged(p, k - 1, r);
    }
  }

  lemma {:induction false} FlaggedInBoth(a: seq<Step>, b: seq<Step>, r: Cell)
    ensures FlaggedIn(a + b, r) <==> FlaggedIn(a, r) || FlaggedIn(b, r)
  {
    assert forall i :: 0 <= i < |a| ==> (a + b)[i] == a[i];
    assert forall i :: 0 <= i < |b| ==> (a + b)[|a| + i] == b[i];
  }

  /** Which flags a sweep finds set: those set at the start, those set before the record or an earlier one is looked at, and
      those set during the join for an earlier record that is found complete. */
  lemma {:induction false} FoundIff(p: Plan, k: nat)
    requires k < |p.s| && p.s[k] in p.m
    ensures Found(p, k) <==> HasFlag(p.m, p.s[k]) || FlaggedBefore(p, k + 1, p.s[k]) || FlaggedDuring(p, k, p.s[k])
  {
    var r := p.s[k];
    FlagIff(p.m, Seen(p, k), r);
    FlaggedInBoth(Played(p, k), p.before(k), r);
    if FlaggedIn(Played(p, k), r) {
      var j := WhenFlagged(p, k, r);
    }
    forall j: nat | j < k && (FlaggedIn(p.before(j), r) || (Found(p, j) && FlaggedIn(p.during(j), r)))
      ensures FlaggedIn(Played(p, k), r)
    {
      FlagIsPlayed(p, j, k, r);
    }
  }

  predicate NoneFound(p: Plan, i: nat) {
    forall j :: 0 <= j < i ==> !Found(p, j)
  }

  /** There is only one first record that is found complete. */
  lemma {:induction false} FirstFoundUnique(p: Plan, i: nat)
    requires NoneFound(p, i) && Found(p, i)
    ensures FirstFound(p, i) && forall k :: FirstFound(p, k) ==> k == i
  {
  }

  /** The first record that is found complete has its thread return during the join. */
  ghost predicate FirstReturns(p: Plan) {
    exists k :: FirstFound(p, k) && !Waits(p, k)
  }

  /** It has not, and is waited for in vain. */
  ghost predicate FirstWaits(p: Plan) {
    exists k :: FirstFound(p, k) && Waits(p, k)
  }

  ghost predicate SomeFound(p: Plan) {
    exists k :: Found(p, k)
  }

  ghost predicate SomeWaits(p: Plan) {
    exists k :: Waits(p, k)
  }

  /** How a walk ends that cannot go on after a removal. */
  ghost predicate FaultOrBlock(p: Plan, fault: bool, blocked: bool) {
    (fault <==> FirstReturns(p)) && (blocked <==> FirstWaits(p)) && (fault || blocked <==> SomeFound(p))
  }

  /** What the walk leaves when it is over: the list as it was, or without the first record that was found complete. */
  ghost predicate WalkLeaves(p: Plan, fault: bool, now: seq<Cell>, freed: set<Cell>, base: set<Cell>) {
    if fault then exists k :: FirstFound(p, k) && now == Removed(p.s, k) && freed == base + {p.s[k]}
    else now == p.s && freed == base
  }

  /** The walk has come to record `i` and found none complete. */
  predicate WalkAt(p: Plan, i: nat, stage: Stages) {
    i <= |p.s| && stage == StageAt(p, i) && NoneFound(p, i)
  }

  lemma {:induction false} WalkBegins(p: Plan)
    ensures WalkAt(p, 0, p.m)
  {
  }

  lemma {:induction false} WalkOn(p: Plan, i: nat)
    requires i < |p.s| && NoneFound(p, i) && !Found(p, i)
    ensures WalkAt(p, i + 1, MovedAll(p.m, Seen(p, i)))
  {
    PlayedNext(p, i);
  }

  lemma {:induction false} WalkEnds(p: Plan, i: nat)
    requires i <= |p.s| && NoneFound(p, i)
    ensures i < |p.s| && Found(p, i) ==> FaultOrBlock(p, !Waits(p, i), Waits(p, i))
    ensures i == |p.s| ==> FaultOrBlock(p, false, false)
  {
    if i < |p.s| && Found(p, i) {
      FirstFoundUnique(p, i);
    }
  }

  /** A flag that is clear when the sweep begins: its thread sets it, logs and returns, and the record is found. */
  lemma {:induction false} LateFlagExample(r: Cell)
    ensures var p := Plan([r], map[r := Running], (_: nat) => [SetFlag(r)], (_: nat) => [LastTouch(r), Finish(r)]);
            !HasFlag(p.m, r) && FirstFound(p, 0) && !Waits(p, 0)
  {
    var p := Plan([r], map[r := Running], (_: nat) => [SetFlag(r)], (_: nat) => [LastTouch(r), Finish(r)]);
    var ss := Seen(p, 0) + p.during(0);
    assert Seen(p, 0) == [SetFlag(r)] && ss == [SetFlag(r), LastTouch(r), Finish(r)];
    FlagIff(p.m, Seen(p, 0), r);
    assert ss[..1] == [SetFlag(r)] && ss[..2] == [SetFlag(r), LastTouch(r)];
    assert FlaggedIn(ss[..1], r) by {
      assert ss[..1][0] == SetFlag(r);
    }
    assert LoggedIn(ss[..2], r) by {
      assert ss[..2][1] == LastTouch(r) && ss[..2][..1] == ss[..1];
    }
    assert ReturnedIn(ss, r);
    ReturnedIff(p.m, ss, r);
  }

  // ----- taking records out of a list

  /** Of the first `n` records those that are found. */
  function Taken(s: seq<Cell>, found: nat -> bool, n: nat): set<Cell>
    requires n <= |s|
  {
    if n == 0 then {} else Taken(s, found, n - 1) + if found(n - 1) then {s[n - 1]} else {}
  }

  lemma {:induction false} TakenMembers(s: seq<Cell>, found: nat -> bool, n: nat, x: Cell)
    requires n <= |s|
    ensures x in Taken(s, found, n) <==> exists k: nat :: k < n && found(k) && s[k] == x
  {
    if n > 0 {
      TakenMembers(s, found, n - 1, x);
    }
  }

  lemma {:induction false} TakenNext(s: seq<Cell>, found: nat -> bool, i: nat, base: set<Cell>)
    requires i < |s|
    ensures Taken(s, found, i + 1) == if found(i) then Taken(s, found, i) + {s[i]} else Taken(s, found, i)
    ensures base + Taken(s, found, i + 1) == if found(i) then base + Taken(s, found, i) + {s[i]} else base + Taken(s, found, i)
  {
  }

  lemma {:induction false} NotTakenYet(s: seq<Cell>, found: nat -> bool, n: nat, i: nat)
    requires Distinct(s) && n <= i < |s|
    ensures s[i] !in Taken(s, found, n)
  {
    TakenMembers(s, found, n, s[i]);
  }

  /** Leaving the record behind `front`, and taking it out. */
  lemma {:induction false} OneRecord(front: seq<Cell>, x: Cell, rest: seq<Cell>, gone: set<Cell>)
    requires x !in front && x !in gone
    ensures var now, k := Without(front, gone) + ([x] + rest), |Without(front, gone)|;
            && now[k] == x && now[k + 1..] == rest
            && now == Without(front + [x], gone) + rest && Removed(now, k) == Without(front + [x], gone + {x}) + rest
  {
    assert (front + [x])[..|front|] == front;
    WithoutSame(front, gone, gone + {x});
  }

  /** The list when the first `i` records have been dealt with. */
  function ListAt(s: seq<Cell>, found: nat -> bool, i: nat): seq<Cell>
    requires i <= |s|
  {
    Without(s[..i], Taken(s, found, i)) + s[i..]
  }

  /** The place of record `i` in that list. */
  function PlaceAt(s: seq<Cell>, found: nat -> bool, i: nat): nat
    requires i <= |s|
  {
    |Without(s[..i], Taken(s, found, i))|
  }

  lemma {:induction false} ListNext(s: seq<Cell>, found: nat -> bool, i: nat)
    requires Distinct(s) && i < |s|
    ensures var k, now := PlaceAt(s, found, i), ListAt(s, found, i);
            && k < |now| && now[k] == s[i] && (if k + 1 < |now| then now[k + 1] else null) == First(s[i + 1..])
            && ListAt(s, found, i + 1) == if found(i) then Removed(now, k) else now
  {
    NotTakenYet(s, found, i, i);
    TakenNext(s, found, i, {});
    assert s[..i + 1] == s[..i] + [s[i]] && s[i..] == [s[i]] + s[i + 1..];
    OneRecord(s[..i], s[i], s[i + 1..], Taken(s, found, i));
  }

  lemma {:induction false} ListSoFar(s: seq<Cell>, found: nat -> bool, i: nat)
    requires Distinct(s) && i <= |s|
    ensures ListAt(s, found, i) == Without(s, Taken(s, found, i))
  {
    var rest := s[i..];
    forall x | x in rest
      ensures x !in Taken(s, found, i)
    {
      var j :| 0 <= j < |rest| && rest[j] == x;
      NotTakenYet(s, found, i, i + j);
    }
    WithoutAppend(s[..i], rest, Taken(s, found, i));
    WithoutNothing(rest, Taken(s, found, i));
    assert s == s[..i] + rest;
  }

  // ----- the state of a sweep

  function Finds(p: Plan): nat -> bool {
    (k: nat) => Found(p, k)
  }

  /** No join for the first `i` records waits in vain. */
  predicate NoneWaits(p: Plan, i: nat) {
    i == 0 || (NoneWaits(p, i - 1) && !Waits(p, i - 1))
  }

  lemma {:induction false} NoneWaitsMeans(p: Plan, i: nat)
    ensures NoneWaits(p, i) <==> forall j :: 0 <= j < i ==> !Waits(p, j)
  {
    if i > 0 {
      NoneWaitsMeans(p, i - 1);
    }
  }

  /** The sweep has done with the first `i` records, none of which it had to wait for in vain. */
  ghost predicate SweepAt(p: Plan, i: nat, now: seq<Cell>, freed: set<Cell>, base: set<Cell>, stage: Stages) {
    && Distinct(p.s) && i <= |p.s| && now == ListAt(p.s, Finds(p), i)
    && freed == base + Taken(p.s, Finds(p), i) && stage == StageAt(p, i) && NoneWaits(p, i)
  }

  /** How a sweep ends: at the end of the list, or in the join for record `stop`. What it takes out and frees are exactly the
      records it has found complete before that. */
  ghost predicate SweptTo(p: Plan, stop: nat, now: seq<Cell>, freed: set<Cell>, base: set<Cell>, stage: Stages, blocked: bool) {
    && stop <= |p.s| && (blocked <==> stop < |p.s|) && NoneWaits(p, stop) && (blocked ==> Waits(p, stop))
    && now == Without(p.s, Taken(p.s, Finds(p), stop)) && freed == base + Taken(p.s, Finds(p), stop)
    && stage == StageAt(p, if blocked then stop + 1 else stop)
  }

  lemma {:induction false} SweepBegin(p: Plan, base: set<Cell>)
    requires Distinct(p.s)
    ensures SweepAt(p, 0, p.s, base, base, p.m)
  {
    assert p.s[..0] == [] && [] + p.s == p.s;
  }

  /** The stages when the flag of record `i` is read, and when it is left. */
  lemma {:induction false} StageNext(p: Plan, i: nat)
    requires i < |p.s|
    ensures var seen := MovedAll(StageAt(p, i), p.before(i));
            var after := MovedAll(seen, p.during(i));
            && (Found(p, i) <==> HasFlag(seen, p.s[i]))
            && (Waits(p, i) <==> Found(p, i) && !HasReturned(after, p.s[i]))
            && StageAt(p, i + 1) == if Found(p, i) then after else seen
  {
    MovedAllAppend(p.m, Played(p, i), p.before(i));
    MovedAllAppend(p.m, Seen(p, i), p.during(i));
    PlayedNext(p, i);
  }

  lemma {:induction false} NoneWaitsNext(p: Plan, i: nat)
    requires NoneWaits(p, i) && !Waits(p, i)
    ensures NoneWaits(p, i + 1)
  {
  }

  /** One record further: where it is, and what is left when it was not waited for in vain. */
  lemma {:induction false} SweepStep(p: Plan, i: nat, now: seq<Cell>, freed: set<Cell>, base: set<Cell>, stage: Stages)
    requires SweepAt(p, i, now, freed, base, stage) && i < |p.s|
    ensures var k := PlaceAt(p.s, Finds(p), i);
            && k < |now| && ListAt(p.s, Finds(p), i + 1) == (if Found(p, i) then Removed(now, k) else now)
            && base + Taken(p.s, Finds(p), i + 1) == (if Found(p, i) then freed + {p.s[i]} else freed)
            && (!Waits(p, i) ==> NoneWaits(p, i + 1))
  {
    ListNext(p.s, Finds(p), i);
    TakenNext(p.s, Finds(p), i, base);
    assert Finds(p)(i) == Found(p, i);
    if !Waits(p, i) {
      NoneWaitsNext(p, i);
    }
  }

  /** Where record `i` is when the sweep gets to it, and what comes after it. */
  lemma {:induction false} SweepPlace(p: Plan, i: nat, now: seq<Cell>, freed: set<Cell>, base: set<Cell>, stage: Stages)
    requires SweepAt(p, i, now, freed, base, stage) && i < |p.s|
    ensures var k := PlaceAt(p.s, Finds(p), i);
            k < |now| && now[k] == p.s[i] && (if k + 1 < |now| then now[k + 1] else null) == First(p.s[i + 1..])
  {
    ListNext(p.s, Finds(p), i);
  }

  /** What a visit does to record `x` at place `k` of the list: kept, taken out, or waited for. */
  ghost predicate Visited(x: Cell, k: nat, before: seq<Step>, during: seq<Step>, now: seq<Cell>, freed: set<Cell>, stage: Stages,
                          now': seq<Cell>, freed': set<Cell>, stage': Stages, blocked: bool)
    requires k < |now|
  {
    var seen := MovedAll(stage, before);
    if !HasFlag(seen, x)
    then !blocked && stage' == seen && now' == now && freed' == freed
    else && stage' == MovedAll(seen, during) && (blocked <==> !HasReturned(stage', x))
         && now' == (if blocked then now else Removed(now, k)) && freed' == (if blocked then freed else freed + {x})
  }

  lemma {:induction false} VisitIsNext(p: Plan, i: nat, now: seq<Cell>, freed: set<Cell>, base: set<Cell>, stage: Stages,
                                       now': seq<Cell>, freed': set<Cell>, stage': Stages, blocked: bool)
    requires SweepAt(p, i, now, freed, base, stage) && i < |p.s| && PlaceAt(p.s, Finds(p), i) < |now|
    requires Visited(p.s[i], PlaceAt(p.s, Finds(p), i), p.before(i), p.during(i), now, freed, stage, now', freed', stage', blocked)
    ensures blocked <==> Waits(p, i)
    ensures blocked ==> now' == now && freed' == freed && stage' == StageAt(p, i + 1)
    ensures !blocked ==> SweepAt(p, i + 1, now', freed', base, stage')
  {
    StageNext(p, i);
    SweepStep(p, i, now, freed, base, stage);
  }

  // ----- what a sweep amounts to

  /** A record that was found, and not waited for in vain, has a thread that has returned. */
  lemma {:induction false} FoundHasReturned(p: Plan, k: nat, n: nat)
    requires Found(p, k) && !Waits(p, k) && k < n
    ensures HasReturned(StageAt(p, n), p.s[k])
  {
    PlayedNext(p, k);
    ReturnedStays(p, k + 1, n, p.s[k]);
  }

  /** Every record a sweep frees is one of the list, and its thread has returned. */
  lemma {:induction false} TakenHaveReturned(p: Plan, stop: nat, n: nat)
    requires stop <= n && stop <= |p.s| && NoneWaits(p, stop)
    ensures forall x :: x in Taken(p.s, Finds(p), stop) ==> x in p.s && HasReturned(StageAt(p, n), x)
  {
    NoneWaitsMeans(p, stop);
    forall x | x in Taken(p.s, Finds(p), stop)
      ensures x in p.s && HasReturned(StageAt(p, n), x)
    {
      TakenMembers(p.s, Finds(p), stop, x);
      var k: nat :| k < stop && Finds(p)(k) && p.s[k] == x;
      FoundHasReturned(p, k, n);
    }
  }

  /** Every record that was flagged at the start of a sweep is found complete. */
  lemma {:induction false} FlaggedAreTaken(p: Plan)
    ensures forall x :: x in p.s && HasFlag(p.m, x) ==> x in Taken(p.s, Finds(p), |p.s|)
  {
    forall x | x in p.s && HasFlag(p.m, x)
      ensures x in Taken(p.s, Finds(p), |p.s|)
    {
      var k :| 0 <= k < |p.s| && p.s[k] == x;
      MovedAllIsLater(p.m, Seen(p, k));
      assert Finds(p)(k);
      TakenMembers(p.s, Finds(p), |p.s|, x);
    }
  }

  /** What a sweep leaves behind, and what that means for the records. */
  ghost predicate SweepResult(p: Plan, stop: nat, now: seq<Cell>, freed: set<Cell>, base: set<Cell>, stage: Stages, blocked: bool) {
    && SweptTo(p, stop, now, freed, base, stage, blocked)
    && (blocked <==> SomeWaits(p))
    && (forall x :: x in freed - base ==> x in p.s && HasReturned(stage, x))
    && (!blocked ==> forall x :: x in p.s && HasFlag(p.m, x) ==> x in freed)
  }

  lemma {:induction false} SweepEnds(p: Plan, i: nat, now: seq<Cell>, freed: set<Cell>, base: set<Cell>, stage: Stages)
    requires SweepAt(p, i, now, freed, base, stage) && i == |p.s|
    ensures SweepResult(p, i, now, freed, base, stage, false)
  {
    ListSoFar(p.s, Finds(p), i);
    TakenHaveReturned(p, i, i);
    NoneWaitsMeans(p, i);
    FlaggedAreTaken(p);
  }

  lemma {:induction false} SweepBlocks(p: Plan, i: nat, now: seq<Cell>, freed: set<Cell>, base: set<Cell>, stage: Stages)
    requires SweepAt(p, i, now, freed, base, stage) && i < |p.s| && Waits(p, i)
    ensures SweepResult(p, i, now, freed, base, StageAt(p, i + 1), true)
  {
    ListSoFar(p.s, Finds(p), i);
    TakenHaveReturned(p, i, i + 1);
  }

  /** The result of a visit, for the sweep as a whole. */
  lemma {:induction false} VisitResult(p: Plan, i: nat, now: seq<Cell>, freed: set<Cell>, base: set<Cell>, stage: Stages,
                                       now': seq<Cell>, freed': set<Cell>, stage': Stages, blocked: bool)
    requires SweepAt(p, i, now, freed, base, stage) && i < |p.s| && PlaceAt(p.s, Finds(p), i) < |now|
    requires Visited(p.s[i], PlaceAt(p.s, Finds(p), i), p.before(i), p.during(i), now, freed, stage, now', freed', stage', blocked)
    ensures if blocked then SweepResult(p, i, now', freed', base, stage', true) else SweepAt(p, i + 1, now', freed', base, stage')
  {
    VisitIsNext(p, i, now, freed, base, stage, now', freed', stage', blocked);
    if blocked {
      SweepBlocks(p, i, now, freed, base, stage);
    }
  }

  lemma {:induction false} ReturnedStays(p: Plan, i: nat, n: nat, r: Cell)
    requires i <= n && HasReturned(MovedAll(p.m, Played(p, i)), r)
    ensures HasReturned(MovedAll(p.m, Played(p, n)), r)
  {
    if i < n {
      ReturnedStays(p, i, n - 1, r);
      PlayedNext(p, n - 1);
      MovedAllAppend(p.m, Played(p, n - 1), p.before(n - 1));
      MovedAllIsLater(MovedAll(p.m, Played(p, n - 1)), p.before(n - 1));
      MovedAllAppend(p.m, Seen(p, n - 1), p.during(n - 1));
      MovedAllIsLater(MovedAll(p.m, Seen(p, n - 1)), p.during(n - 1));
    }
  }
}
