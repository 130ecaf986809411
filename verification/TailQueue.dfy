/** The tail queue of queue.h. A head and an entry have the same layout, a pointer to the next element and the address
    of the pointer that points here, so both are a Cell; the address of a cell's `next` field is the cell itself. */
module TailQueue {

  class Cell {
    var next: Cell?
    var prev: Cell?

    constructor ()
      ensures next == null && prev == null
    {
      next, prev := null, null;
    }
  }

  ghost predicate Distinct(c: seq<Cell>) {
    forall i, j :: 0 <= i < j < |c| ==> c[i] != c[j]
  }

  /** The cell after position `i` of a chain. */
  ghost function Succ(c: seq<Cell>, i: nat): Cell?
    requires i < |c|
  {
    if i + 1 < |c| then c[i + 1] else null
  }

  /** The cell that points to position `i`; behind the head comes the last cell. */
  ghost function Pred(c: seq<Cell>, i: nat): Cell
    requires i < |c|
  {
    c[if i == 0 then |c| - 1 else i - 1]
  }

  /** A well-formed chain, head first: forward links spell it out, back links aim at the cell that points here. */
  ghost predicate Chain(c: seq<Cell>)
    reads c
  {
    && |c| > 0 && Distinct(c)
    && (forall i {:trigger c[i].next} :: 0 <= i < |c| ==> c[i].next == Succ(c, i))
    && (forall i {:trigger c[i].prev} :: 0 <= i < |c| ==> c[i].prev == Pred(c, i))
  }

  /** `h` heads a well-formed queue of the elements `s`. */
  ghost predicate Queue(h: Cell, s: seq<Cell>)
    reads h, s
  {
    Chain([h] + s)
  }

  ghost function Inserted(c: seq<Cell>, k: nat, elm: Cell): seq<Cell>
    requires k <= |c|
  {
    c[..k] + [elm] + c[k..]
  }

  ghost function Removed(c: seq<Cell>, k: nat): seq<Cell>
    requires k < |c|
  {
    c[..k] + c[k + 1..]
  }

  /** Position `k` of a chain of `n` cells, the head coming after the last. */
  function Around(k: nat, n: nat): nat {
    if k < n then k else 0
  }

  /** A chain with `elm` linked in at position `k`, by four pointers and no others, is a chain. */
  lemma {:induction false} SplicedIn(c: seq<Cell>, k: nat, elm: Cell)
    requires Distinct(c) && 1 <= k <= |c| && elm !in c
    requires elm.next == Succ(c, k - 1) && elm.prev == c[k - 1]
    requires forall i {:trigger c[i].next} :: 0 <= i < |c| ==> c[i].next == if i == k - 1 then elm else Succ(c, i)
    requires forall i {:trigger c[i].prev} :: 0 <= i < |c| ==> c[i].prev == if i == Around(k, |c|) then elm else Pred(c, i)
    ensures Chain(Inserted(c, k, elm))
  {
    var c' := Inserted(c, k, elm);
    assert Distinct(c');
    forall i | 0 <= i < |c'|
      ensures c'[i].next == Succ(c', i) && c'[i].prev == Pred(c', i)
    {
      if i < k {
        assert c'[i] == c[i];
      } else if i > k {
        assert c'[i] == c[i - 1];
      }
    }
  }

  /** A chain with position `k` bypassed by two pointers is a chain without it. */
  lemma {:induction false} SplicedOut(c: seq<Cell>, k: nat)
    requires Distinct(c) && 1 <= k < |c|
    requires forall i {:trigger c[i].next} :: 0 <= i < |c| && i != k ==>
               c[i].next == if i == k - 1 then Succ(c, k) else Succ(c, i)
    requires forall i {:trigger c[i].prev} :: 0 <= i < |c| && i != k ==>
               c[i].prev == if i == Around(k + 1, |c|) then c[k - 1] else Pred(c, i)
    ensures Chain(Removed(c, k))
  {
    var c' := Removed(c, k);
    forall i | 0 <= i < |c'|
      ensures c'[i].next == Succ(c', i) && c'[i].prev == Pred(c', i)
    {
      assert c'[i] == c[if i < k then i else i + 1];
    }
  }

  method TailqInit(h: Cell)
    modifies h
    ensures Queue(h, [])
  {
    h.next := null;
    h.prev := h;
  }

  method InsertHead(h: Cell, elm: Cell, ghost s: seq<Cell>)
    requires Queue(h, s) && elm !in [h] + s
    modifies h, elm, h.next
    ensures Queue(h, [elm] + s)
  {
    ghost var c := [h] + s;
    assert c[0] == h;
    elm.next := h.next;
    if elm.next != null {
      h.next.prev := elm;
    } else {
      h.prev := elm;
    }
    h.next := elm;
    elm.prev := h;
    SplicedIn(c, 1, elm);
    assert Inserted(c, 1, elm) == [h] + ([elm] + s);
  }

  method InsertTail(h: Cell, elm: Cell, ghost s: seq<Cell>)
    requires Queue(h, s) && elm !in [h] + s
    modifies h, elm, h.prev
    ensures Queue(h, s + [elm])
  {
    ghost var c := [h] + s;
    assert c[0] == h;
    elm.next := null;
    elm.prev := h.prev;
    h.prev.next := elm;
    h.prev := elm;
    SplicedIn(c, |c|, elm);
    assert Inserted(c, |c|, elm) == [h] + (s + [elm]);
  }

  method InsertAfter(h: Cell, listelm: Cell, elm: Cell, ghost s: seq<Cell>, ghost k: nat)
    requires Queue(h, s) && elm !in [h] + s && k < |s| && s[k] == listelm
    modifies h, elm, listelm, listelm.next
    ensures Queue(h, Inserted(s, k + 1, elm))
  {
    ghost var c := [h] + s;
    assert c[0] == h && c[k + 1] == listelm;
    elm.next := listelm.next;
    if elm.next != null {
      elm.next.prev := elm;
    } else {
      h.prev := elm;
    }
    listelm.next := elm;
    elm.prev := listelm;
    SplicedIn(c, k + 2, elm);
    assert Inserted(c, k + 2, elm) == [h] + Inserted(s, k + 1, elm);
  }

  method InsertBefore(listelm: Cell, elm: Cell, ghost h: Cell, ghost s: seq<Cell>, ghost k: nat)
    requires Queue(h, s) && elm !in [h] + s && k < |s| && s[k] == listelm
    modifies elm, listelm, listelm.prev
    ensures Queue(h, Inserted(s, k, elm))
  {
    ghost var c := [h] + s;
    assert c[k + 1] == listelm;
    elm.prev := listelm.prev;
    elm.next := listelm;
    listelm.prev.next := elm;
    listelm.prev := elm;
    SplicedIn(c, k + 1, elm);
    assert Inserted(c, k + 1, elm) == [h] + Inserted(s, k, elm);
  }

  method Remove(h: Cell, elm: Cell, ghost s: seq<Cell>, ghost k: nat)
    requires Queue(h, s) && k < |s| && s[k] == elm
    modifies h, elm.next, elm.prev
    ensures Queue(h, Removed(s, k))
  {
    ghost var c := [h] + s;
    assert c[0] == h && c[k + 1] == elm;
    if elm.next != null {
      elm.next.prev := elm.prev;
    } else {
      h.prev := elm.prev;
    }
    elm.prev.next := elm.next;
    SplicedOut(c, k + 1);
    assert Removed(c, k + 1) == [h] + Removed(s, k);
  }

  ghost predicate Apart(c1: seq<Cell>, c2: seq<Cell>) {
    forall i, j :: 0 <= i < |c1| && 0 <= j < |c2| ==> c1[i] != c2[j]
  }

  /** The elements of a second queue, linked behind the cells of a first, continue it. */
  lemma {:induction false} Joined(c1: seq<Cell>, c2: seq<Cell>)
    requires c1 != [] && |c2| > 1 && Distinct(c1) && Distinct(c2) && Apart(c1, c2)
    requires forall i {:trigger c1[i].next} :: 0 <= i < |c1| ==> c1[i].next == if i + 1 == |c1| then c2[1] else c1[i + 1]
    requires forall i {:trigger c1[i].prev} :: 0 <= i < |c1| ==> c1[i].prev == if i == 0 then c2[|c2| - 1] else c1[i - 1]
    requires forall i {:trigger c2[i].next} :: 1 <= i < |c2| ==> c2[i].next == Succ(c2, i)
    requires forall i {:trigger c2[i].prev} :: 1 <= i < |c2| ==> c2[i].prev == if i == 1 then c1[|c1| - 1] else c2[i - 1]
    ensures Chain(c1 + c2[1..])
  {
    var c := c1 + c2[1..];
    forall i | 0 <= i < |c|
      ensures c[i].next == Succ(c, i) && c[i].prev == Pred(c, i)
    {
      if i < |c1| {
        assert c[i] == c1[i];
      } else {
        assert c[i] == c2[i - |c1| + 1];
      }
    }
  }

  method Concat(h1: Cell, h2: Cell, ghost s1: seq<Cell>, ghost s2: seq<Cell>)
    requires Queue(h1, s1) && Queue(h2, s2) && Apart([h1] + s1, [h2] + s2)
    modifies h1, h2, h1.prev, h2.next
    ensures Queue(h1, s1 + s2) && Queue(h2, [])
  {
    ghost var c1, c2 := [h1] + s1, [h2] + s2;
    assert c1[0] == h1 && c2[0] == h2;
    if h2.next != null {
      h1.prev.next := h2.next;
      h2.next.prev := h1.prev;
      h1.prev := h2.prev;
      TailqInit(h2);
      Joined(c1, c2);
      assert [h1] + (s1 + s2) == c1 + c2[1..];
    } else {
      assert s1 + s2 == s1;
    }
  }

  /** The elements of a queue under another head. */
  lemma {:induction false} NewHead(h: Cell, c: seq<Cell>)
    requires c != [] && Distinct(c) && h !in c
    requires h.next == Succ(c, 0) && h.prev == if |c| == 1 then h else c[|c| - 1]
    requires forall i {:trigger c[i].next} :: 1 <= i < |c| ==> c[i].next == Succ(c, i)
    requires forall i {:trigger c[i].prev} :: 1 <= i < |c| ==> c[i].prev == if i == 1 then h else c[i - 1]
    ensures Chain([h] + c[1..])
  {
    var c' := [h] + c[1..];
    forall i | 0 <= i < |c'|
      ensures c'[i].next == Succ(c', i) && c'[i].prev == Pred(c', i)
    {
      if i > 0 {
        assert c'[i] == c[i];
      }
    }
  }

  method Swap(h1: Cell, h2: Cell, ghost s1: seq<Cell>, ghost s2: seq<Cell>)
    requires Queue(h1, s1) && Queue(h2, s2) && Apart([h1] + s1, [h2] + s2)
    modifies h1, h2, h1.next, h2.next
    ensures Queue(h1, s2) && Queue(h2, s1)
  {
    ghost var c1, c2 := [h1] + s1, [h2] + s2;
    assert c1[0] == h1 && c2[0] == h2;
    var swapFirst, swapLast := h1.next, h1.prev;
    h1.next := h2.next;
    h1.prev := h2.prev;
    h2.next := swapFirst;
    h2.prev := swapLast;
    swapFirst := h1.next;
    if swapFirst != null {
      swapFirst.prev := h1;
    } else {
      h1.prev := h1;
    }
    swapFirst := h2.next;
    if swapFirst != null {
      swapFirst.prev := h2;
    } else {
      h2.prev := h2;
    }
    NewHead(h1, c2);
    NewHead(h2, c1);
    assert c1[1..] == s1 && c2[1..] == s2;
  }

  // ----- walking

  function Reverse(s: seq<Cell>): seq<Cell> {
    if s == [] then [] else [s[|s| - 1]] + Reverse(s[..|s| - 1])
  }

  lemma {:induction false} ReverseAt(s: seq<Cell>, i: nat)
    requires i < |s|
    ensures |Reverse(s)| == |s| && Reverse(s)[i] == s[|s| - 1 - i]
  {
    var front := s[..|s| - 1];
    if |front| > 0 {
      ReverseAt(front, if i > 0 then i - 1 else 0);
    }
  }

  /** TAILQ_FOREACH */
  method Foreach(h: Cell, ghost s: seq<Cell>) returns (visited: seq<Cell>)
    requires Queue(h, s)
    ensures visited == s
  {
    ghost var c := [h] + s;
    assert c[0] == h;
    visited := [];
    var elm := h.next;
    while elm != null
      invariant |visited| <= |s| && visited == s[..|visited|]
      invariant elm == Succ(c, |visited|)
      decreases |s| - |visited|
    {
      assert elm == c[|visited| + 1];
      visited := visited + [elm];
      elm := elm.next;
    }
  }

  /** TAILQ_LAST and TAILQ_PREV read the cell before as if it were a head, taking its `prev` for the address of a last
      `next` field. From the head that leads to the last element, from an element to its predecessor; it leads to NULL
      from the first element and from the head of an empty queue. */
  lemma {:induction false} LastAndPrev(c: seq<Cell>, i: nat)
    requires Chain(c) && i < |c|
    ensures c[i].prev != null && c[i].prev.prev != null
    ensures c[i].prev.prev.next == if i == 1 || |c| == 1 then null else Pred(c, i)
  {
    var j := if i == 0 then |c| - 1 else i - 1;
    assert c[i].prev == c[j];
    var k := if j == 0 then |c| - 1 else j - 1;
    assert c[j].prev == c[k];
    assert c[k].next == Succ(c, k);
  }

  /** TAILQ_FOREACH_REVERSE: the walk back visits the elements in reverse order and then stops. */
  method ForeachReverse(h: Cell, ghost s: seq<Cell>) returns (visited: seq<Cell>)
    requires Queue(h, s)
    ensures visited == Reverse(s)
  {
    ghost var c := [h] + s;
    assert c[0] == h;
    LastAndPrev(c, 0);
    visited := [];
    var elm := h.prev.prev.next;
    ghost var n := |s|;
    assert s[..n] == s;
    while elm != null
      invariant 0 <= n <= |s| && visited + Reverse(s[..n]) == Reverse(s)
      invariant elm == if n == 0 then null else c[n]
      decreases n
    {
      assert s[..n][..n - 1] == s[..n - 1];
      LastAndPrev(c, n);
      visited := visited + [elm];
      elm := elm.prev.prev.next;
      n := n - 1;
    }
  }

  // ----- any number of queues, any sequence of operations

  datatype Op =
    | Reset(q: nat)
    | AtHead(q: nat, elm: Cell)
    | AtTail(q: nat, elm: Cell)
    | After(q: nat, k: nat, listelm: Cell, elm: Cell)
    | Before(q: nat, k: nat, listelm: Cell, elm: Cell)
    | Take(q: nat, k: nat, listelm: Cell)
    | Append(q: nat, r: nat)
    | Exchange(q: nat, r: nat)

  /** Every cell of a family of queues. */
  ghost function Cells(heads: seq<Cell>, views: seq<seq<Cell>>): set<Cell> {
    (set h | h in heads) + (set q, i | 0 <= q < |views| && 0 <= i < |views[q]| :: views[q][i])
  }

  /** No cell is in two queues. */
  ghost predicate Separate(heads: seq<Cell>, views: seq<seq<Cell>>) {
    && |heads| == |views|
    && forall p, q :: 0 <= p < |heads| && 0 <= q < |heads| && p != q ==>
         Apart([heads[p]] + views[p], [heads[q]] + views[q])
  }

  ghost predicate Family(heads: seq<Cell>, views: seq<seq<Cell>>)
    reads Cells(heads, views)
  {
    && Separate(heads, views)
    && forall q :: 0 <= q < |heads| ==> Queue(heads[q], views[q])
  }

  /** The operation on the sequence of the queue it names first. */
  ghost function Edit(s: seq<Cell>, op: Op): seq<Cell> {
    match op
    case Reset(_) => []
    case AtHead(_, elm) => [elm] + s
    case AtTail(_, elm) => s + [elm]
    case After(_, k, _, elm) => if k < |s| then Inserted(s, k + 1, elm) else s
    case Before(_, k, _, elm) => if k < |s| then Inserted(s, k, elm) else s
    case Take(_, k, _) => if k < |s| then Removed(s, k) else s
    case Append(_, _) => s
    case Exchange(_, _) => s
  }

  /** The operation on all the sequences. */
  ghost function Meaning(views: seq<seq<Cell>>, op: Op): seq<seq<Cell>>
    requires op.q < |views| && (op.Append? || op.Exchange? ==> op.r < |views|)
  {
    match op
    case Append(q, r) => views[q := views[q] + views[r]][r := []]
    case Exchange(q, r) => views[q := views[r]][r := views[q]]
    case _ => views[op.q := Edit(views[op.q], op)]
  }

  ghost function Operand(op: Op): set<Cell> {
    if op.AtHead? || op.AtTail? || op.After? || op.Before? then {op.elm} else {}
  }

  /** What a caller must respect: the named element is where the operation says, and only unused cells are inserted. */
  ghost predicate Legal(heads: seq<Cell>, views: seq<seq<Cell>>, op: Op) {
    && op.q < |views| == |heads|
    && (op.After? || op.Before? || op.Take? ==> op.k < |views[op.q]| && views[op.q][op.k] == op.listelm)
    && (op.Append? || op.Exchange? ==> op.r < |views| && op.q != op.r)
    && forall p :: 0 <= p < |views| ==> forall x :: x in Operand(op) ==> x !in [heads[p]] + views[p]
  }

  /** What the operations on one queue do to its elements, place by place; the other queues stay as they are. */
  lemma {:induction false} MeaningOnOne(heads: seq<Cell>, views: seq<seq<Cell>>, op: Op)
    requires Legal(heads, views, op) && !op.Append? && !op.Exchange?
    ensures |Meaning(views, op)| == |views|
    ensures forall p :: 0 <= p < |views| && p != op.q ==> Meaning(views, op)[p] == views[p]
    ensures var s, s' := views[op.q], Meaning(views, op)[op.q];
            match op
            case Reset(_) => s' == []
            case AtHead(_, elm) => |s'| == |s| + 1 && s'[0] == elm && forall i :: 0 <= i < |s| ==> s'[i + 1] == s[i]
            case AtTail(_, elm) => |s'| == |s| + 1 && s'[|s|] == elm && forall i :: 0 <= i < |s| ==> s'[i] == s[i]
            case After(_, k, _, elm) =>
              |s'| == |s| + 1 && s'[k + 1] == elm && forall i :: 0 <= i < |s| ==> s'[if i <= k then i else i + 1] == s[i]
            case Before(_, k, _, elm) =>
              |s'| == |s| + 1 && s'[k] == elm && forall i :: 0 <= i < |s| ==> s'[if i < k then i else i + 1] == s[i]
            case Take(_, k, listelm) =>
              && |s'| == |s| - 1 && (forall i :: 0 <= i < |s| && i != k ==> s'[if i < k then i else i - 1] == s[i])
              && (Distinct(s) ==> listelm !in s')
            case _ => true
  {
  }

  /** What concatenation and swap do, place by place; the other queues stay as they are. */
  lemma {:induction false} MeaningOnTwo(heads: seq<Cell>, views: seq<seq<Cell>>, op: Op)
    requires Legal(heads, views, op) && (op.Append? || op.Exchange?)
    ensures |Meaning(views, op)| == |views|
    ensures forall p :: 0 <= p < |views| && p != op.q && p != op.r ==> Meaning(views, op)[p] == views[p]
    ensures var s, t, s', t' := views[op.q], views[op.r], Meaning(views, op)[op.q], Meaning(views, op)[op.r];
            if op.Append?
            then |s'| == |s| + |t| && t' == [] &&
                 forall i :: 0 <= i < |s'| ==> s'[i] == if i < |s| then s[i] else t[i - |s|]
            else s' == t && t' == s
  {
  }

  method PerformOnOne(h: Cell, op: Op, ghost s: seq<Cell>)
    requires Queue(h, s) && !op.Append? && !op.Exchange?
    requires op.After? || op.Before? || op.Take? ==> op.k < |s| && s[op.k] == op.listelm
    requires forall x :: x in Operand(op) ==> x !in [h] + s
    modifies h, s, Operand(op)
    ensures Queue(h, Edit(s, op))
  {
    ghost var c := [h] + s;
    assert c[0] == h;
    match op {
      case Reset(_) => TailqInit(h);
      case AtHead(_, elm) => InsertHead(h, elm, s);
      case AtTail(_, elm) => InsertTail(h, elm, s);
      case After(_, k, listelm, elm) =>
        assert c[k + 1] == listelm;
        InsertAfter(h, listelm, elm, s, k);
      case Before(_, k, listelm, elm) =>
        assert c[k + 1] == listelm;
        InsertBefore(listelm, elm, h, s, k);
      case Take(_, k, listelm) =>
        assert c[k + 1] == listelm;
        Remove(h, listelm, s, k);
    }
  }

  predicate IsInsert(op: Op) {
    op.AtHead? || op.AtTail? || op.After? || op.Before?
  }

  /** Where an insertion puts its cell. */
  function Landing(n: nat, op: Op): nat
    requires IsInsert(op)
  {
    match op
    case AtHead(_, _) => 0
    case AtTail(_, _) => n
    case After(_, k, _, _) => k + 1
    case Before(_, k, _, _) => k
  }

  lemma {:induction false} EditIsInserted(s: seq<Cell>, op: Op)
    requires IsInsert(op) && (op.After? || op.Before? ==> op.k < |s|)
    ensures Landing(|s|, op) <= |s| && Edit(s, op) == Inserted(s, Landing(|s|, op), op.elm)
    ensures Removed(Edit(s, op), Landing(|s|, op)) == s
  {
  }

  method RemoveAt(h: Cell, elm: Cell, ghost s: seq<Cell>, ghost k: nat)
    requires Queue(h, s) && k < |s| && s[k] == elm
    modifies h, s
    ensures Queue(h, Removed(s, k))
  {
    ghost var c := [h] + s;
    assert c[0] == h && c[k + 1] == elm;
    Remove(h, elm, s, k);
  }

  /** REMOVE undoes every insertion, into any queue: all links are back where they were. */
  method InsertThenRemove(h: Cell, op: Op, ghost s: seq<Cell>)
    requires Queue(h, s) && IsInsert(op) && op.elm !in [h] + s
    requires op.After? || op.Before? ==> op.k < |s| && s[op.k] == op.listelm
    modifies h, s, op.elm
    ensures Queue(h, s)
    ensures forall i :: 0 <= i <= |s| ==> var c := ([h] + s)[i]; c.next == old(c.next) && c.prev == old(c.prev)
  {
    ghost var c := [h] + s;
    assert forall i :: 0 <= i < |c| ==> c[i].next == Succ(c, i) && c[i].prev == Pred(c, i);
    EditIsInserted(s, op);
    PerformOnOne(h, op, s);
    RemoveAt(h, op.elm, Edit(s, op), Landing(|s|, op));
  }

  method PerformOnTwo(h1: Cell, h2: Cell, op: Op, ghost s1: seq<Cell>, ghost s2: seq<Cell>)
    requires Queue(h1, s1) && Queue(h2, s2) && Apart([h1] + s1, [h2] + s2) && (op.Append? || op.Exchange?)
    modifies h1, s1, h2, s2
    ensures op.Append? ==> Queue(h1, s1 + s2) && Queue(h2, [])
    ensures op.Exchange? ==> Queue(h1, s2) && Queue(h2, s1)
  {
    ghost var c1, c2 := [h1] + s1, [h2] + s2;
    assert c1[0] == h1 && c2[0] == h2;
    if op.Append? {
      Concat(h1, h2, s1, s2);
    } else {
      Swap(h1, h2, s1, s2);
    }
  }

  /** Queue `q` gets cells of its own or an unused one: the queues stay separate. */
  lemma {:induction false} SeparateAfterEdit(heads: seq<Cell>, views: seq<seq<Cell>>, q: nat, s: seq<Cell>, unused: set<Cell>)
    requires Separate(heads, views) && q < |views|
    requires forall x :: x in s ==> x in views[q] || x in unused
    requires forall p :: 0 <= p < |views| ==> forall x :: x in unused ==> x !in [heads[p]] + views[p]
    ensures Separate(heads, views[q := s])
  {
    var views' := views[q := s];
    forall p | 0 <= p < |heads| && p != q
      ensures Apart([heads[p]] + views[p], [heads[q]] + s)
    {
      var c, c' := [heads[p]] + views[p], [heads[q]] + views[q];
      assert Apart(c, c');
      forall i, j | 0 <= i < |c| && 0 <= j < |[heads[q]] + s|
        ensures c[i] != ([heads[q]] + s)[j]
      {
        var x := ([heads[q]] + s)[j];
        assert j > 0 ==> x == s[j - 1] && x in s;
        if x in c' {
          var k :| 0 <= k < |c'| && c'[k] == x;
        } else {
          assert x in unused && x !in c;
        }
      }
    }
  }

  lemma {:induction false} ApartMembers(c1: seq<Cell>, c2: seq<Cell>)
    ensures Apart(c1, c2) <==> forall x :: x in c1 ==> x !in c2
  {
    if forall x :: x in c1 ==> x !in c2 {
      assert forall i, j :: 0 <= i < |c1| && 0 <= j < |c2| ==> c1[i] in c1 && c2[j] in c2;
    }
  }

  /** Queues `q` and `r` share their elements out anew. */
  lemma {:induction false} SeparateAfterShare(heads: seq<Cell>, views: seq<seq<Cell>>, q: nat, r: nat, s: seq<Cell>, t: seq<Cell>)
    requires Separate(heads, views) && q < |views| && r < |views| && q != r
    requires forall x :: x in s ==> x in views[q] || x in views[r]
    requires forall x :: x in t ==> x in views[q] || x in views[r]
    requires Apart([heads[q]] + s, [heads[r]] + t)
    ensures Separate(heads, views[q := s][r := t])
  {
    ApartMembers([heads[q]] + s, [heads[r]] + t);
    ApartMembers([heads[r]] + t, [heads[q]] + s);
    forall p | 0 <= p < |heads| && p != q && p != r
      ensures Apart([heads[p]] + views[p], [heads[q]] + s) && Apart([heads[q]] + s, [heads[p]] + views[p])
      ensures Apart([heads[p]] + views[p], [heads[r]] + t) && Apart([heads[r]] + t, [heads[p]] + views[p])
    {
      var c := [heads[p]] + views[p];
      ApartMembers(c, [heads[q]] + views[q]);
      ApartMembers(c, [heads[r]] + views[r]);
      assert Apart(c, [heads[q]] + views[q]) && Apart(c, [heads[r]] + views[r]);
      ApartMembers(c, [heads[q]] + s);
      ApartMembers(c, [heads[r]] + t);
      ApartMembers([heads[q]] + s, c);
      ApartMembers([heads[r]] + t, c);
    }
  }

  lemma {:induction false} ShareApart(h1: Cell, s1: seq<Cell>, h2: Cell, s2: seq<Cell>)
    requires Distinct([h1] + s1) && Distinct([h2] + s2) && Apart([h1] + s1, [h2] + s2)
    ensures Apart([h1] + (s1 + s2), [h2] + [])
    ensures Apart([h1] + s2, [h2] + s1)
  {
    var c1, c2 := [h1] + s1, [h2] + s2;
    ApartMembers(c1, c2);
    assert forall x :: x in s1 ==> x in c1 && x != h1 by {
      assert forall i :: 0 <= i < |s1| ==> s1[i] == c1[i + 1] && c1[0] == h1;
    }
    assert forall x :: x in s2 ==> x in c2 && x != h2 by {
      assert forall i :: 0 <= i < |s2| ==> s2[i] == c2[i + 1] && c2[0] == h2;
    }
    assert h1 in c1 && h2 in c2;
    ApartMembers([h1] + (s1 + s2), [h2] + []);
    ApartMembers([h1] + s2, [h2] + s1);
    assert forall x :: x in [h1] + (s1 + s2) ==> x !in [h2] + [];
    assert forall x :: x in [h1] + s2 ==> x !in [h2] + s1;
  }

  lemma {:induction false} OtherCells(heads: seq<Cell>, views: seq<seq<Cell>>, q: nat)
    requires Separate(heads, views) && q < |heads|
    ensures forall p, x :: 0 <= p < |heads| && p != q && x in [heads[p]] + views[p] ==> x !in [heads[q]] + views[q]
  {
    forall p | 0 <= p < |heads| && p != q
      ensures forall x :: x in [heads[p]] + views[p] ==> x !in [heads[q]] + views[q]
    {
      ApartMembers([heads[p]] + views[p], [heads[q]] + views[q]);
      assert Apart([heads[p]] + views[p], [heads[q]] + views[q]);
    }
  }

  method PerformOnPair(heads: seq<Cell>, op: Op, ghost views: seq<seq<Cell>>)
    requires Family(heads, views) && Legal(heads, views, op) && (op.Append? || op.Exchange?)
    modifies Cells(heads, views)
    ensures Family(heads, Meaning(views, op))
  {
    ghost var q, r, s, t := op.q, op.r, views[op.q], views[op.r];
    assert Queue(heads[q], s) && Queue(heads[r], t) && Apart([heads[q]] + s, [heads[r]] + t);
    OtherCells(heads, views, q);
    OtherCells(heads, views, r);
    PerformOnTwo(heads[op.q], heads[op.r], op, s, t);
    forall p | 0 <= p < |heads| && p != q && p != r
      ensures Queue(heads[p], views[p])
    {
      ghost var c := [heads[p]] + views[p];
      assert old(Queue(heads[p], views[p]));
      forall i | 0 <= i < |c|
        ensures c[i].next == old(c[i].next) && c[i].prev == old(c[i].prev)
      {
        assert c[i] in c && c[i] !in [heads[q]] + s && c[i] !in [heads[r]] + t;
      }
    }
    ShareApart(heads[q], s, heads[r], t);
    if op.Append? {
      SeparateAfterShare(heads, views, q, r, s + t, []);
    } else {
      SeparateAfterShare(heads, views, q, r, t, s);
    }
  }

  method PerformOnSingle(heads: seq<Cell>, op: Op, ghost views: seq<seq<Cell>>)
    requires Family(heads, views) && Legal(heads, views, op) && !op.Append? && !op.Exchange?
    modifies Cells(heads, views), Operand(op)
    ensures Family(heads, Meaning(views, op))
  {
    ghost var q, s := op.q, views[op.q];
    assert Queue(heads[q], s);
    OtherCells(heads, views, q);
    PerformOnOne(heads[op.q], op, s);
    forall p | 0 <= p < |heads| && p != q
      ensures Queue(heads[p], views[p])
    {
      ghost var c := [heads[p]] + views[p];
      assert old(Queue(heads[p], views[p]));
      forall i | 0 <= i < |c|
        ensures c[i].next == old(c[i].next) && c[i].prev == old(c[i].prev)
      {
        assert c[i] in c && c[i] !in [heads[q]] + s && c[i] !in Operand(op);
      }
    }
    SeparateAfterEdit(heads, views, q, Edit(s, op), Operand(op));
  }

  /** Any legal operation on one of several queues turns the family into the family of the new sequences; the queues it
      does not name are not touched. */
  method Perform(heads: seq<Cell>, op: Op, ghost views: seq<seq<Cell>>)
    requires Family(heads, views) && Legal(heads, views, op)
    modifies Cells(heads, views), Operand(op)
    ensures Family(heads, Meaning(views, op))
  {
    if op.Append? || op.Exchange? {
      PerformOnPair(heads, op, views);
    } else {
      PerformOnSingle(heads, op, views);
    }
  }

  ghost predicate LegalRun(heads: seq<Cell>, views: seq<seq<Cell>>, ops: seq<Op>)
    decreases |ops|
  {
    ops == [] || (Legal(heads, views, ops[0]) && LegalRun(heads, Meaning(views, ops[0]), ops[1..]))
  }

  ghost function MeaningOfRun(heads: seq<Cell>, views: seq<seq<Cell>>, ops: seq<Op>): seq<seq<Cell>>
    requires LegalRun(heads, views, ops)
    decreases |ops|
  {
    if ops == [] then views else MeaningOfRun(heads, Meaning(views, ops[0]), ops[1..])
  }

  /** A run that goes on with one more operation. */
  lemma {:induction false} RunGoesOn(heads: seq<Cell>, views: seq<seq<Cell>>, ops: seq<Op>, op: Op)
    requires LegalRun(heads, views, ops + [op])
    ensures LegalRun(heads, views, ops) && Legal(heads, MeaningOfRun(heads, views, ops), op)
    ensures MeaningOfRun(heads, views, ops + [op]) == Meaning(MeaningOfRun(heads, views, ops), op)
    decreases |ops|
  {
    if ops == [] {
      assert ops + [op] == [op] && [op][1..] == [];
    } else {
      assert (ops + [op])[1..] == ops[1..] + [op];
      RunGoesOn(heads, Meaning(views, ops[0]), ops[1..], op);
    }
  }

  lemma {:induction false} CellsAfter(heads: seq<Cell>, views: seq<seq<Cell>>, op: Op)
    requires Legal(heads, views, op)
    ensures Cells(heads, Meaning(views, op)) <= Cells(heads, views) + Operand(op)
  {
    var views' := Meaning(views, op);
    forall q, i | 0 <= q < |views'| && 0 <= i < |views'[q]|
      ensures views'[q][i] in Cells(heads, views) + Operand(op)
    {
      var x := views'[q][i];
      if x !in Operand(op) {
        if op.Append? || op.Exchange? {
          assert x in views[op.q] || x in views[op.r] || x in views[q];
        } else {
          assert x in views[op.q] || x in views[q];
        }
        assert forall p :: 0 <= p < |views| && x in views[p] ==> exists j :: 0 <= j < |views[p]| && views[p][j] == x;
      }
    }
  }

  /** TAILQ_INIT on several heads. */
  method InitAll(heads: seq<Cell>)
    requires Distinct(heads)
    modifies heads
    ensures Family(heads, seq(|heads|, _ => []))
  {
    for n := 0 to |heads|
      invariant forall q :: 0 <= q < n ==> heads[q].next == null && heads[q].prev == heads[q]
    {
      TailqInit(heads[n]);
      assert ([heads[n]] + [])[0] == heads[n];
    }
  }

  /** Every sequence of operations, on any number of queues, has its meaning on sequences. */
  method Execute(heads: seq<Cell>, ops: seq<Op>, ghost views: seq<seq<Cell>>, ghost pool: set<Cell>)
    requires Family(heads, views) && LegalRun(heads, views, ops)
    requires Cells(heads, views) <= pool && forall i :: 0 <= i < |ops| ==> Operand(ops[i]) <= pool
    modifies pool
    ensures Family(heads, MeaningOfRun(heads, views, ops))
    decreases |ops|
  {
    if ops != [] {
      CellsAfter(heads, views, ops[0]);
      Perform(heads, ops[0], views);
      Execute(heads, ops[1..], Meaning(views, ops[0]), pool);
    }
  }

  /** After any run the walk back from the last element is the forward walk reversed. */
  method WalksAfterRun(heads: seq<Cell>, ops: seq<Op>, q: nat, ghost views: seq<seq<Cell>>, ghost pool: set<Cell>)
    returns (forward: seq<Cell>, backward: seq<Cell>)
    requires Family(heads, views) && LegalRun(heads, views, ops) && q < |heads|
    requires Cells(heads, views) <= pool && forall i :: 0 <= i < |ops| ==> Operand(ops[i]) <= pool
    modifies pool
    ensures q < |MeaningOfRun(heads, views, ops)| && forward == MeaningOfRun(heads, views, ops)[q]
    ensures backward == Reverse(forward)
  {
    Execute(heads, ops, views, pool);
    ghost var s := MeaningOfRun(heads, views, ops)[q];
    assert Queue(heads[q], s);
    forward := Foreach(heads[q], s);
    backward := ForeachReverse(heads[q], s);
  }
}
