/** The singly linked tail queue of queue.h. Elements have no back link; the head remembers where the last `next`
    pointer is. */
module SinglyTailQueue {
  import opened TailQueue

  /** A well-formed chain, head first: forward links spell it out, and the head's second pointer is at the last cell. */
  ghost predicate SingleChain(c: seq<Cell>)
    reads c
  {
    && |c| > 0 && Distinct(c)
    && (forall i {:trigger c[i].next} :: 0 <= i < |c| ==> c[i].next == Succ(c, i))
    && c[0].prev == c[|c| - 1]
  }

  /** `h` heads a well-formed queue of the elements `s`. */
  ghost predicate SingleQueue(h: Cell, s: seq<Cell>)
    reads h, s
  {
    SingleChain([h] + s)
  }

  lemma {:induction false} SingleSplicedIn(c: seq<Cell>, k: nat, elm: Cell)
    requires Distinct(c) && 1 <= k <= |c| && elm !in c && elm.next == Succ(c, k - 1)
    requires forall i {:trigger c[i].next} :: 0 <= i < |c| ==> c[i].next == if i == k - 1 then elm else Succ(c, i)
    requires c[0].prev == if k == |c| then elm else c[|c| - 1]
    ensures SingleChain(Inserted(c, k, elm))
  {
    var c' := Inserted(c, k, elm);
    assert Distinct(c');
    forall i | 0 <= i < |c'|
      ensures c'[i].next == Succ(c', i)
    {
      if i < k {
        assert c'[i] == c[i];
      } else if i > k {
        assert c'[i] == c[i - 1];
      }
    }
  }

  lemma {:induction false} SingleSplicedOut(c: seq<Cell>, k: nat)
    requires Distinct(c) && 1 <= k < |c|
    requires forall i {:trigger c[i].next} :: 0 <= i < |c| && i != k ==>
               c[i].next == if i == k - 1 then Succ(c, k) else Succ(c, i)
    requires c[0].prev == if k + 1 == |c| then c[k - 1] else c[|c| - 1]
    ensures SingleChain(Removed(c, k))
  {
    var c' := Removed(c, k);
    forall i | 0 <= i < |c'|
      ensures c'[i].next == Succ(c', i)
    {
      assert c'[i] == c[if i < k then i else i + 1];
    }
  }

  method StailqInit(h: Cell)
    modifies h
    ensures SingleQueue(h, [])
  {
    h.next := null;
    h.prev := h;
  }

  method StailqInsertHead(h: Cell, elm: Cell, ghost s: seq<Cell>)
    requires SingleQueue(h, s) && elm !in [h] + s
    modifies h, elm
    ensures SingleQueue(h, [elm] + s)
  {
    ghost var c := [h] + s;
    assert c[0] == h;
    elm.next := h.next;
    if elm.next == null {
      h.prev := elm;
    }
    h.next := elm;
    SingleSplicedIn(c, 1, elm);
    assert Inserted(c, 1, elm) == [h] + ([elm] + s);
  }

  method StailqInsertTail(h: Cell, elm: Cell, ghost s: seq<Cell>)
    requires SingleQueue(h, s) && elm !in [h] + s
    modifies h, elm, h.prev
    ensures SingleQueue(h, s + [elm])
  {
    ghost var c := [h] + s;
    assert c[0] == h;
    elm.next := null;
    h.prev.next := elm;
    h.prev := elm;
    SingleSplicedIn(c, |c|, elm);
    assert Inserted(c, |c|, elm) == [h] + (s + [elm]);
  }

  method StailqInsertAfter(h: Cell, tqelm: Cell, elm: Cell, ghost s: seq<Cell>, ghost k: nat)
    requires SingleQueue(h, s) && elm !in [h] + s && k < |s| && s[k] == tqelm
    modifies h, elm, tqelm
    ensures SingleQueue(h, Inserted(s, k + 1, elm))
  {
    ghost var c := [h] + s;
    assert c[0] == h && c[k + 1] == tqelm;
    elm.next := tqelm.next;
    if elm.next == null {
      h.prev := elm;
    }
    tqelm.next := elm;
    SingleSplicedIn(c, k + 2, elm);
    assert Inserted(c, k + 2, elm) == [h] + Inserted(s, k + 1, elm);
  }

  method StailqRemoveHead(h: Cell, ghost s: seq<Cell>)
    requires SingleQueue(h, s) && s != []
    modifies h
    ensures SingleQueue(h, s[1..])
  {
    ghost var c := [h] + s;
    assert c[0] == h && c[1] == s[0];
    h.next := h.next.next;
    if h.next == null {
      h.prev := h;
    }
    SingleSplicedOut(c, 1);
    assert Removed(c, 1) == [h] + s[1..];
  }

  /** Removes the successor of `elm`. */
  method StailqRemoveAfter(h: Cell, elm: Cell, ghost s: seq<Cell>, ghost k: nat)
    requires SingleQueue(h, s) && k + 1 < |s| && s[k] == elm
    modifies h, elm
    ensures SingleQueue(h, Removed(s, k + 1))
  {
    ghost var c := [h] + s;
    assert c[0] == h && c[k + 1] == elm && c[k + 2] == s[k + 1];
    elm.next := elm.next.next;
    if elm.next == null {
      h.prev := elm;
    }
    SingleSplicedOut(c, k + 2);
    assert Removed(c, k + 2) == [h] + Removed(s, k + 1);
  }

  /** STAILQ_REMOVE walks from the first element to the predecessor of `elm`. */
  method StailqRemove(h: Cell, elm: Cell, ghost s: seq<Cell>, ghost k: nat)
    requires SingleQueue(h, s) && k < |s| && s[k] == elm
    modifies h, s
    ensures SingleQueue(h, Removed(s, k))
  {
    ghost var c := [h] + s;
    assert c[0] == h && c[1] == s[0] && c[k + 1] == elm;
    if h.next == elm {
      StailqRemoveHead(h, s);
      assert Removed(s, 0) == s[1..];
    } else {
      var curelm := h.next;
      ghost var n := 0;
      while curelm.next != elm
        invariant curelm != null && 0 <= n < k && curelm == c[n + 1]
        decreases k - n
      {
        curelm := curelm.next;
        n := n + 1;
      }
      assert c[n + 2] == elm;
      StailqRemoveAfter(h, curelm, s, n);
    }
  }

  /** STAILQ_LAST finds the element around the last `next` pointer, NULL when there is none. */
  method StailqLast(h: Cell, ghost s: seq<Cell>) returns (last: Cell?)
    requires SingleQueue(h, s)
    ensures last == if s == [] then null else s[|s| - 1]
  {
    ghost var c := [h] + s;
    assert c[0] == h;
    last := if h.next == null then null else h.prev;
  }

  /** STAILQ_FOREACH */
  method StailqForeach(h: Cell, ghost s: seq<Cell>) returns (visited: seq<Cell>)
    requires SingleQueue(h, s)
    ensures visited == s
  {
    ghost var c := [h] + s;
    assert c[0] == h;
    visited := [];
    var elm := h.next;
    while elm != null
      invariant |visited| <= |s| && visited == s[..|visited|]
      invariant elm == Succ(c, |visited|)
      decreases |s| - |visited|
    {
      assert elm == c[|visited| + 1];
      visited := visited + [elm];
      elm := elm.next;
    }
  }

  lemma {:induction false} SingleJoined(c1: seq<Cell>, c2: seq<Cell>)
    requires c1 != [] && |c2| > 1 && Distinct(c1) && Distinct(c2) && Apart(c1, c2)
    requires forall i {:trigger c1[i].next} :: 0 <= i < |c1| ==> c1[i].next == if i + 1 == |c1| then c2[1] else c1[i + 1]
    requires forall i {:trigger c2[i].next} :: 1 <= i < |c2| ==> c2[i].next == Succ(c2, i)
    requires c1[0].prev == c2[|c2| - 1]
    ensures SingleChain(c1 + c2[1..])
  {
    var c := c1 + c2[1..];
    forall i | 0 <= i < |c|
      ensures c[i].next == Succ(c, i)
    {
      if i < |c1| {
        assert c[i] == c1[i];
      } else {
        assert c[i] == c2[i - |c1| + 1];
      }
    }
  }

  method StailqConcat(h1: Cell, h2: Cell, ghost s1: seq<Cell>, ghost s2: seq<Cell>)
    requires SingleQueue(h1, s1) && SingleQueue(h2, s2) && Apart([h1] + s1, [h2] + s2)
    modifies h1, h2, h1.prev
    ensures SingleQueue(h1, s1 + s2) && SingleQueue(h2, [])
  {
    ghost var c1, c2 := [h1] + s1, [h2] + s2;
    assert c1[0] == h1 && c2[0] == h2;
    if h2.next != null {
      h1.prev.next := h2.next;
      h1.prev := h2.prev;
      StailqInit(h2);
      SingleJoined(c1, c2);
      assert [h1] + (s1 + s2) == c1 + c2[1..];
    } else {
      assert s1 + s2 == s1;
    }
  }

  lemma {:induction false} SingleNewHead(h: Cell, c: seq<Cell>)
    requires c != [] && Distinct(c) && h !in c && h.next == Succ(c, 0)
    requires h.prev == if |c| == 1 then h else c[|c| - 1]
    requires forall i {:trigger c[i].next} :: 1 <= i < |c| ==> c[i].next == Succ(c, i)
    ensures SingleChain([h] + c[1..])
  {
    var c' := [h] + c[1..];
    forall i | 0 <= i < |c'|
      ensures c'[i].next == Succ(c', i)
    {
      if i > 0 {
        assert c'[i] == c[i];
      }
    }
  }

  method StailqSwap(h1: Cell, h2: Cell, ghost s1: seq<Cell>, ghost s2: seq<Cell>)
    requires SingleQueue(h1, s1) && SingleQueue(h2, s2) && Apart([h1] + s1, [h2] + s2)
    modifies h1, h2
    ensures SingleQueue(h1, s2) && SingleQueue(h2, s1)
  {
    ghost var c1, c2 := [h1] + s1, [h2] + s2;
    assert c1[0] == h1 && c2[0] == h2;
    var swapFirst, swapLast := h1.next, h1.prev;
    h1.next := h2.next;
    h1.prev := h2.prev;
    h2.next := swapFirst;
    h2.prev := swapLast;
    if h1.next == null {
      h1.prev := h1;
    }
    if h2.next == null {
      h2.prev := h2;
    }
    SingleNewHead(h1, c2);
    SingleNewHead(h2, c1);
    assert c1[1..] == s1 && c2[1..] == s2;
  }

  /** Where an insertion puts its cell: at the head, at the tail, or behind an element. */
  datatype SinglePlace = Front | Back | Behind(k: nat, tqelm: Cell)

  function SingleLanding(n: nat, place: SinglePlace): nat {
    match place
    case Front => 0
    case Back => n
    case Behind(k, _) => k + 1
  }

  method StailqInsert(h: Cell, place: SinglePlace, elm: Cell, ghost s: seq<Cell>)
    requires SingleQueue(h, s) && elm !in [h] + s
    requires place.Behind? ==> place.k < |s| && s[place.k] == place.tqelm
    modifies h, s, elm
    ensures SingleQueue(h, Inserted(s, SingleLanding(|s|, place), elm))
  {
    ghost var c := [h] + s;
    assert c[0] == h;
    match place {
      case Front =>
        StailqInsertHead(h, elm, s);
        assert Inserted(s, 0, elm) == [elm] + s;
      case Back =>
        StailqInsertTail(h, elm, s);
        assert Inserted(s, |s|, elm) == s + [elm];
      case Behind(k, tqelm) =>
        StailqInsertAfter(h, tqelm, elm, s, k);
    }
  }

  /** The walking REMOVE undoes every insertion, into any queue: all links are back, and the last pointer with them. */
  method StailqInsertThenRemove(h: Cell, place: SinglePlace, elm: Cell, ghost s: seq<Cell>)
    requires SingleQueue(h, s) && elm !in [h] + s
    requires place.Behind? ==> place.k < |s| && s[place.k] == place.tqelm
    modifies h, s, elm
    ensures SingleQueue(h, s) && h.prev == old(h.prev)
    ensures forall i :: 0 <= i <= |s| ==> ([h] + s)[i].next == old(([h] + s)[i].next)
  {
    ghost var c, k := [h] + s, SingleLanding(|s|, place);
    assert c[0] == h;
    StailqInsert(h, place, elm, s);
    StailqRemove(h, elm, Inserted(s, k, elm), k);
    assert Removed(Inserted(s, k, elm), k) == s;
  }
}
