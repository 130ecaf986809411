/** The doubly linked list of queue.h. Its head has only the pointer to the first element; an element's back link is the
    address of the pointer that points to it, that is, the cell before it. */
module ListQueue {
  import opened TailQueue

  /** A well-formed list, head first. Unlike in a tail queue, nothing is said about the head's back link. */
  ghost predicate ListChain(c: seq<Cell>)
    reads c
  {
    && |c| > 0 && Distinct(c)
    && (forall i {:trigger c[i].next} :: 0 <= i < |c| ==> c[i].next == Succ(c, i))
    && (forall i {:trigger c[i].prev} :: 1 <= i < |c| ==> c[i].prev == c[i - 1])
  }

  /** `h` heads a well-formed list of the elements `s`. */
  ghost predicate List(h: Cell, s: seq<Cell>)
    reads h, s
  {
    ListChain([h] + s)
  }

  lemma {:induction false} ListSplicedIn(c: seq<Cell>, k: nat, elm: Cell)
    requires Distinct(c) && 1 <= k <= |c| && elm !in c
    requires elm.next == Succ(c, k - 1) && elm.prev == c[k - 1]
    requires forall i {:trigger c[i].next} :: 0 <= i < |c| ==> c[i].next == if i == k - 1 then elm else Succ(c, i)
    requires forall i {:trigger c[i].prev} :: 1 <= i < |c| ==> c[i].prev == if i == k then elm else c[i - 1]
    ensures ListChain(Inserted(c, k, elm))
  {
    var c' := Inserted(c, k, elm);
    assert Distinct(c');
    forall i | 0 <= i < |c'|
      ensures c'[i].next == Succ(c', i) && (i > 0 ==> c'[i].prev == c'[i - 1])
    {
      if i < k {
        assert c'[i] == c[i];
      } else if i > k {
        assert c'[i] == c[i - 1];
      }
    }
  }

  lemma {:induction false} ListSplicedOut(c: seq<Cell>, k: nat)
    requires Distinct(c) && 1 <= k < |c|
    requires forall i {:trigger c[i].next} :: 0 <= i < |c| && i != k ==>
               c[i].next == if i == k - 1 then Succ(c, k) else Succ(c, i)
    requires forall i {:trigger c[i].prev} :: 1 <= i < |c| && i != k ==>
               c[i].prev == if i == k + 1 then c[k - 1] else c[i - 1]
    ensures ListChain(Removed(c, k))
  {
    var c' := Removed(c, k);
    forall i | 0 <= i < |c'|
      ensures c'[i].next == Succ(c', i) && (i > 0 ==> c'[i].prev == c'[i - 1])
    {
      assert c'[i] == c[if i < k then i else i + 1];
    }
  }

  method ListInit(h: Cell)
    modifies h
    ensures List(h, [])
  {
    h.next := null;
  }

  method ListInsertHead(h: Cell, elm: Cell, ghost s: seq<Cell>)
    requires List(h, s) && elm !in [h] + s
    modifies h, elm, h.next
    ensures List(h, [elm] + s)
  {
    ghost var c := [h] + s;
    assert c[0] == h;
    elm.next := h.next;
    if elm.next != null {
      h.next.prev := elm;
    }
    h.next := elm;
    elm.prev := h;
    ListSplicedIn(c, 1, elm);
    assert Inserted(c, 1, elm) == [h] + ([elm] + s);
  }

  method ListInsertAfter(listelm: Cell, elm: Cell, ghost h: Cell, ghost s: seq<Cell>, ghost k: nat)
    requires List(h, s) && elm !in [h] + s && k < |s| && s[k] == listelm
    modifies elm, listelm, listelm.next
    ensures List(h, Inserted(s, k + 1, elm))
  {
    ghost var c := [h] + s;
    assert c[k + 1] == listelm;
    elm.next := listelm.next;
    if elm.next != null {
      listelm.next.prev := elm;
    }
    listelm.next := elm;
    elm.prev := listelm;
    ListSplicedIn(c, k + 2, elm);
    assert Inserted(c, k + 2, elm) == [h] + Inserted(s, k + 1, elm);
  }

  method ListInsertBefore(listelm: Cell, elm: Cell, ghost h: Cell, ghost s: seq<Cell>, ghost k: nat)
    requires List(h, s) && elm !in [h] + s && k < |s| && s[k] == listelm
    modifies elm, listelm, listelm.prev
    ensures List(h, Inserted(s, k, elm))
  {
    ghost var c := [h] + s;
    assert c[k + 1] == listelm;
    elm.prev := listelm.prev;
    elm.next := listelm;
    listelm.prev.next := elm;
    listelm.prev := elm;
    ListSplicedIn(c, k + 1, elm);
    assert Inserted(c, k + 1, elm) == [h] + Inserted(s, k, elm);
  }

  method ListRemove(elm: Cell, ghost h: Cell, ghost s: seq<Cell>, ghost k: nat)
    requires List(h, s) && k < |s| && s[k] == elm
    modifies elm.next, elm.prev
    ensures List(h, Removed(s, k))
  {
    ghost var c := [h] + s;
    assert c[k + 1] == elm;
    if elm.next != null {
      elm.next.prev := elm.prev;
    }
    elm.prev.next := elm.next;
    ListSplicedOut(c, k + 1);
    assert Removed(c, k + 1) == [h] + Removed(s, k);
  }

  /** Where a list insertion puts its cell: at the head, behind an element, or in front of one. */
  datatype Place = Front | Behind(k: nat, listelm: Cell) | InFront(k: nat, listelm: Cell)

  function ListLanding(place: Place): nat {
    match place
    case Front => 0
    case Behind(k, _) => k + 1
    case InFront(k, _) => k
  }

  method ListInsert(h: Cell, place: Place, elm: Cell, ghost s: seq<Cell>)
    requires List(h, s) && elm !in [h] + s
    requires !place.Front? ==> place.k < |s| && s[place.k] == place.listelm
    modifies h, s, elm
    ensures List(h, Inserted(s, ListLanding(place), elm))
  {
    ghost var c := [h] + s;
    assert c[0] == h;
    match place {
      case Front =>
        ListInsertHead(h, elm, s);
        assert Inserted(s, 0, elm) == [elm] + s;
      case Behind(k, listelm) =>
        assert c[k + 1] == listelm;
        ListInsertAfter(listelm, elm, h, s, k);
      case InFront(k, listelm) =>
        assert c[k + 1] == listelm;
        ListInsertBefore(listelm, elm, h, s, k);
    }
  }

  /** REMOVE undoes every insertion, into any list: all links are back where they were. */
  method ListInsertThenRemove(h: Cell, place: Place, elm: Cell, ghost s: seq<Cell>)
    requires List(h, s) && elm !in [h] + s
    requires !place.Front? ==> place.k < |s| && s[place.k] == place.listelm
    modifies h, s, elm
    ensures List(h, s)
    ensures forall i :: 0 <= i <= |s| ==> var c := ([h] + s)[i]; c.next == old(c.next) && (i > 0 ==> c.prev == old(c.prev))
  {
    ghost var c, k := [h] + s, ListLanding(place);
    assert c[0] == h;
    ListInsert(h, place, elm, s);
    ghost var s' := Inserted(s, k, elm);
    ghost var c' := [h] + s';
    assert c'[0] == h && c'[k + 1] == elm && elm.prev == c'[k] && elm.next == Succ(c', k + 1);
    ListRemove(elm, h, s', k);
    assert Removed(s', k) == s;
  }

  lemma {:induction false} ListJoined(c1: seq<Cell>, c2: seq<Cell>)
    requires c1 != [] && |c2| > 1 && Distinct(c1) && Distinct(c2) && Apart(c1, c2)
    requires forall i {:trigger c1[i].next} :: 0 <= i < |c1| ==> c1[i].next == if i + 1 == |c1| then c2[1] else c1[i + 1]
    requires forall i {:trigger c1[i].prev} :: 1 <= i < |c1| ==> c1[i].prev == c1[i - 1]
    requires forall i {:trigger c2[i].next} :: 1 <= i < |c2| ==> c2[i].next == Succ(c2, i)
    requires forall i {:trigger c2[i].prev} :: 1 <= i < |c2| ==> c2[i].prev == if i == 1 then c1[|c1| - 1] else c2[i - 1]
    ensures ListChain(c1 + c2[1..])
  {
    var c := c1 + c2[1..];
    forall i | 0 <= i < |c|
      ensures c[i].next == Succ(c, i) && (i > 0 ==> c[i].prev == c[i - 1])
    {
      if i < |c1| {
        assert c[i] == c1[i];
      } else {
        assert c[i] == c2[i - |c1| + 1];
      }
    }
  }

  /** LIST_CONCAT walks to the last element of the first list. */
  method ListConcat(h1: Cell, h2: Cell, ghost s1: seq<Cell>, ghost s2: seq<Cell>)
    requires List(h1, s1) && List(h2, s2) && Apart([h1] + s1, [h2] + s2)
    modifies h1, s1, h2, h2.next
    ensures List(h1, s1 + s2) && List(h2, [])
  {
    ghost var c1, c2 := [h1] + s1, [h2] + s2;
    assert c1[0] == h1 && c2[0] == h2;
    var curelm := h1.next;
    if curelm == null {
      h1.next := h2.next;
      if h1.next != null {
        h2.next.prev := h1;
        ListInit(h2);
        ListJoined(c1, c2);
      }
    } else if h2.next != null {
      ghost var n := 1;
      while curelm.next != null
        invariant curelm != null && 1 <= n < |c1| && curelm == c1[n]
        decreases |c1| - n
      {
        curelm := curelm.next;
        n := n + 1;
      }
      curelm.next := h2.next;
      h2.next.prev := curelm;
      ListInit(h2);
      ListJoined(c1, c2);
    }
    assert [h1] + (s1 + s2) == c1 + c2[1..];
  }

  lemma {:induction false} ListNewHead(h: Cell, c: seq<Cell>)
    requires c != [] && Distinct(c) && h !in c && h.next == Succ(c, 0)
    requires forall i {:trigger c[i].next} :: 1 <= i < |c| ==> c[i].next == Succ(c, i)
    requires forall i {:trigger c[i].prev} :: 1 <= i < |c| ==> c[i].prev == if i == 1 then h else c[i - 1]
    ensures ListChain([h] + c[1..])
  {
    var c' := [h] + c[1..];
    forall i | 0 <= i < |c'|
      ensures c'[i].next == Succ(c', i) && (i > 0 ==> c'[i].prev == c'[i - 1])
    {
      if i > 0 {
        assert c'[i] == c[i];
      }
    }
  }

  method ListSwap(h1: Cell, h2: Cell, ghost s1: seq<Cell>, ghost s2: seq<Cell>)
    requires List(h1, s1) && List(h2, s2) && Apart([h1] + s1, [h2] + s2)
    modifies h1, h2, h1.next, h2.next
    ensures List(h1, s2) && List(h2, s1)
  {
    ghost var c1, c2 := [h1] + s1, [h2] + s2;
    assert c1[0] == h1 && c2[0] == h2;
    var swapTmp := h1.next;
    h1.next := h2.next;
    h2.next := swapTmp;
    swapTmp := h1.next;
    if swapTmp != null {
      swapTmp.prev := h1;
    }
    swapTmp := h2.next;
    if swapTmp != null {
      swapTmp.prev := h2;
    }
    ListNewHead(h1, c2);
    ListNewHead(h2, c1);
    assert c1[1..] == s1 && c2[1..] == s2;
  }
}
