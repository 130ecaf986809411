/** Byte strings, their newline structure and their concatenation. */
module Bytes {

  newtype Byte = b: int | 0 <= b < 256

  const NEWLINE: Byte := 10

  datatype Option<+T> = None | Some(value: T)

  function Min(a: int, b: int): int {
    if a <= b then a else b
  }

  function Flatten(ss: seq<seq<Byte>>): seq<Byte> {
    if ss == [] then [] else ss[0] + Flatten(ss[1..])
  }

  lemma {:induction false} FlattenAppend(a: seq<seq<Byte>>, b: seq<seq<Byte>>)
    ensures Flatten(a + b) == Flatten(a) + Flatten(b)
  {
    if a == [] {
      assert a + b == b;
    } else {
      assert (a + b)[1..] == a[1..] + b;
      FlattenAppend(a[1..], b);
    }
  }

  lemma {:induction false} FlattenCons(s: seq<Byte>, ss: seq<seq<Byte>>)
    ensures Flatten([s] + ss) == s + Flatten(ss)
  {
    assert ([s] + ss)[1..] == ss;
  }

  lemma {:induction false} FlattenSingle(s: seq<Byte>)
    ensures Flatten([s]) == s
  {
    assert [s][1..] == [];
  }

  /** No newline anywhere. */
  predicate Clean(s: seq<Byte>) {
    forall i :: 0 <= i < |s| ==> s[i] != NEWLINE
  }

  function FirstNewlineFrom(s: seq<Byte>, i: nat): (k: nat)
    requires i <= |s|
    ensures i <= k <= |s|
    ensures forall j :: i <= j < k ==> s[j] != NEWLINE
    ensures k < |s| ==> s[k] == NEWLINE
    decreases |s| - i
  {
    if i == |s| || s[i] == NEWLINE then i else FirstNewlineFrom(s, i + 1)
  }

  /** Position of the first newline, or the length when there is none. */
  function FirstNewline(s: seq<Byte>): nat {
    FirstNewlineFrom(s, 0)
  }

  /** The bytes up to and including the first newline; everything when there is none. */
  function UpToNewline(s: seq<Byte>): (r: seq<Byte>)
    ensures Clean(s) ==> r == s
    ensures !Clean(s) ==> IsLine(r) && r <= s
  {
    var k := FirstNewline(s);
    if k < |s| then s[..k + 1] else s
  }

  /** The bytes after the first newline. */
  function AfterNewline(s: seq<Byte>): (r: seq<Byte>)
    requires !Clean(s)
    ensures |r| < |s| && s == UpToNewline(s) + r
  {
    s[FirstNewline(s) + 1..]
  }

  /** A complete line: exactly one newline, in last position. */
  predicate IsLine(s: seq<Byte>) {
    |s| > 0 && s[|s| - 1] == NEWLINE && forall i :: 0 <= i < |s| - 1 ==> s[i] != NEWLINE
  }

  /** A stream has only one way to start with a line. */
  lemma {:induction false} FirstLineUnique(l: seq<Byte>, others: seq<Byte>)
    requires IsLine(l)
    ensures !Clean(l + others)
    ensures UpToNewline(l + others) == l && AfterNewline(l + others) == others
  {
    var s := l + others;
    assert s[|l| - 1] == NEWLINE;
    assert forall i :: 0 <= i < |l| - 1 ==> s[i] == l[i];
    assert FirstNewline(s) == |l| - 1;
  }

  predicate AllLines(ss: seq<seq<Byte>>) {
    forall i :: 0 <= i < |ss| ==> IsLine(ss[i])
  }

  /** The complete lines of a stream, in order. */
  function Lines(s: seq<Byte>): seq<seq<Byte>>
    decreases |s|
  {
    if Clean(s) then [] else [UpToNewline(s)] + Lines(AfterNewline(s))
  }

  /** What follows the last newline of a stream. */
  function Unfinished(s: seq<Byte>): seq<Byte>
    decreases |s|
  {
    if Clean(s) then s else Unfinished(AfterNewline(s))
  }

  /** Splitting loses nothing, and its pieces are lines. */
  lemma {:induction false} SplitPartition(s: seq<Byte>)
    ensures Flatten(Lines(s)) + Unfinished(s) == s
    ensures AllLines(Lines(s))
    ensures Clean(Unfinished(s))
    decreases |s|
  {
    if !Clean(s) {
      var l, others := UpToNewline(s), AfterNewline(s);
      SplitPartition(others);
      FlattenCons(l, Lines(others));
    }
  }

  /** Splitting is the only way to write a stream as lines followed by newline-free bytes. */
  lemma {:induction false} SplitUnique(ls: seq<seq<Byte>>, rest: seq<Byte>)
    requires AllLines(ls) && Clean(rest)
    ensures Lines(Flatten(ls) + rest) == ls
    ensures Unfinished(Flatten(ls) + rest) == rest
  {
    if ls == [] {
      assert Flatten(ls) + rest == rest;
    } else {
      var others := Flatten(ls[1..]) + rest;
      assert Flatten(ls) + rest == ls[0] + others;
      FirstLineUnique(ls[0], others);
      SplitUnique(ls[1..], rest);
    }
  }

  /** Newline-free bytes in front lengthen the first line, and make no new one. */
  lemma {:induction false} LinesAfterClean(front: seq<Byte>, s: seq<Byte>)
    requires Clean(front)
    ensures |Lines(front + s)| == |Lines(s)|
  {
    if Clean(s) {
      assert Clean(front + s);
    } else {
      var l := front + UpToNewline(s);
      assert IsLine(l) && front + s == l + AfterNewline(s);
      FirstLineUnique(l, AfterNewline(s));
    }
  }

  /** Appending a newline-free piece only extends the unfinished part. */
  lemma {:induction false} SplitExtend(s: seq<Byte>, piece: seq<Byte>)
    requires Clean(piece)
    ensures Lines(s + piece) == Lines(s)
    ensures Unfinished(s + piece) == Unfinished(s) + piece
  {
    SplitPartition(s);
    SplitUnique(Lines(s), Unfinished(s) + piece);
    assert Flatten(Lines(s)) + (Unfinished(s) + piece) == s + piece;
  }

  /** Appending a piece whose only newline is its last byte completes one line. */
  lemma {:induction false} SplitComplete(s: seq<Byte>, piece: seq<Byte>)
    requires IsLine(piece)
    ensures Lines(s + piece) == Lines(s) + [Unfinished(s) + piece]
    ensures Unfinished(s + piece) == []
  {
    SplitPartition(s);
    var l := Unfinished(s) + piece;
    assert Flatten(Lines(s) + [l]) + [] == s + piece by {
      FlattenAppend(Lines(s), [l]);
      FlattenSingle(l);
      assert Flatten(Lines(s)) + (Unfinished(s) + piece) == s + piece;
    }
    SplitUnique(Lines(s) + [l], []);
  }
}
