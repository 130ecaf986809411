/** read_line.c: framing a descriptor's bytes into bounded lines. */
module LineReader {
  import opened Bytes

  /** What one read() of a byte can do, end of file apart: a sequence that has run out is at end of file. */
  datatype ReadEvent = Data(b: Byte) | Interrupt | Failure

  class Descriptor {
    var input: seq<ReadEvent>

    constructor (input: seq<ReadEvent>)
      ensures this.input == input
    {
      this.input := input;
    }

    /** read(fd, &ch, 1): the count, -1 on error, and then whether errno is EINTR. */
    method Read() returns (numRead: int, ch: Byte, eintr: bool)
      modifies this
      ensures old(input) == [] ==> numRead == 0 && input == []
      ensures old(input) != [] ==>
                && input == old(input)[1..]
                && match old(input)[0]
                   case Data(b) => numRead == 1 && ch == b
                   case Interrupt => numRead == -1 && eintr
                   case Failure => numRead == -1 && !eintr
    {
      numRead, ch, eintr := 0, 0, false;
      if input != [] {
        match input[0] {
          case Data(b) => numRead, ch := 1, b;
          case Interrupt => numRead, eintr := -1, true;
          case Failure => numRead := -1;
        }
        input := input[1..];
      }
    }
  }

  datatype Ending = AtNewline | AtEof | AtError

  /** One line as the descriptor delivers it, how it ended, and what is left to read. */
  datatype Raw = Raw(line: seq<Byte>, ending: Ending, rest: seq<ReadEvent>)

  function RawLine(input: seq<ReadEvent>): Raw {
    if input == [] then Raw([], AtEof, [])
    else match input[0]
      case Interrupt => RawLine(input[1..])
      case Failure => Raw([], AtError, input[1..])
      case Data(b) =>
        if b == NEWLINE then Raw([b], AtNewline, input[1..])
        else Prepend([b], RawLine(input[1..]))
  }

  function Prepend(front: seq<Byte>, r: Raw): Raw {
    r.(line := front + r.line)
  }

  lemma {:induction false} RawStep(seen: seq<Byte>, input: seq<ReadEvent>)
    ensures input == [] ==> Prepend(seen, RawLine(input)) == Raw(seen, AtEof, [])
    ensures input != [] && input[0].Interrupt? ==> RawLine(input) == RawLine(input[1..])
    ensures input != [] && input[0].Failure? ==> Prepend(seen, RawLine(input)) == Raw(seen, AtError, input[1..])
    ensures input != [] && input[0].Data? ==>
              Prepend(seen, RawLine(input)) ==
              if input[0].b == NEWLINE then Raw(seen + [input[0].b], AtNewline, input[1..])
              else Prepend(seen + [input[0].b], RawLine(input[1..]))
  {
    if input != [] && input[0].Data? && input[0].b != NEWLINE {
      assert seen + ([input[0].b] + RawLine(input[1..]).line) == seen + [input[0].b] + RawLine(input[1..]).line;
    }
  }

  /** What a line of at most `n - 1` bytes leaves in the caller's buffer: its bytes over the old contents. */
  function Over(bytes: seq<Byte>, was: seq<Byte>): seq<Byte>
    requires |bytes| <= |was|
  {
    bytes + was[|bytes|..]
  }

  lemma {:induction false} OverStore(bytes: seq<Byte>, was: seq<Byte>, ch: Byte)
    requires |bytes| < |was|
    ensures Over(bytes, was)[|bytes| := ch] == Over(bytes + [ch], was)
  {
  }

  function CutTo(line: seq<Byte>, max: nat): (r: seq<Byte>)
    ensures |r| <= max
  {
    if |line| <= max then line else line[..max]
  }

  lemma {:induction false} CutToSnoc(line: seq<Byte>, max: nat, ch: Byte)
    ensures CutTo(line + [ch], max) == if |CutTo(line, max)| < max then CutTo(line, max) + [ch] else CutTo(line, max)
  {
  }

  /** The answer `ret` and the buffer contents `now` that a line gives, the buffer having held `was`. */
  predicate LineStored(r: Raw, n: nat, was: seq<Byte>, now: seq<Byte>, ret: int)
    requires 0 < n <= |was|
  {
    var line := CutTo(r.line, n - 1);
    match r.ending
    case AtError => ret == -1 && now == Over(line, was)
    case AtNewline => ret == |line| && now == Over(line + [0], was)
    case AtEof => ret == |line| && now == if line == [] then was else Over(line + [0], was)
  }

  // ----- what a call answers, in terms of the bytes that come in

  /** The bytes a descriptor delivers. */
  function Payload(input: seq<ReadEvent>): seq<Byte> {
    if input == [] then []
    else if input[0].Data? then [input[0].b] + Payload(input[1..])
    else Payload(input[1..])
  }

  predicate NoFailure(input: seq<ReadEvent>) {
    forall i :: 0 <= i < |input| ==> !input[i].Failure?
  }

  /** The end of a line: a newline, or a read that fails for good. */
  predicate IsStop(e: ReadEvent) {
    e == Data(NEWLINE) || e.Failure?
  }

  /** A call reads exactly the first `k` events: through the first newline or failure, or all of them. */
  predicate ReadsThrough(input: seq<ReadEvent>, k: nat) {
    && k <= |input| && (forall i :: 0 <= i < k - 1 ==> !IsStop(input[i]))
    && (k < |input| ==> k > 0 && IsStop(input[k - 1]))
  }

  /** A failure comes before the first newline. */
  predicate FailsFirst(input: seq<ReadEvent>) {
    exists i :: 0 <= i < |input| && input[i].Failure? && forall j :: 0 <= j < i ==> !IsStop(input[j])
  }

  lemma {:induction false} FailsFirstStep(input: seq<ReadEvent>)
    requires input != []
    ensures FailsFirst(input) <==> input[0].Failure? || (!IsStop(input[0]) && FailsFirst(input[1..]))
  {
    var rest := input[1..];
    if i :| 0 <= i < |input| && input[i].Failure? && forall j :: 0 <= j < i ==> !IsStop(input[j]) {
      if i > 0 {
        assert rest[i - 1].Failure? && forall j :: 0 <= j < i - 1 ==> rest[j] == input[j + 1];
      }
    }
    if !IsStop(input[0]) && FailsFirst(rest) {
      var i :| 0 <= i < |rest| && rest[i].Failure? && forall j :: 0 <= j < i ==> !IsStop(rest[j]);
      assert input[i + 1].Failure?;
      assert forall j :: 1 <= j < i + 1 ==> input[j] == rest[j - 1];
    }
  }

  /** How much of the stream a line takes. */
  lemma {:induction false} RawLineReads(input: seq<ReadEvent>) returns (k: nat)
    ensures ReadsThrough(input, k) && RawLine(input).rest == input[k..]
  {
    if input == [] || IsStop(input[0]) {
      k := if input == [] then 0 else 1;
    } else {
      var j := RawLineReads(input[1..]);
      k := j + 1;
      assert input[1..][j..] == input[k..];
      assert forall i :: 1 <= i < |input| ==> input[i] == input[1..][i - 1];
    }
  }

  /** The line and its ending, in terms of the bytes that come in. */
  lemma {:induction false} RawLineIs(input: seq<ReadEvent>)
    ensures RawLine(input).ending == AtError <==> FailsFirst(input)
    ensures !FailsFirst(input) ==> RawLine(input).line == UpToNewline(Payload(input))
    ensures !FailsFirst(input) ==> (RawLine(input).ending == AtEof <==> Clean(Payload(input)))
  {
    if input != [] {
      RawLineIs(input[1..]);
      FailsFirstStep(input);
      if input[0].Data? {
        PayloadStep(input[0].b, Payload(input[1..]));
      }
    }
  }

  /** The next line of a descriptor without failures is the first piece of its bytes. */
  lemma {:induction false} RawLineOfPayload(input: seq<ReadEvent>)
    requires NoFailure(input)
    ensures var r, s := RawLine(input), Payload(input);
            && NoFailure(r.rest)
            && (Clean(s) ==> r.line == s && r.ending == AtEof && Payload(r.rest) == [])
            && (!Clean(s) ==> r.line == UpToNewline(s) && r.ending == AtNewline && Payload(r.rest) == AfterNewline(s))
  {
    if input != [] {
      RawLineOfPayload(input[1..]);
      if input[0].Data? {
        PayloadStep(input[0].b, Payload(input[1..]));
      }
    }
  }

  lemma {:induction false} PayloadStep(b: Byte, s: seq<Byte>)
    ensures b == NEWLINE ==> !Clean([b] + s) && UpToNewline([b] + s) == [b] && AfterNewline([b] + s) == s
    ensures b != NEWLINE ==> (Clean([b] + s) <==> Clean(s))
    ensures b != NEWLINE && !Clean(s) ==>
              UpToNewline([b] + s) == [b] + UpToNewline(s) && AfterNewline([b] + s) == AfterNewline(s)
  {
    if b == NEWLINE {
      FirstLineUnique([b], s);
    } else if Clean(s) {
      assert Clean([b] + s);
    } else {
      var l := [b] + UpToNewline(s);
      assert [b] + s == l + AfterNewline(s);
      assert IsLine(l);
      FirstLineUnique(l, AfterNewline(s));
      assert ([b] + s)[1..] == s;
    }
  }

  /** What a line stored means for the caller. */
  lemma {:induction false} StoredIsAnswer(input: seq<ReadEvent>, n: nat, was: seq<Byte>, now: seq<Byte>, ret: int)
    requires 0 < n <= |was| && LineStored(RawLine(input), n, was, now, ret)
    ensures |now| == |was| && (ret == -1 <==> FailsFirst(input))
    ensures !FailsFirst(input) ==>
              var line := UpToNewline(Payload(input));
              && ret == (if |line| < n then |line| else n - 1) && now[..ret] == line[..ret]
              && if ret == 0 && Clean(line) then now == was else now[ret] == 0 && now[ret + 1..] == was[ret + 1..]
    ensures NoFailure(input) ==> (ret == 0 <==> Payload(input) == [] || n == 1)
  {
    RawLineIs(input);
  }

  /** `*buf = ch` */
  method Put(buffer: array<Byte>, at: nat, ch: Byte)
    requires at < buffer.Length
    modifies buffer
    ensures buffer[..] == old(buffer[..])[at := ch]
  {
    buffer[at] := ch;
  }

  /** Store a byte if there is still room for it. */
  method Keep(buffer: array<Byte>, n: nat, totRead: nat, ch: Byte, ghost seen: seq<Byte>, ghost was: seq<Byte>)
    returns (totRead': nat)
    requires 0 < n <= buffer.Length == |was| && totRead == |CutTo(seen, n - 1)|
    requires buffer[..] == Over(CutTo(seen, n - 1), was)
    modifies buffer
    ensures totRead' == |CutTo(seen + [ch], n - 1)| && buffer[..] == Over(CutTo(seen + [ch], n - 1), was)
  {
    ghost var cut := CutTo(seen, n - 1);
    CutToSnoc(seen, n - 1, ch);
    totRead' := totRead;
    if totRead < n - 1 {
      OverStore(cut, was, ch);
      Put(buffer, totRead, ch);
      totRead' := totRead + 1;
    }
  }

  /** The loop of read_line. */
  method StoreLine(fd: Descriptor, buffer: array<Byte>, n: nat) returns (ret: int)
    requires 0 < n <= buffer.Length
    modifies fd, buffer
    ensures fd.input == RawLine(old(fd.input)).rest
    ensures LineStored(RawLine(old(fd.input)), n, old(buffer[..]), buffer[..], ret)
  {
    var totRead: nat := 0;
    ghost var raw, was := RawLine(fd.input), buffer[..];
    ghost var seen: seq<Byte> := [];
    while true
      invariant raw == Prepend(seen, RawLine(fd.input))
      invariant totRead == |CutTo(seen, n - 1)| && buffer[..] == Over(CutTo(seen, n - 1), was)
      decreases |fd.input|
    {
      RawStep(seen, fd.input);
      var numRead, ch, eintr := fd.Read();
      if numRead == -1 {
        if !eintr {
          return -1;
        }
      } else if numRead == 0 {
        if totRead == 0 {
          return 0;
        }
        break;
      } else {
        totRead := Keep(buffer, n, totRead, ch, seen, was);
        seen := seen + [ch];
        if ch == NEWLINE {
          break;
        }
      }
    }
    OverStore(CutTo(seen, n - 1), was, 0);
    Put(buffer, totRead, 0);
    return totRead;
  }

  /** read_line: of the next line it stores the first n - 1 bytes and a terminator, and consumes all of it. An interrupted
      read is repeated. The answer is -1 exactly when another error comes before the first newline; else it is the length of
      the first line, at most n - 1. Without errors and with room for a byte, 0 is answered exactly at the end. */
  method ReadLine(fd: Descriptor, buffer: array?<Byte>, n: nat) returns (ret: int)
    requires buffer != null ==> n <= buffer.Length
    modifies fd, buffer
    ensures n == 0 || buffer == null ==> ret == -1 && fd.input == old(fd.input)
    ensures n == 0 && buffer != null ==> buffer[..] == old(buffer[..])
    ensures n > 0 && buffer != null ==>
              && fd.input == RawLine(old(fd.input)).rest
              && LineStored(RawLine(old(fd.input)), n, old(buffer[..]), buffer[..], ret)
    ensures n > 0 && buffer != null ==> exists k: nat :: ReadsThrough(old(fd.input), k) && fd.input == old(fd.input)[k..]
    ensures n > 0 && buffer != null ==> (ret == -1 <==> FailsFirst(old(fd.input)))
    ensures n > 0 && buffer != null && !FailsFirst(old(fd.input)) ==>
              var line := UpToNewline(Payload(old(fd.input)));
              && ret == (if |line| < n then |line| else n - 1) && buffer[..ret] == line[..ret]
              && if ret == 0 && Clean(line) then buffer[..] == old(buffer[..])
                 else buffer[ret] == 0 && buffer[ret + 1..] == old(buffer[ret + 1..])
    ensures n > 0 && buffer != null && NoFailure(old(fd.input)) ==> (ret == 0 <==> Payload(old(fd.input)) == [] || n == 1)
  {
    if n <= 0 || buffer == null {
      return -1;
    }
    ghost var input, was := fd.input, buffer[..];
    ret := StoreLine(fd, buffer, n);
    StoredIsAnswer(input, n, was, buffer[..], ret);
    ghost var k := RawLineReads(input);
  }

  // ----- whole streams

  /** The events without the interruptions. */
  function Strip(input: seq<ReadEvent>): seq<ReadEvent> {
    if input == [] then []
    else if input[0].Interrupt? then Strip(input[1..])
    else [input[0]] + Strip(input[1..])
  }

  /** Where reads are interrupted changes neither the line, nor its ending, nor what is left to read. */
  lemma {:induction false} InterruptsInvisible(input: seq<ReadEvent>)
    ensures var r := RawLine(input); RawLine(Strip(input)) == Raw(r.line, r.ending, Strip(r.rest))
  {
    if input != [] {
      InterruptsInvisible(input[1..]);
      if !input[0].Interrupt? {
        assert Strip(input)[1..] == Strip(input[1..]);
      }
    }
  }

  lemma {:induction false} RawShrinks(input: seq<ReadEvent>)
    ensures |RawLine(input).rest| + |RawLine(input).line| <= |input|
  {
    if input != [] {
      RawShrinks(input[1..]);
    }
  }

  /** What successive calls return until the first that is not positive: the loop of a connection. */
  function Frames(input: seq<ReadEvent>, n: nat): seq<seq<Byte>>
    requires n > 0
    decreases |input|
  {
    RawShrinks(input);
    var r := RawLine(input);
    var line := CutTo(r.line, n - 1);
    if r.ending == AtError || line == [] then [] else [line] + Frames(r.rest, n)
  }

  lemma {:induction false} FramesIgnoreInterrupts(input: seq<ReadEvent>, n: nat)
    requires n > 0
    ensures Frames(Strip(input), n) == Frames(input, n)
    decreases |input|
  {
    InterruptsInvisible(input);
    RawShrinks(input);
    var r := RawLine(input);
    if r.ending != AtError && CutTo(r.line, n - 1) != [] {
      FramesIgnoreInterrupts(r.rest, n);
    }
  }

  /** The lines of a stream and, when it does not end in a newline, what follows the last one. */
  function Pieces(s: seq<Byte>): seq<seq<Byte>>
    decreases |s|
  {
    if s == [] then [] else if Clean(s) then [s] else [UpToNewline(s)] + Pieces(AfterNewline(s))
  }

  lemma {:induction false} PiecesSplit(s: seq<Byte>)
    ensures Pieces(s) == Lines(s) + if Unfinished(s) == [] then [] else [Unfinished(s)]
    decreases |s|
  {
    if !Clean(s) {
      PiecesSplit(AfterNewline(s));
    }
  }

  lemma {:induction false} PiecesAreLines(s: seq<Byte>)
    ensures Flatten(Pieces(s)) == s
    ensures AllLines(Pieces(s)) <==> Unfinished(s) == []
    ensures Unfinished(s) == [] ==> Pieces(s) == Lines(s)
  {
    PiecesSplit(s);
    SplitPartition(s);
    if Unfinished(s) != [] {
      FlattenAppend(Lines(s), [Unfinished(s)]);
      FlattenSingle(Unfinished(s));
      assert Pieces(s)[|Lines(s)|] == Unfinished(s);
    } else {
      assert Pieces(s) == Lines(s) && Flatten(Lines(s)) + [] == s;
    }
  }

  function CutAll(ss: seq<seq<Byte>>, max: nat): seq<seq<Byte>> {
    if ss == [] then [] else [CutTo(ss[0], max)] + CutAll(ss[1..], max)
  }

  /** Successive calls with a buffer of at least two bytes return the pieces of the stream in order, each cut
      to its first n - 1 bytes. */
  lemma {:induction false} FramesAreCutPieces(input: seq<ReadEvent>, n: nat)
    requires n >= 2 && NoFailure(input)
    ensures Frames(input, n) == CutAll(Pieces(Payload(input)), n - 1)
    decreases |input|
  {
    RawLineOfPayload(input);
    RawShrinks(input);
    var r, s := RawLine(input), Payload(input);
    if s != [] {
      FramesAreCutPieces(r.rest, n);
      assert Pieces(s)[0] == r.line && Pieces(s)[1..] == Pieces(Payload(r.rest));
    }
  }

  lemma {:induction false} CutAllLength(ss: seq<seq<Byte>>, max: nat)
    ensures |Flatten(CutAll(ss, max))| <= |Flatten(ss)|
    ensures Flatten(CutAll(ss, max)) == Flatten(ss) <==> forall i :: 0 <= i < |ss| ==> |ss[i]| <= max
  {
    if ss != [] {
      var rest := CutAll(ss[1..], max);
      CutAllLength(ss[1..], max);
      FlattenCons(CutTo(ss[0], max), rest);
      if |ss[0]| <= max {
        CancelLeft(ss[0], Flatten(rest), Flatten(ss[1..]));
        assert forall i :: 1 <= i < |ss| ==> ss[i] == ss[1..][i - 1];
      }
    }
  }

  lemma {:induction false} CancelLeft(a: seq<Byte>, b: seq<Byte>, c: seq<Byte>)
    ensures a + b == a + c <==> b == c
  {
    assert (a + b)[|a|..] == b && (a + c)[|a|..] == c;
  }

  /** The results put together are the stream exactly when no line is longer than n - 1 bytes. */
  lemma {:induction false} FramesLosslessIffShort(input: seq<ReadEvent>, n: nat)
    requires n >= 2 && NoFailure(input)
    ensures Flatten(Frames(input, n)) == Payload(input) <==>
            forall i :: 0 <= i < |Pieces(Payload(input))| ==> |Pieces(Payload(input))[i]| <= n - 1
  {
    FramesAreCutPieces(input, n);
    PiecesAreLines(Payload(input));
    CutAllLength(Pieces(Payload(input)), n - 1);
  }

  /** Every frame is at most one line: its only newline, if any, is its last byte. */
  lemma {:induction false} FramesHaveOneNewline(input: seq<ReadEvent>, n: nat)
    requires n > 0
    ensures forall i :: 0 <= i < |Frames(input, n)| ==> Clean(Frames(input, n)[i]) || IsLine(Frames(input, n)[i])
    decreases |input|
  {
    RawShrinks(input);
    RawLineShape(input);
    var r := RawLine(input);
    if r.ending != AtError && CutTo(r.line, n - 1) != [] {
      FramesHaveOneNewline(r.rest, n);
    }
  }

  lemma {:induction false} RawLineShape(input: seq<ReadEvent>)
    ensures Clean(RawLine(input).line) || IsLine(RawLine(input).line)
  {
    if input != [] {
      RawLineShape(input[1..]);
    }
  }
}
