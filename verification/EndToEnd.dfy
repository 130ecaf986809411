/** From the bytes of a socket to the entries of the device, for one connection and any stream. */
module EndToEnd {
  import opened Bytes
  import opened DeviceSpec
  import opened LineReader
  import opened Connection

  /** End to end, for every stream: from an empty device, the commits and the pending bytes are the newline
      split of the stream with each of its lines cut to 65535 bytes. */
  lemma {:induction false} CommitsOfStream(input: seq<ReadEvent>)
    requires NoFailure(input)
    ensures var kept := Flatten(CutAll(Pieces(Payload(input)), 65535));
            WriteAll(EMPTY_LOG, Frames(input, CONNECTION_BUFFER_SIZE)) == Log(Lines(kept), Unfinished(kept))
  {
    var frames := Frames(input, CONNECTION_BUFFER_SIZE);
    FramesAreCutPieces(input, CONNECTION_BUFFER_SIZE);
    FramesHaveOneNewline(input, CONNECTION_BUFFER_SIZE);
    NothingDroppedIff(frames);
    WriteHistory(frames);
  }

  predicate AllShort(ss: seq<seq<Byte>>, max: nat) {
    forall i :: 0 <= i < |ss| ==> |ss[i]| <= max
  }

  lemma {:induction false} CutAllShort(ss: seq<seq<Byte>>, max: nat)
    ensures CutAll(ss, max) == ss <==> AllShort(ss, max)
  {
    if ss != [] {
      CutAllShort(ss[1..], max);
      var cut := CutAll(ss, max);
      assert cut[0] == CutTo(ss[0], max) && cut[1..] == CutAll(ss[1..], max);
      assert cut == ss <==> cut[0] == ss[0] && cut[1..] == ss[1..];
      assert AllShort(ss, max) <==> |ss[0]| <= max && AllShort(ss[1..], max) by {
        assert forall i :: 1 <= i < |ss| ==> ss[i] == ss[1..][i - 1];
      }
    }
  }

  lemma {:induction false} CutAllAppend(ss: seq<seq<Byte>>, s: seq<Byte>, max: nat)
    ensures CutAll(ss + [s], max) == CutAll(ss, max) + [CutTo(s, max)]
  {
    if ss == [] {
      assert ss + [s] == [s] && [s][1..] == [];
    } else {
      assert (ss + [s])[1..] == ss[1..] + [s];
      CutAllAppend(ss[1..], s, max);
    }
  }

  /** Of a sequence of lines that are cut and put together again as many are left as there were short ones. */
  lemma {:induction false} CutLinesCount(ls: seq<seq<Byte>>, max: nat)
    requires AllLines(ls)
    ensures |Lines(Flatten(CutAll(ls, max)))| <= |ls|
    ensures |Lines(Flatten(CutAll(ls, max)))| == |ls| <==> AllShort(ls, max)
  {
    if ls != [] {
      var rest := Flatten(CutAll(ls[1..], max));
      CutLinesCount(ls[1..], max);
      FlattenCons(CutTo(ls[0], max), CutAll(ls[1..], max));
      if |ls[0]| <= max {
        FirstLineUnique(ls[0], rest);
      } else {
        assert Clean(CutTo(ls[0], max));
        LinesAfterClean(CutTo(ls[0], max), rest);
      }
      assert AllShort(ls, max) <==> |ls[0]| <= max && AllShort(ls[1..], max) by {
        assert forall i :: 1 <= i < |ls| ==> ls[i] == ls[1..][i - 1];
      }
    }
  }

  /** What the device keeps of a stream, line by line. */
  lemma {:induction false} KeptLines(s: seq<Byte>, max: nat)
    ensures var kept, cut := Flatten(CutAll(Pieces(s), max)), Flatten(CutAll(Lines(s), max));
            Lines(kept) == Lines(cut) && Unfinished(kept) == Unfinished(cut) + CutTo(Unfinished(s), max)
  {
    var cut, last := CutAll(Lines(s), max), CutTo(Unfinished(s), max);
    PiecesSplit(s);
    SplitPartition(s);
    assert Clean(last);
    SplitExtend(Flatten(cut), last);
    if Unfinished(s) == [] {
      assert Pieces(s) == Lines(s) && Flatten(cut) + last == Flatten(cut);
    } else {
      CutAllAppend(Lines(s), Unfinished(s), max);
      FlattenAppend(cut, [last]);
      FlattenSingle(last);
    }
  }

  /** One line in, one entry out: exactly when every complete line of the stream is short enough. */
  lemma {:induction false} EntriesAreLinesIffShort(input: seq<ReadEvent>)
    requires NoFailure(input)
    ensures WriteAll(EMPTY_LOG, Frames(input, CONNECTION_BUFFER_SIZE)).committed == Lines(Payload(input)) <==>
            AllShort(Lines(Payload(input)), 65535)
  {
    var lines, max := Lines(Payload(input)), 65535;
    CommitsOfStream(input);
    KeptLines(Payload(input), max);
    SplitPartition(Payload(input));
    CutLinesCount(lines, max);
    CutAllShort(lines, max);
    SplitUnique(lines, []);
    assert Flatten(lines) + [] == Flatten(lines);
  }

  /** The frames are the lines of the stream exactly when it consists of short complete lines, and then so are the
      entries. */
  lemma {:induction false} FramesAreLinesIff(input: seq<ReadEvent>)
    requires NoFailure(input)
    ensures var frames, lines := Frames(input, CONNECTION_BUFFER_SIZE), Lines(Payload(input));
            && (frames == lines <==> Unfinished(Payload(input)) == [] && AllShort(lines, 65535))
            && (frames == lines ==> AllLines(frames) && WriteAll(EMPTY_LOG, frames) == Log(lines, []))
  {
    var frames, lines, last, max :=
      Frames(input, CONNECTION_BUFFER_SIZE), Lines(Payload(input)), Unfinished(Payload(input)), 65535;
    FramesAreCutPieces(input, CONNECTION_BUFFER_SIZE);
    PiecesSplit(Payload(input));
    SplitPartition(Payload(input));
    CutAllShort(lines, max);
    if last == [] {
      assert Pieces(Payload(input)) == lines;
    } else {
      CutAllAppend(lines, last, max);
      CutAllKeepsCount(lines, max);
    }
    if frames == lines {
      WritesAreCommitsIffLines(frames);
    }
  }

  lemma {:induction false} CutAllKeepsCount(ss: seq<seq<Byte>>, max: nat)
    ensures |CutAll(ss, max)| == |ss|
  {
    if ss != [] {
      CutAllKeepsCount(ss[1..], max);
    }
  }

  lemma {:induction false} TwoPieces(a: seq<Byte>, b: seq<Byte>)
    requires IsLine(a) && IsLine(b)
    ensures Pieces(a + b) == [a, b]
  {
    FirstLineUnique(a, b);
    FirstLineUnique(b, []);
    assert b + [] == b && Pieces(b) == [b] + Pieces([]) && Pieces(a + b) == [a] + Pieces(b);
  }

  lemma {:induction false} CutTwo(a: seq<Byte>, b: seq<Byte>, max: nat)
    ensures CutAll([a, b], max) == [CutTo(a, max), CutTo(b, max)]
  {
    assert [a, b][1..] == [b] && [b][1..] == [];
    assert CutAll([b], max) == [CutTo(b, max)] + CutAll([], max);
  }

  /** An over-long line loses its newline and is committed together with the line after it. */
  lemma {:induction false} OverlongLineJoinsNext(input: seq<ReadEvent>, a: seq<Byte>, b: seq<Byte>)
    requires NoFailure(input) && Payload(input) == a + b
    requires IsLine(a) && IsLine(b) && |a| > 65535 >= |b|
    ensures WriteAll(EMPTY_LOG, Frames(input, CONNECTION_BUFFER_SIZE)) == Log([a[..65535] + b], [])
  {
    FramesAreCutPieces(input, CONNECTION_BUFFER_SIZE);
    TwoPieces(a, b);
    CutTwo(a, b, 65535);
    TwoWrites(a[..65535], b);
  }

  /** Of a line longer than 65535 bytes the first 65535 reach the device, and nothing is committed. */
  lemma {:induction false} OverlongLineIsCut(input: seq<ReadEvent>)
    requires NoFailure(input) && IsLine(Payload(input)) && |Payload(input)| > 65535
    ensures Frames(input, CONNECTION_BUFFER_SIZE) == [Payload(input)[..65535]]
    ensures WriteAll(EMPTY_LOG, Frames(input, CONNECTION_BUFFER_SIZE)) == Log([], Payload(input)[..65535])
  {
    var line := Payload(input);
    FramesAreCutPieces(input, CONNECTION_BUFFER_SIZE);
    FirstLineUnique(line, []);
    assert line + [] == line && Pieces(line) == [line] + Pieces([]) && [line][1..] == [];
    assert CutAll([line], 65535) == [CutTo(line, 65535)] + CutAll([], 65535);
    WriteAllSnoc(EMPTY_LOG, [], line[..65535]);
    assert [] + [line[..65535]] == [line[..65535]] && [] + line[..65535] == line[..65535];
  }

  lemma {:induction false} TwoWrites(c: seq<Byte>, b: seq<Byte>)
    requires Clean(c) && IsLine(b)
    ensures WriteAll(EMPTY_LOG, [c, b]) == Log([c + b], [])
  {
    FirstLineUnique(b, []);
    assert b + [] == b && [] + c == c && [] + [c + b] == [c + b];
    assert [c, b] == [c] + [b] && [c] == [] + [c];
    WriteAllSnoc(EMPTY_LOG, [], c);
    WriteAllSnoc(EMPTY_LOG, [c], b);
  }
}
