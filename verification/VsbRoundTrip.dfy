/** What the reader makes of a file the writer wrote. */
module VsbRoundTrip {
  import opened Bytes
  import opened VsbStruct
  import opened VsbFormat
  import opened VsbReader
  import opened VsbWriter

  ghost predicate AllWellSized(msgs: seq<seq<byte>>)
  {
    forall i | 0 <= i < |msgs| :: WellSized(msgs[i])
  }

  ghost function NormalizeAll(msgs: seq<seq<byte>>): (r: seq<seq<byte>>)
    requires AllWellSized(msgs)
    ensures |r| == |msgs|
  {
    if msgs == [] then [] else [Normalize(msgs[0])] + NormalizeAll(msgs[1..])
  }

  /** The last message is lost when it has extra data: its bounds check counts the structure twice. */
  ghost predicate LosesLast(msgs: seq<seq<byte>>)
    requires AllWellSized(msgs)
  {
    msgs != [] && ExtraSize(msgs[|msgs| - 1]) > 0
  }

  /** What reading a written file delivers. A file without messages delivers one blank message. */
  ghost function ReadsBack(msgs: seq<seq<byte>>): seq<seq<byte>>
    requires AllWellSized(msgs)
  {
    if msgs == [] then [Zeros(STRUCT_SIZE)]
    else if LosesLast(msgs) then NormalizeAll(msgs[..|msgs| - 1])
    else NormalizeAll(msgs)
  }

  ghost function ReadsFrom(msgs: seq<seq<byte>>): seq<seq<byte>>
    requires AllWellSized(msgs)
  {
    if msgs == [] || (|msgs| == 1 && ExtraSize(msgs[0]) > 0) then []
    else [Normalize(msgs[0])] + ReadsFrom(msgs[1..])
  }

  lemma {:induction false} ReadsFromClosedForm(msgs: seq<seq<byte>>)
    requires AllWellSized(msgs)
    ensures ReadsFrom(msgs) == NormalizeAll(if LosesLast(msgs) then msgs[..|msgs| - 1] else msgs)
  {
    if |msgs| == 1 {
      assert msgs[1..] == [] && msgs[..0] == [];
    } else if |msgs| > 1 {
      ReadsFromClosedForm(msgs[1..]);
      if LosesLast(msgs) {
        assert msgs[1..][..|msgs| - 2] == msgs[..|msgs| - 1][1..];
      }
    }
  }

  lemma {:induction false} FlattenAtLeast(msgs: seq<seq<byte>>)
    requires AllWellSized(msgs)
    ensures |Flatten(msgs)| >= STRUCT_SIZE * |msgs|
  {
    if msgs != [] {
      FlattenAtLeast(msgs[1..]);
    }
  }

  /** The structure at the front of the rest of the file is that of the first message there. */
  lemma FirstStruct(file: seq<byte>, loc: nat, m: seq<byte>, rest: seq<byte>, buffer: seq<byte>)
    requires WellSized(m) && loc <= |file| && file[loc..] == m + rest && |buffer| >= STRUCT_SIZE
    ensures var s := StructAt(file, loc, buffer);
      && s == m[..STRUCT_SIZE] && ExtraSize(s) == ExtraSize(m)
      && |file| == loc + |m| + |rest|
      && s + Got(file, loc + STRUCT_SIZE, ExtraSize(m)) == m
      && file[loc + |m|..] == rest
  {
    var tail := file[loc..];
    assert tail[..STRUCT_SIZE] == m[..STRUCT_SIZE] == file[loc..loc + STRUCT_SIZE];
    assert tail[STRUCT_SIZE..|m|] == m[STRUCT_SIZE..] == file[loc + STRUCT_SIZE..loc + |m|];
    assert tail[|m|..] == rest;
    SameHeader(m, m[..STRUCT_SIZE]);
  }

  lemma ReadFirst(file: seq<byte>, p: Place, m: seq<byte>, rest: seq<byte>, buffer: seq<byte>)
    requires p.version == V104 && WellSized(m) && |buffer| >= STRUCT_SIZE
    requires p.loc <= |file| && file[p.loc..] == m + rest
    ensures var s := StructAt(file, p.loc, buffer);
      && KnownAt(file, p, s)
      && ReadWhole(file, p, s)
         == (if ExtraSize(m) > 0 && |rest| < STRUCT_SIZE then Bad else Message(Normalize(m), p.loc + |m|))
      && (p.loc + |m| <= |file| && file[p.loc + |m|..] == rest)
  {
    FirstStruct(file, p.loc, m, rest, buffer);
    if ExtraSize(m) == 0 {
      assert m[..STRUCT_SIZE] == m;
    }
  }

  lemma {:induction false} ScanFrom(
      file: seq<byte>, timeSize: nat, p: Place, msgs: seq<seq<byte>>, buffer: seq<byte>, first: bool)
    requires timeSize < STRUCT_SIZE && p.version == V104 && |buffer| >= STRUCT_SIZE && AllWellSized(msgs)
    requires p.loc <= |file| && file[p.loc..] == Flatten(msgs)
    requires first ==> msgs != []
    ensures Scan(file, timeSize, p, buffer, first) == Some(ReadsFrom(msgs))
    decreases |msgs|
  {
    hide Scan, ReadWhole, StructAt, Normalize, ExtraSize;
    if msgs == [] {
      ScanEnds(file, timeSize, p, buffer, first);
    } else {
      var m, rest := msgs[0], msgs[1..];
      ReadFirst(file, p, m, Flatten(rest), buffer);
      FlattenAtLeast(rest);
      if rest == [] && ExtraSize(m) > 0 {
        ScanEnds(file, timeSize, p, buffer, first);
      } else {
        var next := p.(loc := p.loc + |m|);
        ScanFrom(file, timeSize, next, rest, Normalize(m), false);
        ScanContinues(file, timeSize, p, buffer, first, Normalize(m), next.loc, ReadsFrom(rest));
      }
    }
  }

  lemma WrittenFileOpens(msgs: seq<seq<byte>>)
    ensures FirstPlace(FileOf(msgs)) == Some(Place(V104, None, HEADER_SIZE))
    ensures HEADER_SIZE <= |FileOf(msgs)| && FileOf(msgs)[HEADER_SIZE..] == Flatten(msgs)
  {
    var file := FileOf(msgs);
    assert file[0..6] == MAGIC && file[6..10] == LE32(FILE_VERSION);
    ReadLE32Of(file, 6, FILE_VERSION);
  }

  lemma BlankIsNormal()
    ensures Normalize(Zeros(STRUCT_SIZE)) == Zeros(STRUCT_SIZE) && ExtraSize(Zeros(STRUCT_SIZE)) == 0
  {
  }

  lemma EmptyFileReadsBlank(timeSize: nat)
    ensures Scan(FileOf([]), timeSize, Place(V104, None, HEADER_SIZE), Zeros(STRUCT_SIZE), true)
         == Some([Zeros(STRUCT_SIZE)])
  {
    var file, p := FileOf([]), Place(V104, None, HEADER_SIZE);
    WrittenFileOpens([]);
    BlankIsNormal();
    assert |file| == HEADER_SIZE;
    assert StructAt(file, p.loc, Zeros(STRUCT_SIZE)) == Zeros(STRUCT_SIZE);
    assert ReadWhole(file, p, Zeros(STRUCT_SIZE)) == Message(Zeros(STRUCT_SIZE), p.loc + STRUCT_SIZE);
    ScanContinues(file, timeSize, p, Zeros(STRUCT_SIZE), true, Zeros(STRUCT_SIZE), p.loc + STRUCT_SIZE, []);
    assert [Zeros(STRUCT_SIZE)] + [] == [Zeros(STRUCT_SIZE)];
  }

  /** For every list of messages, exactly what comes back after writing it. */
  lemma {:induction false} WrittenFileReadsBack(msgs: seq<seq<byte>>, timeSize: nat)
    requires timeSize < STRUCT_SIZE && AllWellSized(msgs)
    ensures Scan(FileOf(msgs), timeSize, Place(V104, None, HEADER_SIZE), Zeros(STRUCT_SIZE), true)
         == Some(ReadsBack(msgs))
  {
    WrittenFileOpens(msgs);
    if msgs == [] {
      EmptyFileReadsBlank(timeSize);
    } else {
      ScanFrom(FileOf(msgs), timeSize, Place(V104, None, HEADER_SIZE), msgs, Zeros(STRUCT_SIZE), true);
      ReadsFromClosedForm(msgs);
    }
  }

  /** The round trip is faithful exactly for a non-empty list whose last message has no extra data. */
  lemma {:induction false} RoundTripIff(msgs: seq<seq<byte>>)
    requires AllWellSized(msgs)
    ensures ReadsBack(msgs) == NormalizeAll(msgs) <==> msgs != [] && ExtraSize(msgs[|msgs| - 1]) == 0
  {
    if LosesLast(msgs) {
      assert |ReadsBack(msgs)| == |msgs| - 1;
    }
  }

  /** Write and read back with the two classes. */
  method WriteAndReadBack(msgs: seq<seq<byte>>, timeSize: nat) returns (back: seq<seq<byte>>)
    requires timeSize == 24 || timeSize == 48
    requires AllWellSized(msgs)
    ensures back == ReadsBack(msgs)
  {
    var writer := WriteFile(msgs);
    WrittenFileOpens(msgs);
    WrittenFileReadsBack(msgs, timeSize);
    var reader := new VSBIORead(writer.file, timeSize);
    back := reader.ReadAll();
  }
}
