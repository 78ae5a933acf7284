/** What reading an unwrapped file gives, and the round trip of a frame from the wire to the output file. */
module UnwrappedFiles {
  import opened Bytes
  import opened VsbStruct
  import opened OutputBuffer
  import opened CmpFrame
  import opened Reassembly
  import opened ReassemblyTheorems
  import opened VsbReader
  import opened VsbReading
  import opened VsbDelivery
  import opened VsbWriter
  import opened VsbRoundTrip
  import opened VsbSplitReadBack
  import opened Unwrapper
  import opened UnwrapperTheorems
  import opened OutputFiles
  import opened Progress

  /** The CAN, CAN FD and LIN conversions give messages that announce what they carry. */
  ghost predicate ConvertersFit(u: Settings)
  {
    forall outer, edp, t ::
      && (u.can(outer, edp, t).Some? ==> WellSized(u.can(outer, edp, t).value))
      && (u.canfd(outer, edp, t).Some? ==> WellSized(u.canfd(outer, edp, t).value))
      && (u.lin(outer, edp, t).Some? ==> WellSized(u.lin(outer, edp, t).value))
  }

  lemma {:induction false} ChainDataBound(xs: seq<Segment>, sid: byte)
    ensures |Data(Chain(xs, sid))| <= |Data(xs)|
  {
    if xs != [] {
      var n := |xs| - 1;
      assert xs == xs[..n] + [xs[n]];
      ChainDataBound(xs[..n], sid);
      ChainStep(xs[..n], xs[n], sid);
      DataSnoc(xs[..n], xs[n]);
      DataSnoc([], xs[n]);
      DataSnoc(Chain(xs[..n], sid), xs[n]);
      assert [] + [xs[n]] == [xs[n]];
      NoDataYet();
      hide Data, SinceStart, OnStream;
    }
  }

  lemma NoDataYet()
    ensures Data([]) == []
  {
  }

  lemma AcceptedDataBound(msg: seq<byte>)
    ensures Accepted(msg).Some? ==> |Accepted(msg).value.data| <= |msg|
  {
    hide Unpack, ReadBE16, ReadLE32, ReadBE64, ExtraSize;
  }

  lemma {:induction false} SegmentsDataBound(msgs: Msgs)
    ensures |Data(Segments(msgs))| <= |Flatten(msgs)|
  {
    hide Data, Accepted, Flatten;
    if msgs == [] {
      NoDataYet();
    } else {
      var n := |msgs| - 1;
      SegmentsDataBound(msgs[..n]);
      SegmentDataStep(Segments(msgs[..n]), msgs[n]);
      assert msgs == msgs[..n] + [msgs[n]];
      FlattenSnoc(msgs[..n], msgs[n]);
    }
  }

  lemma SegmentDataStep(xs: seq<Segment>, msg: seq<byte>)
    ensures |Data(xs + Listed(Accepted(msg)))| <= |Data(xs)| + |msg|
  {
    hide Accepted, Data;
    AcceptedDataBound(msg);
    if Accepted(msg).Some? {
      DataSnoc(xs, Accepted(msg).value);
    } else {
      assert xs + [] == xs;
    }
  }

  lemma DeliveredDataBound(lookup: Lookup, xs: seq<Segment>)
    requires xs != [] && Delivered(lookup, xs).Some?
    ensures |Delivered(lookup, xs).value.data| <= |Data(xs)|
  {
    hide IsComplete, Chain;
    ChainDataBound(xs, xs[|xs| - 1].streamId);
  }

  /** From a log of less than 4 GB every output announces what it carries. */
  lemma {:induction false} OutputsWellSized(u: Settings, msgs: Msgs)
    requires ConvertersFit(u) && AllWellSized(msgs) && |Flatten(msgs)| < TWO_32
    ensures AllWellSized(Outputs(u, msgs))
  {
    hide WellSized, Native, Segments, Outputs, ConvertersFit, Flatten;
    forall i | 0 <= i < |msgs|
      ensures WellSized(Outputs(u, msgs)[i])
    {
      OutputOfMessage(u, msgs, i);
      PrefixFlatten(msgs, i + 1);
      assert msgs[..i + 1] == msgs[..i] + [msgs[i]];
      NativeWellSized(u, msgs[..i], msgs[i]);
    }
  }

  lemma PrefixFlatten(msgs: Msgs, n: nat)
    requires n <= |msgs|
    ensures |Flatten(msgs[..n])| <= |Flatten(msgs)|
  {
    hide Flatten;
    assert msgs == msgs[..n] + msgs[n..];
    FlattenAppend(msgs[..n], msgs[n..]);
  }

  lemma NativeWellSized(u: Settings, before: Msgs, msg: seq<byte>)
    requires ConvertersFit(u) && |Flatten(before + [msg])| < TWO_32
    ensures var native := Native(u, Segments(before), msg); native.Some? ==> WellSized(native.value)
  {
    hide WellSized, Segments, Unpack, ParseEthernet, CmpFrameOf, Delivered, NativeEthernet, Pack, Flatten;
    if Accepted(msg).Some? {
      var xs := Segments(before) + [Accepted(msg).value];
      AcceptedIsUnwrapped(u, Segments(before), msg);
      AcceptedIsMessage(msg);
      var f := Delivered(u.lookup, xs);
      if f.Some? {
        DeliveredDataBound(u.lookup, xs);
        SegmentsDataBound(before + [msg]);
        SegmentsSnoc(before, msg);
        NativeMessageWellSized(Unpack(msg), f.value, u.timestampSource);
      }
    }
  }

  lemma SegmentsSnoc(msgs: Msgs, msg: seq<byte>)
    ensures Segments(msgs + [msg]) == Segments(msgs) + Listed(Accepted(msg))
  {
    assert (msgs + [msg])[..|msgs|] == msgs;
  }

  lemma {:induction false} PermutedWellSized(a: Msgs, b: Msgs)
    requires multiset(a) == multiset(b) && AllWellSized(a)
    ensures AllWellSized(b)
  {
    hide WellSized;
    forall i | 0 <= i < |b|
      ensures WellSized(b[i])
    {
      assert b[i] in multiset(b) && b[i] in multiset(a);
      var j :| 0 <= j < |a| && a[j] == b[i];
    }
  }

  /**
    * An unwrapped file gives all messages back exactly when the last one written has no extra data; without sorting
    * that is the output of the last message of the log.
    */
  lemma {:induction false} UnwrappedFileIsWhole(u: Settings, c: Config, log: Msgs, timeSize: nat)
    requires c.Valid() && timeSize < STRUCT_SIZE
    requires ConvertersFit(u) && AllWellSized(log) && |Flatten(log)| < TWO_32
    ensures var out := Outputs(u, log); var written := Payloads(Output(c, Arrivals(out)));
      && AllWellSized(written) && Readable(FileOf(written), timeSize)
      && (Messages(FileOf(written), timeSize) == NormalizeAll(written)
          <==> log != [] && ExtraSize(written[|written| - 1]) == 0)
      && (!c.sorting ==> written == out)
  {
    hide WellSized, ConvertersFit, Outputs, Payloads, Arrivals, Output, ExtraSize, Flatten, FileOf, Messages, Readable;
    var out := Outputs(u, log);
    var written := Payloads(Output(c, Arrivals(out)));
    OutputsWellSized(u, log);
    EveryMessageWrittenOnce(u, c, log);
    PermutedWellSized(out, written);
    WrittenFileIsWhole(written, timeSize);
    assert |written| == |multiset(written)| == |multiset(out)| == |log|;
  }

  // ----- from the wire to the output file -----

  /** Clearing the flags of messages without extra data changes nothing for the unwrapper. */
  lemma {:induction false} NormalizedAccepted(m: seq<byte>)
    requires WellSized(m)
    ensures Accepted(Normalize(m)) == Accepted(m) && (Accepted(m).Some? ==> Normalize(m) == m)
  {
    hide Unpack, ReadBE16, ParseEthernet, SetExtraPtr;
    if ExtraSize(m) == 0 {
      NormalizedExtra(m);
    }
  }

  lemma NormalizedExtra(m: seq<byte>)
    requires |m| >= STRUCT_SIZE && ExtraSize(m) == 0
    ensures ExtraSize(Normalize(m)) == 0
  {
  }

  lemma {:induction false} NormalizedSegments(msgs: Msgs)
    requires AllWellSized(msgs)
    ensures Segments(NormalizeAll(msgs)) == Segments(msgs)
  {
    hide Accepted, WellSized, Normalize;
    if msgs != [] {
      var n := |msgs| - 1;
      var init := msgs[..n];
      WellSizedIsMessage(msgs[n]);
      NormalizedSegments(init);
      NormalizeAppend(init, [msgs[n]]);
      assert msgs == init + [msgs[n]];
      NormalizeOne(msgs[n]);
      SegmentsSnoc(NormalizeAll(init), Normalize(msgs[n]));
      SegmentsSnoc(init, msgs[n]);
      NormalizedAccepted(msgs[n]);
    }
  }

  lemma WellSizedIsMessage(m: seq<byte>)
    requires WellSized(m)
    ensures |m| >= STRUCT_SIZE
  {
  }

  lemma NormalizeOne(m: seq<byte>)
    requires WellSized(m)
    ensures NormalizeAll([m]) == [Normalize(m)]
  {
    hide WellSized, Normalize;
    assert NormalizeAll([m][1..]) == [];
  }

  lemma {:induction false} NormalizeAt(msgs: Msgs, i: nat)
    requires AllWellSized(msgs) && i < |msgs|
    ensures NormalizeAll(msgs)[i] == Normalize(msgs[i])
  {
    hide WellSized, Normalize;
    if i > 0 {
      NormalizeAt(msgs[1..], i - 1);
    }
  }

  /** What a written log delivers, when anything follows the middle part of it. */
  lemma {:induction false} ReadsBackParts(before: Msgs, msgs: Msgs, after: Msgs) returns (rest: Msgs)
    requires AllWellSized(before) && AllWellSized(msgs) && AllWellSized(after) && after != []
    ensures AllWellSized(before + msgs + after)
    ensures ReadsBack(before + msgs + after) == NormalizeAll(before) + NormalizeAll(msgs) + rest
  {
    hide WellSized, ExtraSize, Normalize, NormalizeAll;
    var all := before + msgs + after;
    NormalizeAppend(before, msgs);
    NormalizeAppend(before + msgs, after);
    var n := |after| - 1;
    assert all[..|all| - 1] == before + msgs + after[..n];
    NormalizeAppend(before + msgs, after[..n]);
    rest := if LosesLast(all) then NormalizeAll(after[..n]) else NormalizeAll(after);
  }

  /**
    * A log with the cut of a frame in it is written to a file, read and unwrapped: the output has the frame, as long
    * as something follows its END, which the reader loses when it is the last message of the file.
    */
  lemma {:induction false} CutFrameInLogFile(
      u: Settings, before: Msgs, xs: seq<Logged>, after: Msgs, sid: byte, parts: seq<seq<byte>>, timeSize: nat)
    requires CutAmong(u, xs, sid, parts) && timeSize < STRUCT_SIZE && after != []
    requires AllWellSized(before) && AllWellSized(Log(xs, sid)) && AllWellSized(after)
    ensures var file := FileOf(before + Log(xs, sid) + after);
      && Readable(file, timeSize)
      && |Messages(file, timeSize)| >= |before| + |xs|
      && Outputs(u, Messages(file, timeSize))[|before| + |xs| - 1] == NativeOfCut(u, xs, sid, parts)
  {
    hide *;
    NativeOfCutIs(u, xs, sid, parts);
    var msgs := Log(xs, sid);
    var rest := ReadsBackParts(before, msgs, after);
    WrittenFileDelivers(before + msgs + after, timeSize);
    CutInLog(u, xs, sid, parts);
    NormalizedSegments(msgs);
    NormalizeAt(msgs, |msgs| - 1);
    LastIsWellSized(msgs);
    NormalizedAccepted(msgs[|msgs| - 1]);
    CutFrameIsOutput(u, NormalizeAll(before), NormalizeAll(msgs), rest, sid, parts);
  }

  lemma LastIsWellSized(msgs: Msgs)
    requires AllWellSized(msgs) && msgs != []
    ensures WellSized(msgs[|msgs| - 1])
  {
  }

  /** The same with reader, unwrapper and writer: the native frame is among the messages of the output file. */
  method UnwrapLoggedCut(
      u: Settings, c: Config, before: Msgs, ghost xs: seq<Logged>, log: Msgs, after: Msgs, ghost sid: byte,
      ghost parts: seq<seq<byte>>, timeSize: nat)
    returns (output: VSBIOWrite)
    requires c.Valid() && !u.counting && (timeSize == 24 || timeSize == 48)
    requires CutAmong(u, xs, sid, parts) && log == Log(xs, sid) && after != []
    requires AllWellSized(before) && AllWellSized(log) && AllWellSized(after)
    ensures output.file == FileOf(output.written) && NativeOfCut(u, xs, sid, parts) in output.written
  {
    hide *;
    IsSmall(timeSize);
    NativeOfCutIs(u, xs, sid, parts);
    var input := WriteFile(before + log + after);
    CutFrameInLogFile(u, before, xs, after, sid, parts, timeSize);
    var reader := new VSBIORead(input.file, timeSize);
    output := new VSBIOWrite.Init();
    var drops, n := UnwrapCMPToNative(u, c, reader, output, None);
    AllProcessed(Messages(input.file, timeSize), n);
    AmongWritten(u, c, Messages(input.file, timeSize), |before| + |xs| - 1);
  }

  lemma IsSmall(timeSize: nat)
    requires timeSize == 24 || timeSize == 48
    ensures timeSize < STRUCT_SIZE
  {
  }

  lemma AllProcessed(log: Msgs, n: nat)
    requires StopsAfter(None, |log|, n)
    ensures log[..n] == log
  {
  }

  lemma AmongWritten(u: Settings, c: Config, log: Msgs, i: nat)
    requires c.Valid() && i < |log|
    ensures Outputs(u, log)[i] in Payloads(Output(c, Arrivals(Outputs(u, log))))
  {
    hide Outputs, Payloads, Output, Arrivals;
    EveryMessageWrittenOnce(u, c, log);
    assert Outputs(u, log)[i] in multiset(Outputs(u, log));
  }
}
