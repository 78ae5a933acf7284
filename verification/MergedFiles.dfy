/** What reading a merged file gives. */
module MergedFiles {
  import opened Bytes
  import opened VsbStruct
  import opened VsbReading
  import opened VsbDelivery
  import opened VsbWriter
  import opened VsbRoundTrip
  import opened VsbMerge
  import opened VsbSplitReadBack
  import opened OutputFiles

  lemma {:induction false} FromMember(out: Msgs, source: seq<nat>, k: nat, m: seq<byte>)
    requires |out| == |source| && m in From(out, source, k)
    ensures m in out
  {
    var n := |out| - 1;
    assert out == out[..n] + [out[n]];
    if m in From(out[..n], source[..n], k) {
      FromMember(out[..n], source[..n], k, m);
    }
  }

  lemma {:induction false} MemberFrom(out: Msgs, source: seq<nat>, i: nat)
    requires |out| == |source| && i < |out|
    ensures out[i] in From(out, source, source[i])
  {
    var n := |out| - 1;
    if i < n {
      MemberFrom(out[..n], source[..n], i);
    }
  }

  lemma {:induction false} InterleavedFit(inputs: seq<Msgs>, written: Msgs, source: seq<nat>)
    requires Interleaves(inputs, written, source) && EachInputFit(inputs)
    ensures EachFit(written)
  {
    hide Fit, From;
    forall i | 0 <= i < |written|
      ensures Fit(written[i])
    {
      var k := source[i];
      MemberFrom(written, source, i);
      assert From(written, source, k) == inputs[k] && EachFit(inputs[k]);
      var j :| 0 <= j < |inputs[k]| && inputs[k][j] == written[i];
    }
  }

  /** The last message written is the last one of its file. */
  lemma {:induction false} LastOfMerge(inputs: seq<Msgs>, written: Msgs, source: seq<nat>) returns (k: nat)
    requires Interleaves(inputs, written, source) && written != []
    ensures k < |inputs| && inputs[k] != [] && inputs[k][|inputs[k]| - 1] == written[|written| - 1]
  {
    var n := |written| - 1;
    k := source[n];
    assert inputs[k] == From(written, source, k) == From(written[..n], source[..n], k) + [written[n]];
  }

  /** The last message of file k is later than the last one of every other file that has any. */
  ghost predicate EndsLatest(clock: Clock, inputs: seq<Msgs>, k: nat)
  {
    && k < |inputs| && inputs[k] != []
    && forall j | 0 <= j < |inputs| && j != k && inputs[j] != [] ::
         clock(inputs[j][|inputs[j]| - 1]) < clock(inputs[k][|inputs[k]| - 1])
  }

  lemma {:induction false} LatestIsLast(clock: Clock, inputs: seq<Msgs>, written: Msgs, source: seq<nat>, k: nat)
    requires Interleaves(inputs, written, source) && InTimeOrder(clock, written) && EndsLatest(clock, inputs, k)
    ensures written != [] && written[|written| - 1] == inputs[k][|inputs[k]| - 1]
  {
    hide From;
    var m := inputs[k][|inputs[k]| - 1];
    assert From(written, source, k) == inputs[k] && m in inputs[k];
    FromMember(written, source, k, m);
    var i :| 0 <= i < |written| && written[i] == m;
    var j := LastOfMerge(inputs, written, source);
    assert clock(written[i]) <= clock(written[|written| - 1]);
  }

  /**
    * A merged file gives all messages back exactly when the last one written has no extra data. It is the last message
    * of some file, and when the files are in time order, that of the file that ends latest.
    */
  lemma {:induction false} MergedFileIsWhole(
      files: seq<seq<byte>>, timeSize: nat, clock: Clock, written: Msgs, source: seq<nat>)
    requires timeSize < STRUCT_SIZE && forall k | 0 <= k < |files| :: Readable(files[k], timeSize)
    requires Interleaves(AllMessages(files, timeSize), written, source)
    requires AllInTimeOrder(clock, AllMessages(files, timeSize)) ==> InTimeOrder(clock, written)
    ensures AllWellSized(written) && Readable(FileOf(written), timeSize)
    ensures var inputs := AllMessages(files, timeSize); var back := Messages(FileOf(written), timeSize);
      && (back == NormalizeAll(written) <==> written != [] && ExtraSize(written[|written| - 1]) == 0)
      && (forall k: nat | AllInTimeOrder(clock, inputs) && EndsLatest(clock, inputs, k) ::
            written != [] && written[|written| - 1] == inputs[k][|inputs[k]| - 1])
  {
    hide *;
    var inputs := AllMessages(files, timeSize);
    AllMessagesFit(files, timeSize);
    InterleavedFit(inputs, written, source);
    FitIsWellSized(written);
    WrittenFileIsWhole(written, timeSize);
    LatestAreLast(clock, inputs, written, source);
  }

  lemma LatestAreLast(clock: Clock, inputs: seq<Msgs>, written: Msgs, source: seq<nat>)
    requires Interleaves(inputs, written, source)
    requires AllInTimeOrder(clock, inputs) ==> InTimeOrder(clock, written)
    ensures forall k: nat | AllInTimeOrder(clock, inputs) && EndsLatest(clock, inputs, k) ::
      written != [] && written[|written| - 1] == inputs[k][|inputs[k]| - 1]
  {
    hide Interleaves, AllInTimeOrder, InTimeOrder;
    forall k: nat | AllInTimeOrder(clock, inputs) && EndsLatest(clock, inputs, k)
      ensures written != [] && written[|written| - 1] == inputs[k][|inputs[k]| - 1]
    {
      LatestIsLast(clock, inputs, written, source, k);
    }
  }

  lemma AllMessagesFit(files: seq<seq<byte>>, timeSize: nat)
    requires forall k | 0 <= k < |files| :: Readable(files[k], timeSize)
    ensures EachInputFit(AllMessages(files, timeSize))
  {
    hide Messages, Readable, EachFit;
  }
}
