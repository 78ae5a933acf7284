/** What the reassembly definition means for whole runs: which frames come out, and that cut frames come back. */
module ReassemblyTheorems {
  import opened Bytes
  import opened VsbStruct
  import opened CmpFrame
  import opened Reassembly

  lemma {:induction false} OnStreamConcat(xs: seq<Segment>, ys: seq<Segment>, sid: byte)
    ensures OnStream(xs + ys, sid) == OnStream(xs, sid) + OnStream(ys, sid)
  {
    if ys == [] {
      assert xs + ys == xs;
    } else {
      assert (xs + ys)[..|xs + ys| - 1] == xs + ys[..|ys| - 1];
      OnStreamConcat(xs, ys[..|ys| - 1], sid);
    }
  }

  lemma {:induction false} OnStreamIsOnStream(xs: seq<Segment>, sid: byte)
    ensures forall i | 0 <= i < |OnStream(xs, sid)| ::
      OnStream(xs, sid)[i].streamId == sid && !OnStream(xs, sid)[i].kind.Unsegmented?
  {
    if xs != [] {
      OnStreamIsOnStream(xs[..|xs| - 1], sid);
    }
  }

  /** A START with no START behind it is where the chain begins, whatever came before. */
  lemma {:induction false} ChainFromStart(h: seq<Segment>, g: seq<Segment>)
    requires g != [] && g[0].kind.Start?
    requires forall i | 1 <= i < |g| :: !g[i].kind.Start?
    ensures SinceStart(h + g) == g
  {
    var p, x := g[..|g| - 1], g[|g| - 1];
    assert h + g == (h + p) + [x];
    SinceStartSnoc(h + p, x);
    if p != [] {
      ChainFromStart(h, p);
    }
  }

  /** A chain that is not empty is the whole traffic of the stream from its START on. */
  lemma {:induction false} ChainIsWholeSpan(xs: seq<Segment>, sid: byte) returns (a: nat)
    requires Chain(xs, sid) != []
    ensures a < |xs| && xs[a].kind.Start? && xs[a].streamId == sid
    ensures OnStream(xs[a..], sid) == Chain(xs, sid)
  {
    assert xs != [];
    hide Chain, SinceStart;
    var p, x := xs[..|xs| - 1], xs[|xs| - 1];
    assert xs == p + [x];
    ChainStep(p, x, sid);
    if x.streamId == sid && x.kind.Start? {
      a := |p|;
      assert xs[a..] == [] + [x];
      OnStreamSnoc([], x, sid);
    } else {
      a := ChainIsWholeSpan(p, sid);
      assert xs[a..] == p[a..] + [x];
      OnStreamSnoc(p[a..], x, sid);
    }
  }

  /** The segments of stream sid from index a on form a frame that device and interface of a map to f. */
  ghost predicate Spans(lookup: Lookup, xs: seq<Segment>, a: nat, f: Frame)
    requires xs != []
  {
    && a < |xs| && xs[a].kind.Start? && xs[a].streamId == xs[|xs| - 1].streamId
    && var c := OnStream(xs[a..], xs[a].streamId);
      IsComplete(c) && FrameFor(lookup, xs[a], Data(c)) == Some(f)
  }

  lemma SpanBeginsChain(xs: seq<Segment>, a: nat)
    requires a < |xs| && xs[a].kind.Start?
    ensures OnStream(xs[a..], xs[a].streamId) != [] && OnStream(xs[a..], xs[a].streamId)[0] == xs[a]
  {
    var sid := xs[a].streamId;
    assert xs[a..] == [xs[a]] + xs[a + 1..];
    OnStreamConcat([xs[a]], xs[a + 1..], sid);
    OnStreamSnoc([], xs[a], sid);
    assert [] + [xs[a]] == [xs[a]];
  }

  lemma SpanIsChain(lookup: Lookup, xs: seq<Segment>, a: nat, f: Frame)
    requires xs != [] && Spans(lookup, xs, a, f)
    ensures Chain(xs, xs[a].streamId) == OnStream(xs[a..], xs[a].streamId)
  {
    var sid := xs[a].streamId;
    var c := OnStream(xs[a..], sid);
    SpanBeginsChain(xs, a);
    assert c[..|c| - 1][0] == c[0];
    forall i | 1 <= i < |c|
      ensures !c[i].kind.Start?
    {
      if i < |c| - 1 {
        assert c[..|c| - 1][i] == c[i];
      }
    }
    assert xs == xs[..a] + xs[a..];
    OnStreamConcat(xs[..a], xs[a..], sid);
    ChainFromStart(OnStream(xs[..a], sid), c);
  }

  /**
    * Soundness and completeness in one: an END delivers the frame f exactly when f is the concatenation of the
    * segments of that stream from some START to this END, all of them, with consecutive counters.
    */
  lemma {:induction false} EndDeliversExactly(lookup: Lookup, xs: seq<Segment>, f: Frame)
    requires xs != [] && xs[|xs| - 1].kind.End?
    ensures Delivered(lookup, xs) == Some(f) <==> exists a :: Spans(lookup, xs, a, f)
  {
    var sid := xs[|xs| - 1].streamId;
    if Delivered(lookup, xs) == Some(f) {
      var a := ChainIsWholeSpan(xs, sid);
      SpanBeginsChain(xs, a);
      assert Spans(lookup, xs, a, f);
    }
    if exists a :: Spans(lookup, xs, a, f) {
      var a :| Spans(lookup, xs, a, f);
      SpanIsChain(lookup, xs, a, f);
      SpanBeginsChain(xs, a);
    }
  }

  lemma OnStreamOfSplit(xs: seq<Segment>, a: nat, e: nat, sid: byte)
    requires a <= e < |xs| - 1
    requires xs[e].streamId == sid && !xs[e].kind.Unsegmented?
    requires xs[|xs| - 1].streamId == sid && !xs[|xs| - 1].kind.Unsegmented?
    ensures exists i | 0 <= i < |OnStream(xs[a..], sid)| - 1 :: OnStream(xs[a..], sid)[i] == xs[e]
  {
    var n := |xs| - 1;
    assert xs[a..] == xs[a..e] + [xs[e]] + xs[e + 1..n] + [xs[n]];
    OnStreamSnoc(xs[a..e] + [xs[e]] + xs[e + 1..n], xs[n], sid);
    OnStreamConcat(xs[a..e] + [xs[e]], xs[e + 1..n], sid);
    OnStreamSnoc(xs[a..e], xs[e], sid);
    var i := |OnStream(xs[a..e], sid)|;
    assert OnStream(xs[a..], sid)[i] == xs[e];
  }

  /** Two frames of one stream never share a segment: the later one starts after the earlier one ended. */
  lemma {:induction false} FramesDoNotOverlap(lookup: Lookup, xs: seq<Segment>, e: nat, a: nat, f: Frame)
    requires e < |xs| - 1 && xs[e].kind.End? && xs[e].streamId == xs[|xs| - 1].streamId
    requires xs[|xs| - 1].kind.End? && Spans(lookup, xs, a, f)
    ensures a > e
  {
    CompleteInside(OnStream(xs[a..], xs[a].streamId));
    if a <= e {
      OnStreamOfSplit(xs, a, e, xs[a].streamId);
    }
  }

  lemma CompleteInside(c: seq<Segment>)
    requires IsComplete(c)
    ensures forall i | 0 <= i < |c| - 1 :: !c[i].kind.End?
  {
    var d := c[..|c| - 1];
    assert forall i | 0 <= i < |d| :: d[i] == c[i];
  }

  /** A frame cut into parts: START, CONTINUATIONs, END, counted on from any counter with wrap-around. */
  ghost predicate IsCut(c: seq<Segment>, parts: seq<seq<byte>>)
  {
    && |c| == |parts| >= 2
    && forall i | 0 <= i < |c| ::
      && c[i].data == parts[i]
      && c[i].counter == (c[0].counter + i) % 0x1_0000
      && c[i].kind == if i == 0 then Start else if i == |c| - 1 then End else Continuation
  }

  lemma {:induction false} DataIsFlatten(c: seq<Segment>, parts: seq<seq<byte>>)
    requires |c| == |parts| && forall i | 0 <= i < |c| :: c[i].data == parts[i]
    ensures Data(c) == Flatten(parts)
  {
    if c != [] {
      var n := |c| - 1;
      DataIsFlatten(c[..n], parts[..n]);
      FlattenSnoc(parts[..n], parts[n]);
      assert parts == parts[..n] + [parts[n]];
    }
  }

  lemma CutIsComplete(c: seq<Segment>, parts: seq<seq<byte>>)
    requires IsCut(c, parts)
    ensures IsComplete(c)
    ensures c[0].kind.Start? && forall i | 1 <= i < |c| :: !c[i].kind.Start?
  {
    var d := c[..|c| - 1];
    assert d[0] == c[0] && forall i | 0 <= i < |d| :: d[i] == c[i];
  }

  /**
    * Round trip: a frame cut into segments is delivered whole at its END, after any earlier traffic and however
    * its segments are mixed with other streams and with unsegmented messages.
    */
  lemma {:induction false} CutFrameComesBack(
      lookup: Lookup, before: seq<Segment>, xs: seq<Segment>, sid: byte, parts: seq<seq<byte>>)
    requires xs != [] && xs[|xs| - 1].streamId == sid && !xs[|xs| - 1].kind.Unsegmented?
    requires IsCut(OnStream(xs, sid), parts)
    ensures Delivered(lookup, before + xs) == FrameFor(lookup, OnStream(xs, sid)[0], Flatten(parts))
  {
    hide IsComplete, OnStream, SinceStart, Data;
    var c, all := OnStream(xs, sid), before + xs;
    CutIsComplete(c, parts);
    OnStreamConcat(before, xs, sid);
    ChainFromStart(OnStream(before, sid), c);
    LastOnStream(xs);
    DataIsFlatten(c, parts);
    assert all[|all| - 1] == xs[|xs| - 1];
  }

  lemma LastOnStream(xs: seq<Segment>)
    requires xs != [] && !xs[|xs| - 1].kind.Unsegmented?
    ensures var c := OnStream(xs, xs[|xs| - 1].streamId); c != [] && c[|c| - 1] == xs[|xs| - 1]
  {
  }

  /** The delivered message announces exactly the bytes that follow it. */
  lemma {:induction false} NativeMessageWellSized(outer: SpyMessage, f: Frame, timestampSource: int)
    requires |f.data| < TWO_32
    ensures WellSized(Pack(NativeEthernet(outer, f, timestampSource)) + f.data)
  {
    var m := NativeEthernet(outer, f, timestampSource);
    assert m.extraEnabled == 1 && m.extraPtr == |f.data|;
    hide NativeEthernet, Pack;
    UnpackPack(m, f.data);
  }
}
