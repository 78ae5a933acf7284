/** What an unwrapping run guarantees for the messages of a log, and for frames put on the wire. */
module UnwrapperTheorems {
  import opened Bytes
  import opened VsbStruct
  import opened KeyedSort
  import opened OutputBuffer
  import opened CmpFrame
  import opened Reassembly
  import opened ReassemblyTheorems
  import opened LossTracker
  import opened Unwrapper

  lemma TakeOut<T>(s: seq<T>, t: seq<T>) returns (j: nat)
    requires s != [] && multiset(s) == multiset(t)
    ensures j < |t| && t[j] == s[|s| - 1]
    ensures multiset(s[..|s| - 1]) == multiset(t[..j] + t[j + 1..])
  {
    var n := |s| - 1;
    assert s == s[..n] + [s[n]];
    assert s[n] in multiset(t);
    j :| 0 <= j < |t| && t[j] == s[n];
    WithoutOne(s, n);
    WithoutOne(t, j);
    assert s[n + 1..] == [] && s[..n] + [] == s[..n];
  }

  lemma WithoutOne<T>(s: seq<T>, j: nat)
    requires j < |s|
    ensures multiset(s[..j] + s[j + 1..]) == multiset(s) - multiset{s[j]}
  {
    assert s == s[..j] + [s[j]] + s[j + 1..];
  }

  lemma {:induction false} PayloadsPermute(s: seq<Keyed>, t: seq<Keyed>)
    requires multiset(s) == multiset(t)
    ensures multiset(Payloads(s)) == multiset(Payloads(t))
  {
    if s == [] {
      assert |multiset(t)| == 0;
    } else {
      var n := |s| - 1;
      var j := TakeOut(s, t);
      PayloadsPermute(s[..n], t[..j] + t[j + 1..]);
      assert Payloads(s) == Payloads(s[..n]) + [s[n].bytes];
      assert Payloads(t) == Payloads(t[..j]) + [t[j].bytes] + Payloads(t[j + 1..]);
      assert Payloads(t[..j] + t[j + 1..]) == Payloads(t[..j]) + Payloads(t[j + 1..]);
    }
  }

  /**
    * Conservation: the writer receives the output of every processed message, each once, and in order when not
    * sorting.
    */
  lemma {:induction false} EveryMessageWrittenOnce(u: Settings, c: Config, msgs: seq<seq<byte>>)
    requires c.Valid()
    ensures var out := Outputs(u, msgs); var written := Payloads(Output(c, Arrivals(out)));
      && |out| == |msgs|
      && multiset(written) == multiset(out)
      && (!c.sorting ==> written == out)
  {
    var out := Outputs(u, msgs);
    var xs := Arrivals(out);
    OutputIsPermutation(c, xs);
    PayloadsPermute(Output(c, xs), xs);
    assert Payloads(xs) == out;
    if !c.sorting {
      UnsortedIsIdentity(c, xs);
    }
  }

  /** Output i is message i, or its native form after the segments of the messages before it. */
  lemma {:induction false} OutputOfMessage(u: Settings, msgs: seq<seq<byte>>, i: nat)
    requires i < |msgs|
    ensures var native := Native(u, Segments(msgs[..i]), msgs[i]);
      Outputs(u, msgs)[i] == if native.Some? then native.value else msgs[i]
  {
    if i < |msgs| - 1 {
      OutputOfMessage(u, msgs[..|msgs| - 1], i);
      assert msgs[..|msgs| - 1][..i] == msgs[..i];
    }
  }

  lemma {:induction false} SegmentsConcat(a: seq<seq<byte>>, b: seq<seq<byte>>)
    ensures Segments(a + b) == Segments(a) + Segments(b)
  {
    hide Accepted;
    if b == [] {
      assert a + b == a;
    } else {
      assert (a + b)[..|a + b| - 1] == a + b[..|b| - 1];
      SegmentsConcat(a, b[..|b| - 1]);
    }
  }

  /** The frame that segments with these parts make up, with network and time of its START. */
  function FrameOfParts(u: Settings, first: Segment, parts: seq<seq<byte>>): Frame
    requires u.lookup(first.deviceId, first.interfaceId).Some?
  {
    Frame(u.lookup(first.deviceId, first.interfaceId).value, first.timestamp, Flatten(parts))
  }

  function NativeMessage(u: Settings, outer: SpyMessage, f: Frame): seq<byte>
  {
    Pack(NativeEthernet(outer, f, u.timestampSource)) + f.data
  }

  /** The history at a message that is accepted, in a log put together from three. */
  lemma SegmentsUpTo(before: seq<seq<byte>>, msgs: seq<seq<byte>>, after: seq<seq<byte>>)
    requires msgs != [] && Accepted(msgs[|msgs| - 1]).Some?
    ensures var all := before + msgs + after; var i := |before| + |msgs| - 1;
      && all[i] == msgs[|msgs| - 1]
      && Segments(all[..i]) + [Accepted(all[i]).value] == Segments(before) + Segments(msgs)
  {
    hide Accepted;
    var all, i, n := before + msgs + after, |before| + |msgs| - 1, |msgs| - 1;
    assert all[..i] == before + msgs[..n];
    SegmentsConcat(before, msgs[..n]);
    assert Segments(msgs) == Segments(msgs[..n]) + [Accepted(msgs[n]).value];
  }

  /**
    * A frame cut into segments comes out whole: after any log `before` and before any log `after`, if the accepted
    * segments of stream sid in `msgs` are the parts of a frame and the last of these messages is its END, the output
    * for that message is the native Ethernet message with the frame's bytes, provided device and interface of the
    * START are mapped.
    */
  lemma {:induction false} CutFrameIsOutput(
      u: Settings, before: seq<seq<byte>>, msgs: seq<seq<byte>>, after: seq<seq<byte>>,
      sid: byte, parts: seq<seq<byte>>)
    requires msgs != [] && Accepted(msgs[|msgs| - 1]).Some?
    requires var s := Accepted(msgs[|msgs| - 1]).value; s.streamId == sid && !s.kind.Unsegmented?
    requires IsCut(OnStream(Segments(msgs), sid), parts)
    requires var first := OnStream(Segments(msgs), sid)[0]; u.lookup(first.deviceId, first.interfaceId).Some?
    ensures Outputs(u, before + msgs + after)[|before| + |msgs| - 1]
         == NativeMessage(u, Unpack(msgs[|msgs| - 1]), FrameOfParts(u, OnStream(Segments(msgs), sid)[0], parts))
  {
    hide *;
    CutIsSomething(OnStream(Segments(msgs), sid), parts);
    SegmentsUpTo(before, msgs, after);
    LastSegment(msgs);
    CutIsDelivered(u, Segments(before), Segments(msgs), sid, parts);
    OutputOfAccepted(u, before + msgs + after, |before| + |msgs| - 1, Segments(before) + Segments(msgs),
                     FrameOfParts(u, OnStream(Segments(msgs), sid)[0], parts));
  }

  lemma CutIsSomething(c: seq<Segment>, parts: seq<seq<byte>>)
    requires IsCut(c, parts)
    ensures c != []
  {
  }

  lemma CutIsDelivered(u: Settings, before: seq<Segment>, xs: seq<Segment>, sid: byte, parts: seq<seq<byte>>)
    requires xs != [] && xs[|xs| - 1].streamId == sid && !xs[|xs| - 1].kind.Unsegmented?
    requires IsCut(OnStream(xs, sid), parts)
    requires var first := OnStream(xs, sid)[0]; u.lookup(first.deviceId, first.interfaceId).Some?
    ensures Delivered(u.lookup, before + xs) == Some(FrameOfParts(u, OnStream(xs, sid)[0], parts))
  {
    hide Delivered, IsCut, OnStream, Flatten;
    CutFrameComesBack(u.lookup, before, xs, sid, parts);
  }

  /** A message that is accepted and completes a frame is replaced by it. */
  lemma OutputOfAccepted(u: Settings, msgs: seq<seq<byte>>, i: nat, history: seq<Segment>, f: Frame)
    requires i < |msgs| && Accepted(msgs[i]).Some?
    requires history == Segments(msgs[..i]) + [Accepted(msgs[i]).value] && Delivered(u.lookup, history) == Some(f)
    ensures Outputs(u, msgs)[i] == NativeMessage(u, Unpack(msgs[i]), f)
  {
    hide Accepted, Outputs, Segments, Delivered, Native, Pack, Unpack, NativeEthernet;
    OutputOfMessage(u, msgs, i);
    AcceptedIsUnwrapped(u, Segments(msgs[..i]), msgs[i]);
  }

  lemma LastSegment(msgs: seq<seq<byte>>)
    requires msgs != [] && Accepted(msgs[|msgs| - 1]).Some?
    ensures var xs := Segments(msgs); xs != [] && xs[|xs| - 1] == Accepted(msgs[|msgs| - 1]).value
  {
    hide Accepted;
  }

  lemma AcceptedIsUnwrapped(u: Settings, before: seq<Segment>, msg: seq<byte>)
    requires Accepted(msg).Some?
    ensures Native(u, before, msg)
         == NativeOf(Unpack(msg), Delivered(u.lookup, before + [Accepted(msg).value]), u.timestampSource)
  {
    hide Unpack, ParseEthernet, Delivered, NativeEthernet;
  }

  lemma AcceptedIsMessage(msg: seq<byte>)
    requires Accepted(msg).Some?
    ensures |msg| >= STRUCT_SIZE
  {
    hide ParseEthernet, ExtraSize, Unpack;
  }

  /** STARTs and CONTINUATIONs go to the output as they are, whether or not their frame is put together later. */
  lemma {:induction false} SegmentsPassThrough(u: Settings, msgs: seq<seq<byte>>, i: nat)
    requires i < |msgs| && Accepted(msgs[i]).Some?
    requires Accepted(msgs[i]).value.kind.Start? || Accepted(msgs[i]).value.kind.Continuation?
    ensures Outputs(u, msgs)[i] == msgs[i]
  {
    hide Outputs, Accepted;
    OutputOfMessage(u, msgs, i);
    AcceptedIsUnwrapped(u, Segments(msgs[..i]), msgs[i]);
  }

  /**
    * The message of an END is replaced by a frame exactly when the segments of its stream from some START to it make
    * up one; otherwise it goes to the output as it is.
    */
  lemma {:induction false} EndIsReplacedIff(u: Settings, msgs: seq<seq<byte>>, i: nat)
    requires i < |msgs| && Accepted(msgs[i]).Some? && Accepted(msgs[i]).value.kind.End?
    ensures var xs := Segments(msgs[..i + 1]); var native := Native(u, Segments(msgs[..i]), msgs[i]);
      && xs != []
      && (native.Some? <==> exists a, f :: Spans(u.lookup, xs, a, f))
      && (forall a, f | Spans(u.lookup, xs, a, f) ::
            Outputs(u, msgs)[i] == NativeMessage(u, Unpack(msgs[i]), f))
      && ((forall a, f :: !Spans(u.lookup, xs, a, f)) ==> Outputs(u, msgs)[i] == msgs[i])
  {
    hide Outputs, Accepted, Native, NativeEthernet, Pack, Unpack, Delivered, Spans;
    var before, s := Segments(msgs[..i]), Accepted(msgs[i]).value;
    var xs := before + [s];
    assert msgs[..i + 1] == msgs[..i] + [msgs[i]];
    HistorySteps(u, msgs[..i], msgs[i]);
    OutputOfMessage(u, msgs, i);
    AcceptedIsUnwrapped(u, before, msgs[i]);
    assert xs[|xs| - 1] == s;
    var delivered := Delivered(u.lookup, xs);
    forall a, f | Spans(u.lookup, xs, a, f)
      ensures delivered == Some(f)
    {
      EndDeliversExactly(u.lookup, xs, f);
    }
    if delivered.Some? {
      EndDeliversExactly(u.lookup, xs, delivered.value);
    }
  }

  // ----- which message a drop event belongs to -----

  /** Event i is the one that message j caused: it is the i-th, and the messages before j caused those before it. */
  ghost predicate CausedBy(msgs: seq<seq<byte>>, counting: bool, i: nat, j: nat)
  {
    && j < |msgs|
    && |Drops(Sightings(msgs[..j], counting))| == i
    && |Drops(Sightings(msgs[..j + 1], counting))| == i + 1
  }

  /** A drop event carries the number of the message that caused it exactly when there is a callback to count for. */
  lemma {:induction false} EventNumberIff(msgs: seq<seq<byte>>, counting: bool, i: nat) returns (j: nat)
    requires i < |Drops(Sightings(msgs, counting))|
    ensures CausedBy(msgs, counting, i, j)
    ensures var e := Drops(Sightings(msgs, counting))[i];
      && Sighted(msgs[j], e.messageIndex) == Some(Sighting(e.messageIndex, e.key, e.actualSeq))
      && (e.messageIndex == j + 1 <==> counting)
  {
    hide Sighted, Drops, Sightings;
    if msgs == [] {
      NoDrops(counting);
    } else {
      var n := |msgs| - 1;
      var fewer, last := msgs[..n], msgs[n];
      assert msgs == fewer + [last];
      DropsStep(fewer, last, counting);
      if i < |Drops(Sightings(fewer, counting))| {
        j := EventNumberIff(fewer, counting, i);
        assert fewer[..j] == msgs[..j] && fewer[..j + 1] == msgs[..j + 1];
      } else {
        j := n;
        assert msgs[..j + 1] == msgs;
      }
    }
  }

  lemma NoDrops(counting: bool)
    ensures Drops(Sightings([], counting)) == []
  {
  }

  lemma DropsStep(msgs: seq<seq<byte>>, msg: seq<byte>, counting: bool)
    ensures var number := if counting then |msgs| + 1 else 0;
      var drops := Drops(Sightings(msgs + [msg], counting)); var before := Drops(Sightings(msgs, counting));
      && before <= drops && |drops| <= |before| + 1
      && (|drops| > |before| ==>
            var e := drops[|before|];
            e.messageIndex == number && Sighted(msg, number) == Some(Sighting(number, e.key, e.actualSeq)))
  {
    hide Sighted, OnKey, DropFor, Drops;
    var number := if counting then |msgs| + 1 else 0;
    assert (msgs + [msg])[..|msgs|] == msgs;
    if Sighted(msg, number).Some? {
      var x := Sighted(msg, number).value;
      SightedNumber(msg, number);
      HistoryStep(Sightings(msgs, counting), x, x.key);
      OneDrop(OnKey(Sightings(msgs, counting), x.key), x);
    } else {
      assert Sightings(msgs, counting) + [] == Sightings(msgs, counting);
    }
  }

  lemma OneDrop(seen: seq<uint16>, x: Sighting)
    ensures var drops := DropFor(seen, x);
      && |drops| <= 1
      && forall e | e in drops :: e.messageIndex == x.messageIndex && e.key == x.key && e.actualSeq == x.counter
  {
  }

  lemma SightedNumber(msg: seq<byte>, number: nat)
    ensures Sighted(msg, number).Some? ==> Sighted(msg, number).value.messageIndex == number
  {
  }

  // ----- the round trip from the wire -----

  /** A logged message: a segment in its wire form behind an Ethernet structure, or anything else. */
  datatype Logged = Sent(outer: SpyMessage, addresses: seq<byte>, segment: Segment) | Foreign(message: seq<byte>)

  predicate Sendable(x: Logged)
  {
    x.Sent? ==>
      && |x.addresses| == ETHERTYPE_OFFSET && |x.segment.data| + ETH_HEADER_SIZE < 0x1_0000
      && x.outer.protocol == PROTOCOL_ETHERNET && x.outer.extraEnabled != 0
      && x.outer.extraPtr == ETH_DATA_OFFSET + |x.segment.data|
  }

  function MessageOf(x: Logged): seq<byte>
    requires Sendable(x)
  {
    if x.Sent? then Pack(x.outer) + BuildFrame(x.addresses, x.segment) else x.message
  }

  /** The rest of the log says nothing on stream sid; unsegmented messages and other streams may well be in it. */
  predicate KeepsOff(x: Logged, sid: byte)
  {
    x.Foreign? && Accepted(x.message).Some? ==>
      Accepted(x.message).value.streamId != sid || Accepted(x.message).value.kind.Unsegmented?
  }

  ghost predicate Traffic(xs: seq<Logged>, sid: byte)
  {
    forall i | 0 <= i < |xs| :: Sendable(xs[i]) && KeepsOff(xs[i], sid)
  }

  ghost function Log(xs: seq<Logged>, sid: byte): (msgs: seq<seq<byte>>)
    requires Traffic(xs, sid)
    ensures |msgs| == |xs|
  {
    seq(|xs|, i requires 0 <= i < |xs| => MessageOf(xs[i]))
  }

  function SentSegments(xs: seq<Logged>): seq<Segment>
  {
    if xs == [] then []
    else
      var x := xs[|xs| - 1];
      SentSegments(xs[..|xs| - 1]) + if x.Sent? then [x.segment] else []
  }

  /** A segment put on the wire and logged is accepted as it was. */
  lemma {:induction false} SentIsAccepted(x: Logged)
    requires Sendable(x) && x.Sent?
    ensures Accepted(MessageOf(x)) == Some(x.segment)
  {
    hide Pack, Unpack, BuildFrame, ParseEthernet, ExtraSize, ReadBE16;
    var edp := BuildFrame(x.addresses, x.segment);
    ParseOfBuild(x.addresses, x.segment);
    UnpackPack(x.outer, edp);
    PackedExtraSize(x.outer, edp);
    assert MessageOf(x)[STRUCT_SIZE..] == edp;
    assert edp[PAYLOAD_TYPE_OFFSET] == PAYLOAD_ETHERNET by { ParsedIsEthernet(edp); }
  }

  lemma PackedExtraSize(m: SpyMessage, rest: seq<byte>)
    requires m.extraEnabled != 0
    ensures ExtraSize(Pack(m) + rest) == m.extraPtr
  {
    hide Pack;
    UnpackPack(m, rest);
  }

  lemma ParsedIsEthernet(edp: seq<byte>)
    requires ParseEthernet(edp).Some?
    ensures HasHeaders(edp) && edp[PAYLOAD_TYPE_OFFSET] == PAYLOAD_ETHERNET
  {
  }

  lemma {:induction false} StreamOfLog(xs: seq<Logged>, sid: byte)
    requires Traffic(xs, sid)
    ensures OnStream(Segments(Log(xs, sid)), sid) == OnStream(SentSegments(xs), sid)
  {
    hide Accepted, MessageOf, OnStream, Sendable, KeepsOff;
    if xs != [] {
      var n := |xs| - 1;
      var x, msgs := xs[n], Log(xs, sid);
      assert Sendable(x) && KeepsOff(x, sid);
      StreamOfLog(xs[..n], sid);
      assert msgs[..n] == Log(xs[..n], sid);
      assert msgs[n] == MessageOf(x);
      StreamStep(Segments(msgs[..n]), SentSegments(xs[..n]), x, sid);
    }
  }

  lemma StreamStep(accepted: seq<Segment>, sent: seq<Segment>, x: Logged, sid: byte)
    requires Sendable(x) && KeepsOff(x, sid) && OnStream(accepted, sid) == OnStream(sent, sid)
    ensures OnStream(accepted + Listed(Accepted(MessageOf(x))), sid)
         == OnStream(sent + if x.Sent? then [x.segment] else [], sid)
  {
    hide Accepted, MessageOf, OnStream, Sendable;
    assert accepted + [] == accepted && sent + [] == sent;
    if x.Sent? {
      SentIsAccepted(x);
      OnStreamSnoc(accepted, x.segment, sid);
      OnStreamSnoc(sent, x.segment, sid);
    } else {
      ForeignMessage(x);
      if Accepted(x.message).Some? {
        OnStreamSnoc(accepted, Accepted(x.message).value, sid);
      }
    }
  }

  lemma ForeignMessage(x: Logged)
    requires x.Foreign?
    ensures MessageOf(x) == x.message
  {
  }

  /** The cut of a frame is among some traffic: its last part is the last message, device and interface are mapped. */
  ghost predicate CutAmong(u: Settings, xs: seq<Logged>, sid: byte, parts: seq<seq<byte>>)
  {
    && Traffic(xs, sid) && IsCut(OnStream(SentSegments(xs), sid), parts)
    && xs != [] && xs[|xs| - 1].Sent? && xs[|xs| - 1].segment.streamId == sid
    && !xs[|xs| - 1].segment.kind.Unsegmented?
    && var first := OnStream(SentSegments(xs), sid)[0]; u.lookup(first.deviceId, first.interfaceId).Some?
  }

  /** The native message such a frame becomes. */
  ghost function NativeOfCut(u: Settings, xs: seq<Logged>, sid: byte, parts: seq<seq<byte>>): seq<byte>
    requires CutAmong(u, xs, sid, parts)
  {
    NativeMessage(u, xs[|xs| - 1].outer, FrameOfParts(u, OnStream(SentSegments(xs), sid)[0], parts))
  }

  /**
    * The whole round trip, from the wire: a frame is cut into segments on stream sid, counted on from any counter;
    * they are put on the wire and logged, anywhere between messages that keep off the stream, after any log before
    * and before any log after. The output for the last of them is the frame.
    */
  lemma {:induction false} CutFrameSurvivesWire(
      u: Settings, before: seq<seq<byte>>, xs: seq<Logged>, after: seq<seq<byte>>, sid: byte, parts: seq<seq<byte>>)
    requires CutAmong(u, xs, sid, parts)
    ensures Outputs(u, before + Log(xs, sid) + after)[|before| + |xs| - 1] == NativeOfCut(u, xs, sid, parts)
  {
    hide *;
    NativeOfCutIs(u, xs, sid, parts);
    CutInLog(u, xs, sid, parts);
    CutFrameIsOutput(u, before, Log(xs, sid), after, sid, parts);
  }

  lemma NativeOfCutIs(u: Settings, xs: seq<Logged>, sid: byte, parts: seq<seq<byte>>)
    requires CutAmong(u, xs, sid, parts)
    ensures Traffic(xs, sid) && xs != [] && xs[|xs| - 1].Sent? && OnStream(SentSegments(xs), sid) != []
    ensures var first := OnStream(SentSegments(xs), sid)[0];
      && u.lookup(first.deviceId, first.interfaceId).Some?
      && NativeOfCut(u, xs, sid, parts) == NativeMessage(u, xs[|xs| - 1].outer, FrameOfParts(u, first, parts))
  {
    hide OnStream, SentSegments, NativeMessage, FrameOfParts, Traffic;
  }

  /** The cut is in the log as the unwrapper sees it. */
  lemma CutInLog(u: Settings, xs: seq<Logged>, sid: byte, parts: seq<seq<byte>>)
    requires CutAmong(u, xs, sid, parts)
    ensures var msgs := Log(xs, sid); var last := xs[|xs| - 1];
      && msgs != [] && |msgs| == |xs| && Accepted(msgs[|msgs| - 1]) == Some(last.segment)
      && last.segment.streamId == sid && !last.segment.kind.Unsegmented?
      && OnStream(Segments(msgs), sid) == OnStream(SentSegments(xs), sid)
      && IsCut(OnStream(Segments(msgs), sid), parts)
      && Unpack(msgs[|msgs| - 1]) == last.outer
  {
    hide Accepted, IsCut, OnStream, Unpack, MessageOf, Segments, SentSegments, Sendable;
    var last := xs[|xs| - 1];
    assert Sendable(last);
    assert Log(xs, sid)[|xs| - 1] == MessageOf(last);
    StreamOfLog(xs, sid);
    SentIsAccepted(last);
    OuterOfSent(last);
  }

  lemma OuterOfSent(x: Logged)
    requires Sendable(x) && x.Sent?
    ensures Unpack(MessageOf(x)) == x.outer
  {
    UnpackPack(x.outer, BuildFrame(x.addresses, x.segment));
  }
}
