/**
  * Reassembly of segmented Ethernet frames. The running contexts are proved against a definition that
  * looks only at the history of accepted segments: a frame is delivered at an END exactly when the segments
  * of its stream since the last START form an unbroken chain.
  */
module Reassembly {
  import opened Bytes
  import opened VsbStruct
  import opened TimeDecoder
  import opened CmpFrame

  /** Table from device and interface to the 16-bit network id. */
  type Lookup = (uint16, uint32) -> Option<uint16>

  datatype Context = Context(
    active: bool, expected: uint16, timestamp: uint64, deviceId: uint16, interfaceId: uint32, data: seq<byte>)

  /** What a delivered Ethernet message is made from. */
  datatype Frame = Frame(networkId: uint16, timestamp: uint64, data: seq<byte>)

  // ----- the reference definition, on histories of accepted segments -----

  /** The segments of one stream; unsegmented messages are not among them. */
  function OnStream(xs: seq<Segment>, sid: byte): seq<Segment>
  {
    if xs == [] then []
    else
      var x := xs[|xs| - 1];
      OnStream(xs[..|xs| - 1], sid) + if x.streamId == sid && !x.kind.Unsegmented? then [x] else []
  }

  /** The segments from the last START on. */
  function SinceStart(h: seq<Segment>): seq<Segment>
  {
    if h == [] then []
    else if h[|h| - 1].kind.Start? then [h[|h| - 1]]
    else
      var t := SinceStart(h[..|h| - 1]);
      if t == [] then [] else t + [h[|h| - 1]]
  }

  ghost predicate Consecutive(c: seq<Segment>)
  {
    forall i | 0 <= i < |c| :: c[i].counter == (c[0].counter + i) % 0x1_0000
  }

  /** A START and nothing but CONTINUATIONs after it, counted without a gap. */
  ghost predicate IsOpen(c: seq<Segment>)
  {
    && c != [] && c[0].kind.Start? && Consecutive(c)
    && forall i | 1 <= i < |c| :: c[i].kind.Continuation?
  }

  /** ... closed by an END. */
  ghost predicate IsComplete(c: seq<Segment>)
  {
    && |c| >= 2 && IsOpen(c[..|c| - 1]) && Consecutive(c) && c[|c| - 1].kind.End?
  }

  function Data(c: seq<Segment>): seq<byte>
  {
    if c == [] then [] else Data(c[..|c| - 1]) + c[|c| - 1].data
  }

  function FrameFor(lookup: Lookup, s: Segment, data: seq<byte>): Option<Frame>
  {
    match lookup(s.deviceId, s.interfaceId)
    case None => None
    case Some(net) => Some(Frame(net, s.timestamp, data))
  }

  /** What the last segment of a history delivers. */
  ghost function Delivered(lookup: Lookup, xs: seq<Segment>): Option<Frame>
    requires xs != []
  {
    var x := xs[|xs| - 1];
    match x.kind
    case Unsegmented => FrameFor(lookup, x, x.data)
    case End =>
      var c := Chain(xs, x.streamId);
      if IsComplete(c) then FrameFor(lookup, c[0], Data(c)) else None
    case _ => None
  }

  /** The context an open chain calls for. */
  ghost function ContextFor(c: seq<Segment>): Option<Context>
  {
    if IsOpen(c) then
      Some(Context(true, (c[0].counter + |c|) % 0x1_0000, c[0].timestamp, c[0].deviceId, c[0].interfaceId, Data(c)))
    else None
  }

  function ActiveContext(contexts: map<byte, Context>, sid: byte): Option<Context>
  {
    if sid in contexts && contexts[sid].active then Some(contexts[sid]) else None
  }

  ghost function Chain(xs: seq<Segment>, sid: byte): seq<Segment>
  {
    SinceStart(OnStream(xs, sid))
  }

  /** The context of a stream says what the history of that stream says. */
  ghost predicate Matches(contexts: map<byte, Context>, xs: seq<Segment>, sid: byte)
  {
    ActiveContext(contexts, sid) == ContextFor(Chain(xs, sid))
  }

  lemma OnStreamSnoc(xs: seq<Segment>, x: Segment, sid: byte)
    ensures OnStream(xs + [x], sid)
         == OnStream(xs, sid) + if x.streamId == sid && !x.kind.Unsegmented? then [x] else []
  {
    assert (xs + [x])[..|xs|] == xs;
  }

  lemma SinceStartSnoc(h: seq<Segment>, x: Segment)
    ensures SinceStart(h + [x])
         == if x.kind.Start? then [x] else if SinceStart(h) == [] then [] else SinceStart(h) + [x]
  {
    assert (h + [x])[..|h|] == h;
  }

  lemma DataSnoc(c: seq<Segment>, x: Segment)
    ensures Data(c + [x]) == Data(c) + x.data
  {
    assert (c + [x])[..|c|] == c;
  }

  /** How the chain of a stream changes with one more segment. */
  ghost function NextChain(c: seq<Segment>, x: Segment): seq<Segment>
  {
    if x.kind.Start? then [x] else if c == [] then [] else c + [x]
  }

  lemma ChainStep(xs: seq<Segment>, x: Segment, sid: byte)
    ensures Chain(xs + [x], sid)
         == if x.streamId == sid && !x.kind.Unsegmented? then NextChain(Chain(xs, sid), x) else Chain(xs, sid)
  {
    OnStreamSnoc(xs, x, sid);
    SinceStartSnoc(OnStream(xs, sid), x);
    assert OnStream(xs, sid) + [] == OnStream(xs, sid);
  }

  lemma StartStep(c: seq<Segment>, x: Segment)
    requires x.kind.Start?
    ensures ContextFor(NextChain(c, x))
         == Some(Context(true, (x.counter + 1) % 0x1_0000, x.timestamp, x.deviceId, x.interfaceId, x.data))
  {
    DataSnoc([], x);
    assert [] + [x] == [x] && Data([]) + x.data == x.data;
    assert IsOpen([x]);
  }

  lemma ConsecutiveStep(c: seq<Segment>, x: Segment)
    requires c != []
    ensures Consecutive(c + [x]) <==> Consecutive(c) && x.counter == (c[0].counter + |c|) % 0x1_0000
  {
    var d := c + [x];
    assert d[|c|] == x;
    if Consecutive(d) {
      assert d[|c|].counter == (d[0].counter + |c|) % 0x1_0000;
      assert forall i | 0 <= i < |c| :: c[i] == d[i];
    }
  }

  lemma OpenStep(c: seq<Segment>, x: Segment)
    requires c != []
    ensures x.kind.Continuation? ==>
      (IsOpen(c + [x]) <==> IsOpen(c) && x.counter == (c[0].counter + |c|) % 0x1_0000)
    ensures x.kind.End? ==> !IsOpen(c + [x])
    ensures x.kind.End? ==>
      (IsComplete(c + [x]) <==> IsOpen(c) && x.counter == (c[0].counter + |c|) % 0x1_0000)
  {
    hide Consecutive;
    var d := c + [x];
    ConsecutiveStep(c, x);
    assert d[|c|] == x && d[..|c|] == c;
    if IsOpen(d) {
      assert forall i | 1 <= i < |c| :: c[i] == d[i];
    }
  }

  lemma NothingIsOpen()
    ensures !IsOpen([]) && !IsComplete([])
  {
  }

  /** A CONTINUATION extends an open chain when it carries the expected counter, and breaks it otherwise. */
  lemma ContinuationStep(c: seq<Segment>, x: Segment)
    requires x.kind.Continuation?
    ensures ContextFor(NextChain(c, x)) ==
      match ContextFor(c)
      case None => None
      case Some(k) =>
        if x.counter != k.expected then None
        else Some(k.(data := k.data + x.data, expected := (k.expected + 1) % 0x1_0000))
  {
    hide IsOpen, Data;
    NothingIsOpen();
    if c != [] {
      OpenStep(c, x);
      DataSnoc(c, x);
    }
  }

  /** An END closes the chain in any case, and completes it when it carries the expected counter. */
  lemma EndStep(c: seq<Segment>, x: Segment)
    requires x.kind.End?
    ensures ContextFor(NextChain(c, x)) == None
    ensures IsComplete(NextChain(c, x)) <==> ContextFor(c).Some? && x.counter == ContextFor(c).value.expected
    ensures IsComplete(NextChain(c, x)) ==>
      var d := NextChain(c, x); var k := ContextFor(c).value;
      && Data(d) == k.data + x.data
      && d[0].deviceId == k.deviceId && d[0].interfaceId == k.interfaceId && d[0].timestamp == k.timestamp
  {
    hide IsOpen, Data;
    NothingIsOpen();
    if c != [] {
      OpenStep(c, x);
      DataSnoc(c, x);
    }
  }

  // ----- the running machine -----

  function CopyTimestamp(outer: SpyMessage, m: SpyMessage): SpyMessage
  {
    m.(timeHardware := outer.timeHardware, timeHardware2 := outer.timeHardware2,
       timeSystem := outer.timeSystem, timeSystem2 := outer.timeSystem2,
       hardwareId := outer.hardwareId, systemId := outer.systemId)
  }

  function EthernetFields(f: Frame): SpyMessage
  {
    var length: uint32 := |f.data| % TWO_32;
    ZERO.(status := STATUS_NETWORK_MESSAGE_TYPE, protocol := PROTOCOL_ETHERNET,
          networkId := ByteOf(f.networkId, 0), networkId2 := ByteOf(f.networkId, 1),
          bytesData := ByteOf(length, 0), extraEnabled := 1, extraPtr := length)
  }

  /** The native Ethernet message: all data bytes follow the structure. */
  function NativeEthernet(outer: SpyMessage, f: Frame, timestampSource: int): SpyMessage
  {
    if timestampSource == 0 then SetMessageTime(EthernetFields(f), f.timestamp)
    else CopyTimestamp(outer, EthernetFields(f))
  }

  class Reassembler {
    const lookup: Lookup
    var segmentContexts: map<byte, Context>
    ghost var history: seq<Segment>

    ghost predicate Valid()
      reads this
    {
      forall sid: byte :: Matches(segmentContexts, history, sid)
    }

    constructor (lookup: Lookup)
      ensures Valid() && history == [] && this.lookup == lookup
    {
      this.lookup := lookup;
      segmentContexts, history := map[], [];
    }

    method TryUnwrapCmpEthernet(outer: SpyMessage, edp: seq<byte>, timestampSource: int)
      returns (ok: bool, outMsg: SpyMessage, outExtra: seq<byte>)
      requires Valid()
      modifies this
      ensures Valid()
      ensures ParseEthernet(edp).None? ==> !ok && history == old(history)
      ensures ParseEthernet(edp).Some? ==> history == old(history) + [ParseEthernet(edp).value]
      ensures ParseEthernet(edp).Some? ==>
        match Delivered(lookup, history)
        case None => !ok
        case Some(f) => ok && outExtra == f.data && outMsg == NativeEthernet(outer, f, timestampSource)
    {
      ok, outMsg, outExtra := false, ZERO, [];
      var parsed := ParseEthernet(edp);
      if parsed.None? {
        return;
      }
      var s := parsed.value;
      var frame := Accept(s);
      if frame.Some? {
        ok, outExtra := true, frame.value.data;
        outMsg := NativeEthernet(outer, frame.value, timestampSource);
      }
    }

    method Accept(s: Segment) returns (frame: Option<Frame>)
      requires Valid()
      modifies this
      ensures Valid() && history == old(history) + [s]
      ensures frame == Delivered(lookup, history)
    {
      hide IsOpen, SinceStart, OnStream;
      ghost var before, xs := segmentContexts, history;
      ghost var c := Chain(xs, s.streamId);
      var sid := s.streamId;
      frame := None;
      history := history + [s];
      ChainStep(xs, s, sid);
      assert Matches(before, xs, sid);
      match s.kind {
        case Unsegmented =>
          var net := lookup(s.deviceId, s.interfaceId);
          if net.Some? {
            frame := Some(Frame(net.value, s.timestamp, s.data));
          }
        case Start =>
          StartStep(c, s);
          segmentContexts := segmentContexts[sid :=
            Context(true, (s.counter + 1) % 0x1_0000, s.timestamp, s.deviceId, s.interfaceId, s.data)];
        case Continuation =>
          ContinuationStep(c, s);
          if sid in segmentContexts && segmentContexts[sid].active {
            var ctx := segmentContexts[sid];
            if s.counter != ctx.expected {
              ctx := ctx.(active := false);
            } else {
              ctx := ctx.(data := ctx.data + s.data, expected := (ctx.expected + 1) % 0x1_0000);
            }
            segmentContexts := segmentContexts[sid := ctx];
          }
        case End =>
          EndStep(c, s);
          if sid in segmentContexts && segmentContexts[sid].active {
            var ctx := segmentContexts[sid];
            if s.counter != ctx.expected {
              ctx := ctx.(active := false);
            } else {
              ctx := ctx.(data := ctx.data + s.data);
              var net := lookup(ctx.deviceId, ctx.interfaceId);
              if net.Some? {
                frame := Some(Frame(net.value, ctx.timestamp, ctx.data));
              }
              ctx := ctx.(active := false, data := []);
            }
            segmentContexts := segmentContexts[sid := ctx];
          }
      }
      forall k: byte
        ensures Matches(segmentContexts, history, k)
      {
        assert Matches(before, xs, k);
        ChainStep(xs, s, k);
      }
    }
  }
}
