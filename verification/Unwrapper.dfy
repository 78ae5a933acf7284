/** The unwrapping run: every message of a log goes to the sorting writer, unwrapped when it can be. */
module Unwrapper {
  import opened Bytes
  import opened VsbStruct
  import opened KeyedSort
  import opened OutputBuffer
  import opened CmpFrame
  import opened Reassembly
  import opened LossTracker
  import opened VsbReader
  import opened VsbReading
  import opened VsbDelivery
  import opened VsbWriter
  import opened Progress

  /** Unwrapping of CAN, CAN FD and LIN payloads: outer message, frame and time source to native message. */
  type Converter = (SpyMessage, seq<byte>, int) -> Option<seq<byte>>

  datatype Settings = Settings(
    lookup: Lookup, can: Converter, canfd: Converter, lin: Converter, timestampSource: int, counting: bool)

  /** The CMP frame inside a logged Ethernet message. */
  function CmpFrameOf(msg: seq<byte>): Option<seq<byte>>
  {
    if |msg| < STRUCT_SIZE then None
    else if Unpack(msg).protocol != PROTOCOL_ETHERNET || ExtraSize(msg) == 0 then None
    else
      var edp := msg[STRUCT_SIZE..];
      if |edp| < CMP_HEADER_OFFSET || ReadBE16(edp, ETHERTYPE_OFFSET) != CMP_ETHERTYPE then None
      else if !HasHeaders(edp) || edp[CMP_HEADER_OFFSET] != CMP_VERSION then None
      else Some(edp)
  }

  predicate IsDataMessage(edp: seq<byte>)
    requires HasHeaders(edp)
  {
    edp[MESSAGE_TYPE_OFFSET] == MESSAGE_TYPE_CAP_DATA
  }

  /** The segment, if any, that a message adds to the reassembly history. */
  function Accepted(msg: seq<byte>): Option<Segment>
  {
    match CmpFrameOf(msg)
    case None => None
    case Some(edp) =>
      if IsDataMessage(edp) && edp[PAYLOAD_TYPE_OFFSET] == PAYLOAD_ETHERNET then ParseEthernet(edp) else None
  }

  function Listed<T>(o: Option<T>): seq<T>
  {
    if o.Some? then [o.value] else []
  }

  function Segments(msgs: seq<seq<byte>>): seq<Segment>
  {
    if msgs == [] then [] else Segments(msgs[..|msgs| - 1]) + Listed(Accepted(msgs[|msgs| - 1]))
  }

  function Sighted(msg: seq<byte>, index: nat): Option<Sighting>
  {
    match CmpFrameOf(msg)
    case None => None
    case Some(edp) =>
      var key := StreamKey(ReadBE16(edp, DEVICE_ID_OFFSET), edp[STREAM_ID_OFFSET]);
      Some(Sighting(index, key, ReadBE16(edp, SEQ_COUNTER_OFFSET)))
  }

  /** The message index of an event is 0 throughout when there is no callback to count for. */
  function Sightings(msgs: seq<seq<byte>>, counting: bool): seq<Sighting>
  {
    if msgs == [] then []
    else Sightings(msgs[..|msgs| - 1], counting) + Listed(Sighted(msgs[|msgs| - 1], if counting then |msgs| else 0))
  }

  /** The unwrapped form of a data message after the segments before it. */
  ghost function UnwrapSpec(u: Settings, before: seq<Segment>, outer: SpyMessage, edp: seq<byte>): Option<seq<byte>>
    requires HasHeaders(edp)
  {
    var payloadType := edp[PAYLOAD_TYPE_OFFSET];
    if payloadType == PAYLOAD_CAN then u.can(outer, edp, u.timestampSource)
    else if payloadType == PAYLOAD_LIN then u.lin(outer, edp, u.timestampSource)
    else if payloadType == PAYLOAD_CANFD then u.canfd(outer, edp, u.timestampSource)
    else if payloadType == PAYLOAD_ETHERNET then
      match ParseEthernet(edp)
      case None => None
      case Some(s) => NativeOf(outer, Delivered(u.lookup, before + [s]), u.timestampSource)
    else None
  }

  function NativeOf(outer: SpyMessage, frame: Option<Frame>, timestampSource: int): Option<seq<byte>>
  {
    match frame
    case None => None
    case Some(f) => Some(Pack(NativeEthernet(outer, f, timestampSource)) + f.data)
  }

  ghost function Native(u: Settings, before: seq<Segment>, msg: seq<byte>): Option<seq<byte>>
  {
    match CmpFrameOf(msg)
    case None => None
    case Some(edp) => if IsDataMessage(edp) then UnwrapSpec(u, before, Unpack(msg), edp) else None
  }

  /** The one message pushed for each message read. */
  ghost function Outputs(u: Settings, msgs: seq<seq<byte>>): (r: seq<seq<byte>>)
    ensures |r| == |msgs|
  {
    if msgs == [] then []
    else
      var n := |msgs| - 1;
      var native := Native(u, Segments(msgs[..n]), msgs[n]);
      Outputs(u, msgs[..n]) + [if native.Some? then native.value else msgs[n]]
  }

  ghost function Arrivals(out: seq<seq<byte>>): (r: seq<Keyed>)
    ensures |r| == |out|
  {
    seq(|out|, i requires 0 <= i < |out| => Arrival(out[i]))
  }

  lemma HistorySteps(u: Settings, msgs: seq<seq<byte>>, msg: seq<byte>)
    ensures Segments(msgs + [msg]) == Segments(msgs) + Listed(Accepted(msg))
    ensures Sightings(msgs + [msg], u.counting)
         == Sightings(msgs, u.counting) + Listed(Sighted(msg, if u.counting then |msgs| + 1 else 0))
    ensures var native := Native(u, Segments(msgs), msg);
      Outputs(u, msgs + [msg]) == Outputs(u, msgs) + [if native.Some? then native.value else msg]
  {
    assert (msgs + [msg])[..|msgs|] == msgs;
  }

  lemma ArrivalsSnoc(out: seq<seq<byte>>, x: seq<byte>)
    ensures Arrivals(out + [x]) == Arrivals(out) + [Arrival(x)]
  {
  }

  class Unwrapping {
    const settings: Settings
    const reassembler: Reassembler
    const detector: Detector
    const writer: SortingWriter
    ghost var processed: seq<seq<byte>>

    ghost predicate Valid()
      reads this, reassembler, detector, writer, writer.writer
    {
      && reassembler.Valid() && detector.Valid() && writer.Valid()
      && reassembler.lookup == settings.lookup
      && reassembler.history == Segments(processed)
      && detector.history == Sightings(processed, settings.counting)
      && writer.arrivals == Arrivals(Outputs(settings, processed))
    }

    constructor (u: Settings, c: Config, w: VSBIOWrite)
      requires c.Valid() && w.Valid() && w.written == []
      ensures Valid() && fresh(reassembler) && fresh(detector) && fresh(writer) && writer.writer == w
      ensures settings == u && writer.config == c && processed == []
    {
      settings := u;
      reassembler := new Reassembler(u.lookup);
      detector := new Detector();
      writer := new SortingWriter(c, w);
      processed := [];
    }

    method ProcessMessage(counter: nat, msg: seq<byte>)
      requires Valid()
      requires |msg| < STRUCT_SIZE || WellSized(msg)  // what the readers deliver
      requires counter == if settings.counting then |processed| + 1 else 0
      modifies this, reassembler, detector, writer, writer.writer
      ensures Valid() && processed == old(processed) + [msg]
    {
      hide Unpack, ParseEthernet, UnwrapSpec, Segments, Sightings, Outputs, ReadBE16, ExtraSize, Run, Drops, OnKey;
      HistorySteps(settings, processed, msg);
      ghost var before := Segments(processed);
      var out := msg;
      var frame := CmpFrameOf(msg);
      if frame.Some? {
        var edp := frame.value;
        detector.Track(
          counter, ReadBE16(edp, DEVICE_ID_OFFSET), edp[STREAM_ID_OFFSET], ReadBE16(edp, SEQ_COUNTER_OFFSET));
        if IsDataMessage(edp) {
          var native := Unwrap(Unpack(msg), edp);
          assert native == Native(settings, before, msg);
          if native.Some? {
            out := native.value;
          }
        }
      }
      ArrivalsSnoc(Outputs(settings, processed), out);
      writer.PushMessage(out);
      processed := processed + [msg];
    }

    /** Dispatch on the payload type. */
    method Unwrap(outer: SpyMessage, edp: seq<byte>) returns (native: Option<seq<byte>>)
      requires reassembler.Valid() && reassembler.lookup == settings.lookup
      requires HasHeaders(edp)
      modifies reassembler
      ensures reassembler.Valid()
      ensures reassembler.history == old(reassembler.history)
        + Listed(if edp[PAYLOAD_TYPE_OFFSET] == PAYLOAD_ETHERNET then ParseEthernet(edp) else None)
      ensures native == UnwrapSpec(settings, old(reassembler.history), outer, edp)
    {
      native := None;
      match edp[PAYLOAD_TYPE_OFFSET] {
        case 0x01 => native := settings.can(outer, edp, settings.timestampSource);
        case 0x03 => native := settings.lin(outer, edp, settings.timestampSource);
        case 0x08 =>
          var ok, ethernet, extra := reassembler.TryUnwrapCmpEthernet(outer, edp, settings.timestampSource);
          if ok {
            native := Some(Pack(ethernet) + extra);
          }
        case 0x02 => native := settings.canfd(outer, edp, settings.timestampSource);
        case _ =>
      }
    }
  }

  /**
    * The whole run: of what the log file delivers, n messages are processed, all unless the callback refuses; the
    * output file holds what the buffer makes of their outputs, and the drop events are those of their counters.
    */
  method UnwrapCMPToNative(u: Settings, c: Config, read: VSBIORead, writer: VSBIOWrite, prog: Callback)
    returns (droppedFrames: seq<DropEvent>, n: nat)
    requires c.Valid() && u.counting == prog.Some?
    requires read.Valid() && read.IsNew() && Readable(read.file, read.timeSize)
    requires writer.Valid() && writer.written == []
    modifies read, writer
    ensures var log := Messages(read.file, read.timeSize);
      && StopsAfter(prog, |log|, n)
      && writer.file == FileOf(writer.written)
      && writer.written == Payloads(Output(c, Arrivals(Outputs(u, log[..n]))))
      && droppedFrames == Drops(Sightings(log[..n], u.counting))
  {
    hide Outputs, Segments, Sightings, Run, Drops, StableSort, WellSized, Readable, Reading;
    var run := new Unwrapping(u, c, writer);
    ghost var log := Messages(read.file, read.timeSize);
    var counter := 0;
    n := 0;
    var r, msg := StartReading(read);
    assert log[..0] == [];
    while r == Success
      invariant n <= |log| && Reading(read, log[..n], r, msg)
      invariant counter == (if prog.Some? then n else 0) && Agreed(prog, n)
      invariant fresh(run) && fresh(run.reassembler) && fresh(run.detector) && fresh(run.writer)
      invariant run.Valid() && run.processed == log[..n]
      invariant run.settings == u && run.writer.config == c && run.writer.writer == writer
      decreases Left(read, r)
    {
      MessageInHand(read, log, n, msg);
      OneMoreAgreed(prog, n);
      if prog.Some? {
        counter := counter + 1;
        if Refuses(prog, counter) {
          break;
        }
      }
      run.ProcessMessage(counter, msg);
      assert log[..n + 1] == log[..n] + [msg];
      r, msg := ReadOn(read, msg, log[..n]);
      n := n + 1;
    }
    WhereItStopped(read, log, n, r, msg);
    run.writer.Finish();
    droppedFrames := run.detector.droppedFrames;
  }

  lemma MessageInHand(read: VSBIORead, log: seq<seq<byte>>, n: nat, msg: seq<byte>)
    requires n <= |log| && Reading(read, log[..n], Success, msg)
    requires Readable(read.file, read.timeSize) && log == Messages(read.file, read.timeSize)
    ensures n < |log| && msg == log[n] && WellSized(msg)
  {
    hide WellSized;
    DoneSoFar(read, log[..n], Success, msg);
    assert msg == log[n];
    assert EachFit(log) && Fit(log[n]);
  }

  lemma WhereItStopped(read: VSBIORead, log: seq<seq<byte>>, n: nat, r: Condition, msg: seq<byte>)
    requires n <= |log| && Reading(read, log[..n], r, msg)
    requires Readable(read.file, read.timeSize) && log == Messages(read.file, read.timeSize)
    ensures r != Success ==> n == |log|
  {
    DoneSoFar(read, log[..n], r, msg);
  }
}
