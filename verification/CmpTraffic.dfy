/** The CMP frames of a log, told from the bytes of its messages: what is counted as seen, lost, and converted. */
module CmpTraffic {
  import opened Bytes
  import opened VsbStruct
  import opened LoggedMessages
  import opened CmpFrame
  import opened LossTracker
  import opened Unwrapper
  import opened UnwrapperTheorems

  /** An Ethernet message with ethertype 0x99FE, CMP version 1, and room for both CMP headers. */
  predicate IsCmp(x: LoggedMessage)
  {
    && x.structure.protocol == 29 && x.structure.extraEnabled != 0 && |x.extra| >= 38
    && x.extra[12] == 0x99 && x.extra[13] == 0xFE && x.extra[14] == 1
  }

  function DeviceOf(x: LoggedMessage): uint16
    requires IsCmp(x)
  {
    0x100 * (x.extra[16] as int) + x.extra[17] as int
  }

  function StreamOf(x: LoggedMessage): byte
    requires IsCmp(x)
  {
    x.extra[19]
  }

  function CounterOf(x: LoggedMessage): uint16
    requires IsCmp(x)
  {
    0x100 * (x.extra[20] as int) + x.extra[21] as int
  }

  lemma FrameIff(x: LoggedMessage)
    requires x.Announced()
    ensures CmpFrameOf(x.Message()) == if IsCmp(x) then Some(x.extra) else None
  {
    hide Pack, Unpack, ExtraSize;
    PartsOfMessage(x);
    ExtraOfMessage(x);
  }

  /** A message is seen by the loss detector exactly when it is CMP, with the device, stream and counter on the wire. */
  lemma {:induction false} SightedIff(x: LoggedMessage, index: nat)
    requires x.Announced()
    ensures Sighted(x.Message(), index)
         == if IsCmp(x) then Some(Sighting(index, StreamKey(DeviceOf(x), StreamOf(x)), CounterOf(x))) else None
  {
    hide CmpFrameOf;
    FrameIff(x);
  }

  /** Counters that a device has put on the frames of a stream, in order of arrival. */
  function CountersOnWire(xs: seq<LoggedMessage>, device: uint16, stream: byte): seq<uint16>
  {
    if xs == [] then []
    else
      var x := xs[|xs| - 1];
      CountersOnWire(xs[..|xs| - 1], device, stream)
        + if IsCmp(x) && DeviceOf(x) == device && StreamOf(x) == stream then [CounterOf(x)] else []
  }

  lemma {:induction false} CountersSeen(xs: seq<LoggedMessage>, counting: bool, device: uint16, stream: byte)
    requires AllAnnounced(xs)
    ensures OnKey(Sightings(LogOf(xs), counting), StreamKey(device, stream)) == CountersOnWire(xs, device, stream)
  {
    hide Sighted, IsCmp, DeviceOf, StreamOf, CounterOf, LogOf;
    if xs == [] {
      LogOfNone();
    } else {
      var n := |xs| - 1;
      CountersSeen(xs[..n], counting, device, stream);
      LogOfInit(xs);
      SightedIff(xs[n], if counting then |xs| else 0);
      SeenStep(Sightings(LogOf(xs[..n]), counting), Sighted(xs[n].Message(), if counting then |xs| else 0),
               StreamKey(device, stream));
    }
  }

  lemma SeenStep(seen: seq<Sighting>, x: Option<Sighting>, k: StreamKey)
    ensures OnKey(seen + Listed(x), k)
         == OnKey(seen, k) + if x.Some? && x.value.key == k then [x.value.counter] else []
  {
    hide OnKey, Drops;
    if x.Some? {
      HistoryStep(seen, x.value, k);
    } else {
      assert seen + [] == seen;
    }
  }

  /**
    * Loss accounting for a log: for every device and stream, reported drops and received frames add up to the span of
    * the true sequence numbers exactly when no gap is longer than the counter can show, whatever other devices send on
    * the same stream and whatever else is in the log.
    */
  lemma {:induction false} LossesOfLog(
      xs: seq<LoggedMessage>, counting: bool, device: uint16, stream: byte, truth: seq<int>)
    requires AllAnnounced(xs) && Numbering(CountersOnWire(xs, device, stream), truth) && truth != []
    ensures var dropped := TotalDropped(Drops(Sightings(LogOf(xs), counting)), StreamKey(device, stream));
      var span := truth[|truth| - 1] - truth[0] + 1;
      && dropped + |truth| <= span
      && (dropped + |truth| == span <==> GapsFit(truth))
  {
    hide Drops, Sightings, LogOf, TotalDropped, CountersOnWire, OnKey;
    CountersSeen(xs, counting, device, stream);
    LossAccountingExact(Sightings(LogOf(xs), counting), StreamKey(device, stream), truth);
  }

  /** A number in big-endian bytes. */
  function BigEndian(b: seq<byte>): nat
  {
    if b == [] then 0 else 0x100 * BigEndian(b[..|b| - 1]) + b[|b| - 1] as int
  }

  lemma BigEndianSnoc(s: seq<byte>, x: byte)
    ensures BigEndian(s + [x]) == 0x100 * BigEndian(s) + x
  {
    assert (s + [x])[..|s|] == s;
  }

  lemma {:induction false} BigEndian2(b: seq<byte>, o: nat)
    requires o + 2 <= |b|
    ensures BigEndian(b[o..o + 2]) == ReadBE16(b, o)
  {
    BigEndianSnoc([], b[o]);
    BigEndianSnoc([b[o]], b[o + 1]);
    assert [] + [b[o]] == [b[o]] && b[o..o + 2] == [b[o]] + [b[o + 1]];
  }

  lemma {:induction false} BigEndian4(b: seq<byte>, o: nat)
    requires o + 4 <= |b|
    ensures BigEndian(b[o..o + 4]) == ReadBE32(b, o)
  {
    hide BigEndian;
    BigEndian2(b, o);
    BigEndianSnoc(b[o..o + 2], b[o + 2]);
    BigEndianSnoc(b[o..o + 3], b[o + 3]);
    assert b[o..o + 3] == b[o..o + 2] + [b[o + 2]] && b[o..o + 4] == b[o..o + 3] + [b[o + 3]];
  }

  lemma {:induction false} BigEndianConcat(a: seq<byte>, b: seq<byte>)
    requires |b| == 4
    ensures BigEndian(a + b) == TWO_32 * BigEndian(a) + BigEndian(b)
  {
    FourMore(a, b[0], b[1], b[2], b[3]);
    FourMore([], b[0], b[1], b[2], b[3]);
    assert a + [b[0]] + [b[1]] + [b[2]] + [b[3]] == a + b && [] + [b[0]] + [b[1]] + [b[2]] + [b[3]] == b;
  }

  lemma FourMore(a: seq<byte>, p: byte, q: byte, r: byte, t: byte)
    ensures BigEndian(a + [p] + [q] + [r] + [t])
         == TWO_32 * BigEndian(a) + 0x100_0000 * p + 0x1_0000 * q + 0x100 * r + t
  {
    hide BigEndian;
    BigEndianSnoc(a, p);
    BigEndianSnoc(a + [p], q);
    BigEndianSnoc(a + [p] + [q], r);
    BigEndianSnoc(a + [p] + [q] + [r], t);
  }

  lemma {:induction false} BigEndian8(b: seq<byte>, o: nat)
    requires o + 8 <= |b|
    ensures BigEndian(b[o..o + 8]) == ReadBE64(b, o)
  {
    hide BigEndian, ReadBE32;
    BigEndian4(b, o);
    BigEndian4(b, o + 4);
    BigEndianConcat(b[o..o + 4], b[o + 4..o + 8]);
    assert b[o..o + 8] == b[o..o + 4] + b[o + 4..o + 8];
  }

  /** Lengths of the message and of the frame in it fit into each other and into the extra bytes. */
  predicate LengthsFit(extra: seq<byte>)
    requires |extra| >= 44
  {
    BigEndian(extra[42..44]) + 6 <= BigEndian(extra[36..38]) <= |extra| - 38
  }

  /** What an Ethernet data message says, told from its bytes: CMP header from 14 on, data message header from 22 on. */
  predicate Carries(x: LoggedMessage, s: Segment)
  {
    && IsCmp(x) && x.extra[18] == 1 && x.extra[35] == 8 && |x.extra| >= 44 && LengthsFit(x.extra)
    && s.deviceId == BigEndian(x.extra[16..18]) && s.streamId == x.extra[19] && s.counter == BigEndian(x.extra[20..22])
    && s.timestamp == BigEndian(x.extra[22..30])
    && s.interfaceId
      == x.extra[30] as int + 0x100 * (x.extra[31] as int) + 0x1_0000 * (x.extra[32] as int)
         + 0x100_0000 * (x.extra[33] as int)
    && s.kind == (if x.extra[34] < 64 then Unsegmented else if x.extra[34] < 128 then Start
                  else if x.extra[34] < 192 then Continuation else End)
    && s.data == x.extra[44..44 + BigEndian(x.extra[42..44])]
  }

  /** A segment is accepted exactly when it is what the bytes of the message say. */
  lemma {:induction false} AcceptedIff(x: LoggedMessage, s: Segment)
    requires x.Announced()
    ensures Accepted(x.Message()) == Some(s) <==> Carries(x, s)
  {
    hide CmpFrameOf, IsCmp, BigEndian, ReadBE16, ReadBE64;
    FrameIff(x);
    CmpIsLong(x);
    if IsCmp(x) {
      BigEndian2(x.extra, 16);
      BigEndian2(x.extra, 20);
      BigEndian8(x.extra, 22);
      BigEndian2(x.extra, 36);
      if |x.extra| >= 44 {
        BigEndian2(x.extra, 42);
      }
    }
  }

  lemma CmpIsLong(x: LoggedMessage)
    ensures IsCmp(x) ==> |x.extra| >= 38
  {
  }

  /** The conversion that the payload type of a CMP data message calls for, if it is one without reassembly. */
  function Converted(u: Settings, x: LoggedMessage): Option<seq<byte>>
    requires IsCmp(x)
  {
    match x.extra[35]
    case 1 => u.can(x.structure, x.extra, u.timestampSource)
    case 2 => u.canfd(x.structure, x.extra, u.timestampSource)
    case 3 => u.lin(x.structure, x.extra, u.timestampSource)
    case _ => None
  }

  /**
    * CAN, CAN FD and LIN data messages are replaced by what their own conversion gives, if anything. Messages that are
    * not CMP, CMP messages that carry no data, and other payloads than Ethernet go to the output as they are.
    */
  lemma {:induction false} OutputByPayload(u: Settings, xs: seq<LoggedMessage>, i: nat)
    requires i < |xs| && xs[i].Announced()
    ensures var x, out := xs[i], Outputs(u, LogOf(xs))[i];
      && (!IsCmp(x) || x.extra[18] != 1 ==> out == x.Message())
      && (IsCmp(x) && x.extra[18] == 1 && x.extra[35] != 8 ==>
            out == if Converted(u, x).Some? then Converted(u, x).value else x.Message())
  {
    hide CmpFrameOf, IsCmp, Unpack, Pack, Segments, Outputs, ParseEthernet;
    FrameIff(xs[i]);
    PartsOfMessage(xs[i]);
    OutputOfMessage(u, LogOf(xs), i);
  }
}
