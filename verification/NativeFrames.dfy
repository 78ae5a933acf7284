/** The native Ethernet messages in the output of the unwrapper, field by field. */
module NativeFrames {
  import opened Bytes
  import opened VsbStruct
  import opened TimeDecoder
  import opened CmpFrame
  import opened Reassembly
  import opened ReassemblyTheorems
  import opened Unwrapper
  import opened UnwrapperTheorems

  /** Stamps of two messages are the same in all six fields. */
  predicate SameTime(a: SpyMessage, b: SpyMessage)
  {
    && a.timeHardware == b.timeHardware && a.timeHardware2 == b.timeHardware2 && a.hardwareId == b.hardwareId
    && a.timeSystem == b.timeSystem && a.timeSystem2 == b.timeSystem2 && a.systemId == b.systemId
  }

  /** Everything the unwrapper does not set is zero. */
  predicate ElseZero(m: SpyMessage)
  {
    && m.status2 == 0 && m.nodeId == 0 && m.pieceId == 0 && m.bytesHeader == 0 && m.descriptionId == 0 && m.arbId == 0
    && m.data == [0, 0, 0, 0, 0, 0, 0, 0] && m.ack == [0, 0, 0, 0, 0, 0, 0, 0] && m.misc == 0 && m.reserved == [0, 0, 0]
  }

  /**
    * An Ethernet message on a network with the given data, stamped with the time of the frame (source 0) or with the
    * stamps of the logged message.
    */
  ghost predicate IsNative(n: seq<byte>, logged: seq<byte>, source: int, net: uint16, time: uint64, data: seq<byte>)
    requires |logged| >= STRUCT_SIZE
  {
    && |n| >= STRUCT_SIZE && n[STRUCT_SIZE..] == data
    && var m := Unpack(n);
      && m.networkId + 0x100 * m.networkId2 == net && m.protocol == 29 && m.status == 0x400_0000
      && m.extraEnabled == 1 && m.extraPtr == |data| % TWO_32 && m.bytesData == |data| % 0x100
      && ElseZero(m)
      && if source == 0 then
           forall clock: DoubleClock :: CalcEpoch64(m, clock) == Rounded(time)
         else SameTime(m, Unpack(logged))
  }

  lemma FieldsOfNative(outer: SpyMessage, f: Frame, source: int)
    ensures var m := NativeEthernet(outer, f, source);
      && m.networkId + 0x100 * m.networkId2 == f.networkId && m.protocol == 29 && m.status == 0x400_0000
      && m.extraEnabled == 1 && m.extraPtr == |f.data| % TWO_32 && m.bytesData == |f.data| % 0x100
      && ElseZero(m) && (source != 0 ==> SameTime(m, outer))
  {
    hide Ticks;
    Digits16(f.networkId);
  }

  lemma TimeOfNative(outer: SpyMessage, f: Frame, clock: DoubleClock)
    ensures CalcEpoch64(NativeEthernet(outer, f, 0), clock) == Rounded(f.timestamp)
  {
    hide CalcEpoch64, SetMessageTime, Rounded;
    TimeRoundTrip(EthernetFields(f), f.timestamp, clock);
  }

  lemma {:induction false} NativeMessageIsNative(u: Settings, logged: seq<byte>, f: Frame)
    requires |logged| >= STRUCT_SIZE
    ensures IsNative(NativeMessage(u, Unpack(logged), f), logged, u.timestampSource, f.networkId, f.timestamp, f.data)
  {
    hide Pack, Unpack, NativeEthernet, CalcEpoch64, Rounded, ElseZero, SameTime;
    var m := NativeEthernet(Unpack(logged), f, u.timestampSource);
    UnpackPack(m, f.data);
    FieldsOfNative(Unpack(logged), f, u.timestampSource);
    if u.timestampSource == 0 {
      forall clock: DoubleClock
        ensures CalcEpoch64(m, clock) == Rounded(f.timestamp)
      {
        TimeOfNative(Unpack(logged), f, clock);
      }
    }
  }

  /** An unsegmented frame: its network, time and data if it is mapped, and the message as it is if it is not. */
  lemma {:induction false} UnsegmentedOutput(u: Settings, msgs: seq<seq<byte>>, i: nat)
    requires i < |msgs| && Accepted(msgs[i]).Some? && Accepted(msgs[i]).value.kind.Unsegmented?
    ensures |msgs[i]| >= STRUCT_SIZE
    ensures var s := Accepted(msgs[i]).value; var net := u.lookup(s.deviceId, s.interfaceId);
      if net.Some? then IsNative(Outputs(u, msgs)[i], msgs[i], u.timestampSource, net.value, s.timestamp, s.data)
      else Outputs(u, msgs)[i] == msgs[i]
  {
    hide Accepted, Outputs, Segments, Native, NativeEthernet, Pack, Unpack, IsNative;
    var s := Accepted(msgs[i]).value;
    AcceptedIsMessage(msgs[i]);
    var net := u.lookup(s.deviceId, s.interfaceId);
    UnsegmentedDelivers(u.lookup, Segments(msgs[..i]), s);
    if net.Some? {
      var f := Frame(net.value, s.timestamp, s.data);
      OutputOfAccepted(u, msgs, i, Segments(msgs[..i]) + [s], f);
      NativeMessageIsNative(u, msgs[i], f);
    } else {
      OutputOfMessage(u, msgs, i);
      AcceptedIsUnwrapped(u, Segments(msgs[..i]), msgs[i]);
    }
  }

  lemma UnsegmentedDelivers(lookup: Lookup, before: seq<Segment>, s: Segment)
    requires s.kind.Unsegmented?
    ensures Delivered(lookup, before + [s]) == match lookup(s.deviceId, s.interfaceId)
      case None => None
      case Some(net) => Some(Frame(net, s.timestamp, s.data))
  {
  }

  /**
    * The END of a frame: network and time of its START, and the data of all its segments in order, whichever of the
    * segments on the stream from index a on they are.
    */
  lemma {:induction false} EndOutput(u: Settings, msgs: seq<seq<byte>>, i: nat, a: nat, f: Frame)
    requires i < |msgs| && Accepted(msgs[i]).Some? && Accepted(msgs[i]).value.kind.End?
    requires Segments(msgs[..i + 1]) != [] && Spans(u.lookup, Segments(msgs[..i + 1]), a, f)
    ensures |msgs[i]| >= STRUCT_SIZE
    ensures var xs := Segments(msgs[..i + 1]);
      && a < |xs|
      && var first := xs[a]; var c := OnStream(xs[a..], first.streamId);
        && u.lookup(first.deviceId, first.interfaceId).Some?
        && IsNative(Outputs(u, msgs)[i], msgs[i], u.timestampSource,
                    u.lookup(first.deviceId, first.interfaceId).value, first.timestamp, DataOf(c))
  {
    hide Accepted, Outputs, Segments, NativeEthernet, Pack, Unpack, IsNative, OnStream, IsComplete, Data, DataOf;
    hide Native;
    var xs := Segments(msgs[..i + 1]);
    AcceptedIsMessage(msgs[i]);
    EndIsReplacedIff(u, msgs, i);
    NativeMessageIsNative(u, msgs[i], f);
    DataOfIsData(OnStream(xs[a..], xs[a].streamId));
  }

  /** The data of segments, one after the other. */
  function DataOf(c: seq<Segment>): seq<byte>
  {
    if c == [] then [] else c[0].data + DataOf(c[1..])
  }

  lemma {:induction false} DataOfIsData(c: seq<Segment>)
    ensures DataOf(c) == Data(c)
  {
    if |c| == 1 {
      assert c[1..] == [] && c[..0] == [];
    } else if |c| > 1 {
      var n := |c| - 1;
      DataOfIsData(c[1..]);
      DataOfIsData(c[..n]);
      DataOfIsData(c[1..n]);
      assert c[1..][..n - 1] == c[1..n] && c[..n][1..] == c[1..n];
    }
  }
}
