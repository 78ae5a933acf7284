/** Reassembly knows streams and no devices: when that makes a difference. */
module ReassemblyDevices {
  import opened Bytes
  import opened CmpFrame
  import opened Reassembly

  /** The segments of one stream of one device. */
  function OnDevice(xs: seq<Segment>, device: uint16, sid: byte): seq<Segment>
  {
    if xs == [] then []
    else
      var x := xs[|xs| - 1];
      OnDevice(xs[..|xs| - 1], device, sid)
        + if x.streamId == sid && x.deviceId == device && !x.kind.Unsegmented? then [x] else []
  }

  /** What the last segment would deliver if each device had streams of its own. */
  ghost function DeliveredPerDevice(lookup: Lookup, xs: seq<Segment>): Option<Frame>
    requires xs != []
  {
    var x := xs[|xs| - 1];
    match x.kind
    case Unsegmented => FrameFor(lookup, x, x.data)
    case End =>
      var c := SinceStart(OnDevice(xs, x.deviceId, x.streamId));
      if IsComplete(c) then FrameFor(lookup, c[0], Data(c)) else None
    case _ => None
  }

  /** Which devices send segments on which streams. */
  type Users = (uint16, byte) -> bool

  ghost predicate SentBy(xs: seq<Segment>, users: Users)
  {
    forall i | 0 <= i < |xs| && !xs[i].kind.Unsegmented? :: users(xs[i].deviceId, xs[i].streamId)
  }

  /** A device that is in the map for some interface shares a stream with another device. */
  ghost predicate MappedShares(lookup: Lookup, users: Users)
  {
    exists d: uint16, e: uint16, sid: byte, i: uint32 ::
      d != e && users(d, sid) && users(e, sid) && lookup(d, i).Some?
  }

  lemma {:induction false} OnStreamMembers(xs: seq<Segment>, sid: byte)
    ensures forall s | s in OnStream(xs, sid) :: s in xs && s.streamId == sid && !s.kind.Unsegmented?
  {
    if xs != [] {
      OnStreamMembers(xs[..|xs| - 1], sid);
    }
  }

  lemma {:induction false} OnDeviceMembers(xs: seq<Segment>, device: uint16, sid: byte)
    ensures forall s | s in OnDevice(xs, device, sid) :: s.deviceId == device
  {
    if xs != [] {
      OnDeviceMembers(xs[..|xs| - 1], device, sid);
    }
  }

  lemma {:induction false} SinceStartMembers(h: seq<Segment>)
    ensures forall s | s in SinceStart(h) :: s in h
  {
    if h != [] {
      SinceStartMembers(h[..|h| - 1]);
    }
  }

  lemma {:induction false} OneDeviceOnStream(xs: seq<Segment>, device: uint16, sid: byte)
    requires forall s | s in xs && s.streamId == sid && !s.kind.Unsegmented? :: s.deviceId == device
    ensures OnDevice(xs, device, sid) == OnStream(xs, sid)
  {
    if xs != [] {
      OneDeviceOnStream(xs[..|xs| - 1], device, sid);
    }
  }

  /** While no device in the map shares a stream, nothing is lost by keeping contexts per stream. */
  lemma {:induction false} UnsharedIsPerDevice(lookup: Lookup, users: Users, xs: seq<Segment>)
    requires !MappedShares(lookup, users) && xs != [] && SentBy(xs, users)
    ensures Delivered(lookup, xs) == DeliveredPerDevice(lookup, xs)
  {
    hide IsComplete, Data, SinceStart, OnStream, OnDevice;
    var x := xs[|xs| - 1];
    if x.kind.End? {
      if s :| s in xs && s.streamId == x.streamId && !s.kind.Unsegmented? && s.deviceId != x.deviceId {
        var i :| 0 <= i < |xs| && xs[i] == s;
        assert users(s.deviceId, x.streamId) && users(x.deviceId, x.streamId);
        SharedIsUnmapped(lookup, users, xs, s);
      } else {
        OneDeviceOnStream(xs, x.deviceId, x.streamId);
      }
    }
  }

  lemma SharedIsUnmapped(lookup: Lookup, users: Users, xs: seq<Segment>, s: Segment)
    requires !MappedShares(lookup, users) && xs != [] && SentBy(xs, users) && xs[|xs| - 1].kind.End?
    requires var x := xs[|xs| - 1];
      s.deviceId != x.deviceId && users(s.deviceId, x.streamId) && users(x.deviceId, x.streamId)
    ensures Delivered(lookup, xs) == None && DeliveredPerDevice(lookup, xs) == None
  {
    hide Data, SinceStart, OnStream, OnDevice;
    var x := xs[|xs| - 1];
    var a, b := OnStream(xs, x.streamId), OnDevice(xs, x.deviceId, x.streamId);
    OnStreamMembers(xs, x.streamId);
    OnDeviceMembers(xs, x.deviceId, x.streamId);
    SinceStartMembers(a);
    SinceStartMembers(b);
    var c := Chain(xs, x.streamId);
    if IsComplete(c) {
      var first := c[0];
      assert first in c && first in a && first in xs;
      var i :| 0 <= i < |xs| && xs[i] == first;
      assert users(first.deviceId, x.streamId);
      var other := if first.deviceId == x.deviceId then s.deviceId else x.deviceId;
      SharerIsUnmapped(lookup, users, first.deviceId, other, x.streamId, first.interfaceId);
    }
    var c' := SinceStart(b);
    if IsComplete(c') {
      assert c'[0] in c' && c'[0] in b;
      SharerIsUnmapped(lookup, users, x.deviceId, s.deviceId, x.streamId, c'[0].interfaceId);
    }
  }

  lemma SharerIsUnmapped(lookup: Lookup, users: Users, d: uint16, e: uint16, sid: byte, i: uint32)
    requires !MappedShares(lookup, users) && d != e && users(d, sid) && users(e, sid)
    ensures lookup(d, i) == None
  {
  }

  function StartOf(d: uint16, sid: byte, i: uint32, t: uint64, data: seq<byte>): Segment
  {
    Segment(sid, 0, d, i, t, Start, data)
  }

  function EndOf(d: uint16, sid: byte, i: uint32, t: uint64, data: seq<byte>): Segment
  {
    Segment(sid, 1, d, i, t, End, data)
  }

  /** A START of one device and an END of another make up one frame, with the network of the first and bytes of both. */
  lemma {:induction false} TwoDevicesMix(
      lookup: Lookup, d: uint16, e: uint16, sid: byte, i: uint32, t: uint64, a: seq<byte>, b: seq<byte>)
    requires d != e && lookup(d, i).Some?
    ensures var xs := [StartOf(d, sid, i, t, a), EndOf(e, sid, i, t, b)];
      && Delivered(lookup, xs) == Some(Frame(lookup(d, i).value, t, a + b))
      && DeliveredPerDevice(lookup, xs) == None
  {
    hide Data, OnStream, OnDevice, SinceStart;
    var s, x := StartOf(d, sid, i, t, a), EndOf(e, sid, i, t, b);
    var xs := [s, x];
    assert xs == [s] + [x] && [s] == [] + [s];
    StreamOfTwo(s, x, sid);
    DataSnoc([], s);
    DataSnoc([s], x);
    assert Chain(xs, sid) == xs && xs[..1] == [s];
    assert Data(xs) == a + b by {
      assert Data([]) + a == a by { NoData(); }
    }
  }

  lemma NoData()
    ensures Data([]) == []
  {
  }

  lemma OnDeviceSnoc(xs: seq<Segment>, x: Segment, device: uint16, sid: byte)
    ensures OnDevice(xs + [x], device, sid)
         == OnDevice(xs, device, sid)
            + if x.streamId == sid && x.deviceId == device && !x.kind.Unsegmented? then [x] else []
  {
    assert (xs + [x])[..|xs|] == xs;
  }

  lemma NothingYet(device: uint16, sid: byte)
    ensures OnStream([], sid) == [] && OnDevice([], device, sid) == [] && SinceStart([]) == []
  {
  }

  lemma {:induction false} StreamOfTwo(s: Segment, x: Segment, sid: byte)
    requires s.streamId == x.streamId == sid && s.deviceId != x.deviceId && s.kind.Start? && x.kind.End?
    ensures Chain([s] + [x], sid) == [s] + [x] && SinceStart(OnDevice([s] + [x], x.deviceId, sid)) == []
  {
    hide OnStream, OnDevice, SinceStart;
    NothingYet(x.deviceId, sid);
    assert [] + [s] == [s] && [] + [x] == [x];
    OnStreamSnoc([], s, sid);
    OnStreamSnoc([s], x, sid);
    SinceStartSnoc([], s);
    SinceStartSnoc([s], x);
    OnDeviceSnoc([], s, x.deviceId, sid);
    OnDeviceSnoc([s], x, x.deviceId, sid);
    SinceStartSnoc([], x);
  }

  /**
    * For the devices and streams of a network, reassembly per stream is reassembly per device and stream in every
    * log exactly when no device in the map shares a stream with another one.
    */
  lemma {:induction false} PerDeviceIffUnshared(lookup: Lookup, users: Users)
    ensures (forall xs | xs != [] && SentBy(xs, users) ::
               Delivered(lookup, xs) == DeliveredPerDevice(lookup, xs))
       <==> !MappedShares(lookup, users)
  {
    hide Delivered, DeliveredPerDevice;
    if MappedShares(lookup, users) {
      var d: uint16, e: uint16, sid: byte, i: uint32 :|
        d != e && users(d, sid) && users(e, sid) && lookup(d, i).Some?;
      var xs := [StartOf(d, sid, i, 0, []), EndOf(e, sid, i, 0, [])];
      TwoDevicesMix(lookup, d, e, sid, i, 0, [], []);
      assert SentBy(xs, users);
    } else {
      forall xs | xs != [] && SentBy(xs, users)
        ensures Delivered(lookup, xs) == DeliveredPerDevice(lookup, xs)
      {
        UnsharedIsPerDevice(lookup, users, xs);
      }
    }
  }
}
