/** Capture-module (CMP) Ethernet frames: where the fields lie and what an Ethernet data message says. */
module CmpFrame {
  import opened Bytes

  const ETHERTYPE_OFFSET: nat := 12
  const CMP_HEADER_OFFSET: nat := 14
  const DEVICE_ID_OFFSET: nat := 16
  const MESSAGE_TYPE_OFFSET: nat := 18
  const STREAM_ID_OFFSET: nat := 19
  const SEQ_COUNTER_OFFSET: nat := 20
  const TIMESTAMP_OFFSET: nat := 22
  const INTERFACE_ID_OFFSET: nat := 30
  const COMMON_FLAGS_OFFSET: nat := 34
  const PAYLOAD_TYPE_OFFSET: nat := 35
  const PAYLOAD_LENGTH_OFFSET: nat := 36
  const PAYLOAD_OFFSET: nat := 38
  const ETH_LENGTH_OFFSET: nat := 42
  const ETH_DATA_OFFSET: nat := 44
  const ETH_HEADER_SIZE: nat := 6

  const CMP_ETHERTYPE: uint16 := 0x99FE
  const CMP_VERSION: byte := 1
  const MESSAGE_TYPE_CAP_DATA: byte := 1
  const PAYLOAD_CAN: byte := 0x01
  const PAYLOAD_CANFD: byte := 0x02
  const PAYLOAD_LIN: byte := 0x03
  const PAYLOAD_ETHERNET: byte := 0x08

  /** Bits 6 and 7 of the common flags. */
  datatype Kind = Unsegmented | Start | Continuation | End

  function KindOf(flags: byte): Kind
  {
    if flags < 0x40 then Unsegmented
    else if flags < 0x80 then Start
    else if flags < 0xC0 then Continuation
    else End
  }

  /** An accepted Ethernet data message. */
  datatype Segment = Segment(
    streamId: byte, counter: uint16, deviceId: uint16, interfaceId: uint32, timestamp: uint64,
    kind: Kind, data: seq<byte>)

  /** The frame is long enough for both CMP headers. */
  predicate HasHeaders(edp: seq<byte>)
  {
    |edp| >= PAYLOAD_OFFSET
  }

  function ParseEthernet(edp: seq<byte>): Option<Segment>
  {
    if !HasHeaders(edp) then None
    else if edp[PAYLOAD_TYPE_OFFSET] != PAYLOAD_ETHERNET then None
    else
      var payloadLength := ReadBE16(edp, PAYLOAD_LENGTH_OFFSET);
      if |edp| < PAYLOAD_OFFSET + payloadLength || payloadLength < ETH_HEADER_SIZE then None
      else
        var dataLength := ReadBE16(edp, ETH_LENGTH_OFFSET);
        if payloadLength < ETH_HEADER_SIZE + dataLength then None
        else Some(Segment(
          edp[STREAM_ID_OFFSET], ReadBE16(edp, SEQ_COUNTER_OFFSET), ReadBE16(edp, DEVICE_ID_OFFSET),
          ReadLE32(edp, INTERFACE_ID_OFFSET), ReadBE64(edp, TIMESTAMP_OFFSET),
          KindOf(edp[COMMON_FLAGS_OFFSET]), edp[ETH_DATA_OFFSET..ETH_DATA_OFFSET + dataLength]))
  }

  function FlagsOf(k: Kind): byte
  {
    match k
    case Unsegmented => 0
    case Start => 0x40
    case Continuation => 0x80
    case End => 0xC0
  }

  /** Ethernet header and CMP header. */
  function FrameHeader(ethernetAddresses: seq<byte>, s: Segment): (h: seq<byte>)
    requires |ethernetAddresses| == ETHERTYPE_OFFSET
    ensures |h| == TIMESTAMP_OFFSET
  {
    ethernetAddresses + BE16(CMP_ETHERTYPE)
    + [CMP_VERSION, 0] + BE16(s.deviceId) + [MESSAGE_TYPE_CAP_DATA, s.streamId] + BE16(s.counter)
  }

  /** Data message header and payload. */
  function DataMessage(s: Segment): (d: seq<byte>)
    requires |s.data| + ETH_HEADER_SIZE < 0x1_0000
    ensures |d| == ETH_DATA_OFFSET - TIMESTAMP_OFFSET + |s.data|
  {
    BE64(s.timestamp) + LE32(s.interfaceId) + [FlagsOf(s.kind), PAYLOAD_ETHERNET] + BE16(ETH_HEADER_SIZE + |s.data|)
    + [0, 0, 0, 0] + BE16(|s.data|) + s.data
  }

  /** The wire form a capture module gives a segment. */
  function BuildFrame(ethernetAddresses: seq<byte>, s: Segment): (edp: seq<byte>)
    requires |ethernetAddresses| == ETHERTYPE_OFFSET
    requires |s.data| + ETH_HEADER_SIZE < 0x1_0000
    ensures |edp| == ETH_DATA_OFFSET + |s.data|
  {
    FrameHeader(ethernetAddresses, s) + DataMessage(s)
  }

  lemma HeaderInPlace(addresses: seq<byte>, s: Segment)
    requires |addresses| == ETHERTYPE_OFFSET
    ensures var h := FrameHeader(addresses, s);
      && h[12..14] == BE16(CMP_ETHERTYPE) && h[14] == CMP_VERSION
      && h[16..18] == BE16(s.deviceId) && h[18] == MESSAGE_TYPE_CAP_DATA && h[19] == s.streamId
      && h[20..] == BE16(s.counter)
  {
    hide BE16;
  }

  lemma DataMessageInPlace(s: Segment)
    requires |s.data| + ETH_HEADER_SIZE < 0x1_0000
    ensures var d := DataMessage(s);
      && d[0..8] == BE64(s.timestamp) && d[8..12] == LE32(s.interfaceId)
      && d[12] == FlagsOf(s.kind) && d[13] == PAYLOAD_ETHERNET
      && d[14..16] == BE16(ETH_HEADER_SIZE + |s.data|) && d[20..22] == BE16(|s.data|)
      && d[22..] == s.data
  {
    hide BE16, BE64, LE32, FlagsOf;
  }

  /** A slice of the second of two sequences lies behind the first one. */
  lemma SliceBehind(a: seq<byte>, b: seq<byte>, lo: nat, hi: nat)
    requires lo <= hi <= |b|
    ensures (a + b)[|a| + lo..|a| + hi] == b[lo..hi]
  {
  }

  lemma SliceBefore(a: seq<byte>, b: seq<byte>, lo: nat, hi: nat)
    requires lo <= hi <= |a|
    ensures (a + b)[lo..hi] == a[lo..hi]
  {
  }

  lemma FlagsTellKind(k: Kind)
    ensures KindOf(FlagsOf(k)) == k
  {
  }

  /** Every field is read from where the wire form puts it. */
  lemma {:induction false} ParseOfBuild(addresses: seq<byte>, s: Segment)
    requires |addresses| == ETHERTYPE_OFFSET
    requires |s.data| + ETH_HEADER_SIZE < 0x1_0000
    ensures var edp := BuildFrame(addresses, s);
      && HasHeaders(edp)
      && ReadBE16(edp, ETHERTYPE_OFFSET) == CMP_ETHERTYPE
      && edp[CMP_HEADER_OFFSET] == CMP_VERSION
      && edp[MESSAGE_TYPE_OFFSET] == MESSAGE_TYPE_CAP_DATA
      && ParseEthernet(edp) == Some(s)
  {
    hide FrameHeader, DataMessage, BE16, BE64, LE32, ReadBE16, ReadBE64, ReadLE32, KindOf, FlagsOf;
    var edp, h, d := BuildFrame(addresses, s), FrameHeader(addresses, s), DataMessage(s);
    HeaderInPlace(addresses, s);
    DataMessageInPlace(s);
    SliceBefore(h, d, 12, 14);
    SliceBefore(h, d, 16, 18);
    SliceBefore(h, d, 20, 22);
    SliceBehind(h, d, 0, 8);
    SliceBehind(h, d, 8, 12);
    SliceBehind(h, d, 14, 16);
    SliceBehind(h, d, 20, 22);
    SliceBehind(h, d, 22, |d|);
    ReadBE16Of(edp, ETHERTYPE_OFFSET, CMP_ETHERTYPE);
    ReadBE16Of(edp, DEVICE_ID_OFFSET, s.deviceId);
    ReadBE16Of(edp, SEQ_COUNTER_OFFSET, s.counter);
    ReadBE64Of(edp, TIMESTAMP_OFFSET, s.timestamp);
    ReadLE32Of(edp, INTERFACE_ID_OFFSET, s.interfaceId);
    ReadBE16Of(edp, PAYLOAD_LENGTH_OFFSET, ETH_HEADER_SIZE + |s.data|);
    ReadBE16Of(edp, ETH_LENGTH_OFFSET, |s.data|);
    FlagsTellKind(s.kind);
    assert edp[COMMON_FLAGS_OFFSET] == d[12] && edp[PAYLOAD_TYPE_OFFSET] == d[13] && edp[STREAM_ID_OFFSET] == h[19];
    assert edp[ETH_DATA_OFFSET..ETH_DATA_OFFSET + |s.data|] == s.data;
  }
}
