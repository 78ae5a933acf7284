/**
  * The 64-byte message structure of a VSB file and its layout in memory.
  * A message is that structure followed, when it has extra data, by the extra bytes.
  */
module VsbStruct {
  import opened Bytes

  const STRUCT_SIZE: nat := 64

  type Bytes8 = s: seq<byte> | |s| == 8 witness [0, 0, 0, 0, 0, 0, 0, 0]
  type Bytes3 = s: seq<byte> | |s| == 3 witness [0, 0, 0]

  const ZERO8: Bytes8 := [0, 0, 0, 0, 0, 0, 0, 0]

  datatype SpyMessage = SpyMessage(
    status: uint32, status2: uint32,
    timeHardware: uint32, timeHardware2: uint32,
    timeSystem: uint32, timeSystem2: uint32,
    hardwareId: byte, systemId: byte,
    networkId: byte, nodeId: byte, protocol: byte, pieceId: byte,
    extraEnabled: byte, bytesHeader: byte, bytesData: byte, networkId2: byte,
    descriptionId: uint16, arbId: uint32,
    data: Bytes8, ack: Bytes8,
    extraPtr: uint32, misc: byte, reserved: Bytes3)

  const ZERO: SpyMessage :=
    SpyMessage(0, 0, 0, 0, 0, 0, 0, 0, 0, 0, 0, 0, 0, 0, 0, 0, 0, 0, ZERO8, ZERO8, 0, 0, [0, 0, 0])

  const PROTOCOL_ETHERNET: byte := 29
  const STATUS_NETWORK_MESSAGE_TYPE: uint32 := 0x400_0000

  const HARDWARE_ID_OFFSET: nat := 24
  const EXTRA_ENABLED_OFFSET: nat := 30
  const EXTRA_PTR_OFFSET: nat := 56

  function PackByte(m: SpyMessage, i: nat): byte
    requires i < STRUCT_SIZE
  {
    if i < 4 then ByteOf(m.status, i)
    else if i < 8 then ByteOf(m.status2, i - 4)
    else if i < 12 then ByteOf(m.timeHardware, i - 8)
    else if i < 16 then ByteOf(m.timeHardware2, i - 12)
    else if i < 20 then ByteOf(m.timeSystem, i - 16)
    else if i < 24 then ByteOf(m.timeSystem2, i - 20)
    else if i == 24 then m.hardwareId
    else if i == 25 then m.systemId
    else if i == 26 then m.networkId
    else if i == 27 then m.nodeId
    else if i == 28 then m.protocol
    else if i == 29 then m.pieceId
    else if i == 30 then m.extraEnabled
    else if i == 31 then m.bytesHeader
    else if i == 32 then m.bytesData
    else if i == 33 then m.networkId2
    else if i < 36 then ByteOf(m.descriptionId, i - 34)
    else if i < 40 then ByteOf(m.arbId, i - 36)
    else if i < 48 then m.data[i - 40]
    else if i < 56 then m.ack[i - 48]
    else if i < 60 then ByteOf(m.extraPtr, i - 56)
    else if i == 60 then m.misc
    else m.reserved[i - 61]
  }

  /** The structure as it lies in memory and in the file. */
  function Pack(m: SpyMessage): (b: seq<byte>)
    ensures |b| == STRUCT_SIZE
  {
    seq(STRUCT_SIZE, i requires 0 <= i < STRUCT_SIZE => PackByte(m, i))
  }

  /** The structure at the front of a buffer. */
  function Unpack(b: seq<byte>): SpyMessage
    requires |b| >= STRUCT_SIZE
  {
    SpyMessage(
      ReadLE32(b, 0), ReadLE32(b, 4),
      ReadLE32(b, 8), ReadLE32(b, 12),
      ReadLE32(b, 16), ReadLE32(b, 20),
      b[24], b[25], b[26], b[27], b[28], b[29], b[30], b[31], b[32], b[33],
      ReadLE16(b, 34), ReadLE32(b, 36),
      b[40..48], b[48..56],
      ReadLE32(b, 56), b[60], b[61..64])
  }

  lemma {:induction false} UnpackPack(m: SpyMessage, rest: seq<byte>)
    ensures Unpack(Pack(m) + rest) == m
  {
    var b := Pack(m) + rest;
    assert forall i | 0 <= i < STRUCT_SIZE :: b[i] == PackByte(m, i);
    Digits32(m.status); Digits32(m.status2);
    Digits32(m.timeHardware); Digits32(m.timeHardware2);
    Digits32(m.timeSystem); Digits32(m.timeSystem2);
    Digits16(m.descriptionId); Digits32(m.arbId); Digits32(m.extraPtr);
    assert b[40..48] == m.data && b[48..56] == m.ack && b[61..64] == m.reserved;
  }

  lemma ByteOfRead32(b: seq<byte>, o: nat, k: nat)
    requires o + 4 <= |b| && k < 4
    ensures ByteOf(ReadLE32(b, o), k) == b[o + k]
  {
    BytesOfValue(b[o], b[o + 1], b[o + 2], b[o + 3]);
  }

  lemma {:induction false} PackUnpack(b: seq<byte>)
    requires |b| >= STRUCT_SIZE
    ensures Pack(Unpack(b)) == b[..STRUCT_SIZE]
  {
    forall i | 0 <= i < STRUCT_SIZE
      ensures PackByte(Unpack(b), i) == b[i]
    {
      PackUnpackAt(b, i);
    }
  }

  lemma PackUnpackAt(b: seq<byte>, i: nat)
    requires |b| >= STRUCT_SIZE && i < STRUCT_SIZE
    ensures PackByte(Unpack(b), i) == b[i]
  {
    if i < 4 {
      ByteOfRead32(b, 0, i);
    } else if i < 8 {
      ByteOfRead32(b, 4, i - 4);
    } else if i < 12 {
      ByteOfRead32(b, 8, i - 8);
    } else if i < 16 {
      ByteOfRead32(b, 12, i - 12);
    } else if i < 20 {
      ByteOfRead32(b, 16, i - 16);
    } else if i < 24 {
      ByteOfRead32(b, 20, i - 20);
    } else if 34 <= i < 36 {
      BytesOfValue(b[34], b[35], 0, 0);
    } else if 36 <= i < 40 {
      ByteOfRead32(b, 36, i - 36);
    } else if 56 <= i < 60 {
      ByteOfRead32(b, 56, i - 56);
    }
  }

  /** Number of extra bytes a message announces: both the flag and the length have to be set. */
  function ExtraSize(b: seq<byte>): nat
    requires |b| >= STRUCT_SIZE
  {
    if b[EXTRA_ENABLED_OFFSET] != 0 then ReadLE32(b, EXTRA_PTR_OFFSET) else 0
  }

  /** A message carries exactly the extra bytes it announces. */
  predicate WellSized(b: seq<byte>)
  {
    |b| >= STRUCT_SIZE && |b| == STRUCT_SIZE + ExtraSize(b)
  }

  /** The structure with a new announced length. */
  function SetExtraPtr(b: seq<byte>, n: uint32): (r: seq<byte>)
    requires |b| >= STRUCT_SIZE
    ensures |r| == |b|
  {
    b[56 := ByteOf(n, 0)][57 := ByteOf(n, 1)][58 := ByteOf(n, 2)][59 := ByteOf(n, 3)]
  }

  /** What the readers deliver: without extra data, both the flag and the length are cleared. */
  function Normalize(b: seq<byte>): (r: seq<byte>)
    requires |b| >= STRUCT_SIZE
    ensures |r| == |b|
  {
    if ExtraSize(b) == 0 then SetExtraPtr(b[EXTRA_ENABLED_OFFSET := 0], 0) else b
  }
}
