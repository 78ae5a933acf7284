/**
  * The row of a message: how a message is packed into the columns of the message table and how
  * it is rebuilt from them.
  */
module RowCodec {
  import opened Bytes
  import opened VsbStruct
  import opened TimeDecoder

  /** SQLite keeps signed integers: the two's complement reading of a machine word, and back. */
  function AsInt32(x: uint32): int { if x < 0x8000_0000 then x else x - TWO_32 }
  function AsInt64(x: uint64): int { if x < 0x8000_0000_0000_0000 then x else x - TWO_64 }
  function AsUint32(x: int): uint32 { x % TWO_32 }
  function AsUint64(x: int): uint64 { x % TWO_64 }

  datatype PrimaryKey = PrimaryKey(time: int, network: int, id: int)
  datatype Row = Row(status: int, ack: int, header: int, dataSize: int, data: seq<byte>)

  const BYTES_DATA_OFFSET: nat := 32
  const DATA_OFFSET: nat := 40
  const ACK_OFFSET: nat := 48

  /** Without extra data the blob is taken from the data field, so the count has to stay inside the structure. */
  predicate Storable(b: seq<byte>)
  {
    |b| >= STRUCT_SIZE && (|b| == STRUCT_SIZE ==> DATA_OFFSET + b[BYTES_DATA_OFFSET] <= STRUCT_SIZE)
  }

  /** The data bytes a message carries, wherever they are kept. */
  function Payload(b: seq<byte>): seq<byte>
    requires Storable(b)
  {
    if |b| > STRUCT_SIZE then b[STRUCT_SIZE..] else b[DATA_OFFSET..DATA_OFFSET + b[BYTES_DATA_OFFSET]]
  }

  function KeyOf(time: uint64, m: SpyMessage): PrimaryKey
  {
    PrimaryKey(AsInt64(time), m.networkId2 * 0x100 + m.networkId, AsInt32(m.arbId))
  }

  function StatusColumn(m: SpyMessage): uint64 { m.status2 * TWO_32 + m.status }
  function HeaderColumn(m: SpyMessage): uint64 { m.pieceId * 0x1_0000 + m.protocol * 0x100 + m.bytesHeader }
  function AckColumn(m: SpyMessage): uint64 { ReadLE64(m.ack, 0) }

  function RowOf(m: SpyMessage, payload: seq<byte>): Row
  {
    Row(AsInt64(StatusColumn(m)), AsInt64(AckColumn(m)), AsInt64(HeaderColumn(m)),
        AsInt32(|payload| % TWO_32), payload)
  }

  /** The structure rebuilt from the columns, each taken as an unsigned word. */
  function StructOfWords(time: uint64, network: uint32, id: uint32, status: uint64, ack: uint64, header: uint64,
                         blob: seq<byte>): SpyMessage
  {
    var m := SetMessageTime(ZERO, time).(
      networkId2 := ByteOf(network, 1), networkId := ByteOf(network, 0),
      arbId := id,
      status2 := HighWord(status), status := LowWord(status),
      ack := LE64(ack),
      pieceId := ByteOf(header, 2), protocol := ByteOf(header, 1), bytesHeader := ByteOf(header, 0));
    WithPayload(m, blob)
  }

  /** Up to 8 data bytes lie in the data field, more follow the structure. */
  function WithPayload(m: SpyMessage, blob: seq<byte>): SpyMessage
  {
    if |blob| <= 8 then
      m.(bytesData := |blob|, data := blob + ZERO8[|blob|..])
    else
      m.(extraEnabled := 1, extraPtr := |blob| % TWO_32)
  }

  /** The blob of a row, as long as its size column says. */
  function BlobOf(r: Row): seq<byte>
    requires AsUint64(r.dataSize) <= |r.data|
  {
    r.data[..AsUint64(r.dataSize)]
  }

  function StructOfRow(k: PrimaryKey, r: Row): SpyMessage
    requires AsUint64(r.dataSize) <= |r.data|
  {
    StructOfWords(AsUint64(k.time), AsUint32(k.network), AsUint32(k.id),
                  AsUint64(r.status), AsUint64(r.ack), AsUint64(r.header), BlobOf(r))
  }

  function Spill(blob: seq<byte>): seq<byte>
  {
    if |blob| <= 8 then [] else blob
  }

  function MessageOfRow(k: PrimaryKey, r: Row): seq<byte>
    requires AsUint64(r.dataSize) <= |r.data|
  {
    Pack(StructOfRow(k, r)) + Spill(BlobOf(r))
  }

  /** Reads rows into one vector that is grown, never shrunk, and reused from row to row. */
  class RowReader {
    var data: seq<byte>

    constructor ()
      ensures data == []
    {
      data := [];
    }

    method ReadMessage(k: PrimaryKey, r: Row) returns (msgSize: nat)
      requires AsUint64(r.dataSize) <= |r.data|
      modifies this
      ensures msgSize <= |data| && data[..msgSize] == MessageOfRow(k, r)
      ensures |data| == if msgSize > old(|data|) then msgSize else old(|data|)
      ensures data[msgSize..] == if msgSize > old(|data|) then [] else old(data)[msgSize..]
    {
      var dataSize: nat := AsUint64(r.dataSize);
      msgSize := STRUCT_SIZE;
      if dataSize > 8 {
        msgSize := msgSize + dataSize;
      }
      if |data| < msgSize {
        data := data + seq(msgSize - |data|, _ => 0);
      }
      var m := ReadStruct(k, r);
      if dataSize <= 8 {
        m := m.(bytesData := dataSize, data := r.data[..dataSize] + ZERO8[dataSize..]);
      } else {
        m := m.(extraEnabled := 1, extraPtr := dataSize % TWO_32);
      }
      assert m == StructOfRow(k, r);
      Overwrite(0, Pack(m));
      if dataSize > 8 {
        Overwrite(STRUCT_SIZE, r.data[..dataSize]);
      }
      assert data[..msgSize] == data[..STRUCT_SIZE] + data[STRUCT_SIZE..msgSize];
    }

    /** The fields that do not depend on the data bytes, one column after the other. */
    method ReadStruct(k: PrimaryKey, r: Row) returns (m: SpyMessage)
      requires AsUint64(r.dataSize) <= |r.data|
      ensures WithPayload(m, BlobOf(r)) == StructOfRow(k, r)
    {
      m := SetMessageTime(ZERO, AsUint64(k.time));
      var networkId := AsUint32(k.network);
      m := m.(networkId2 := ByteOf(networkId, 1), networkId := ByteOf(networkId, 0));
      m := m.(arbId := AsUint32(k.id));
      var status := AsUint64(r.status);
      m := m.(status2 := HighWord(status), status := LowWord(status));
      m := m.(ack := LE64(AsUint64(r.ack)));
      var header := AsUint64(r.header);
      m := m.(pieceId := ByteOf(header, 2), protocol := ByteOf(header, 1), bytesHeader := ByteOf(header, 0));
    }

    /** memcpy into the vector. */
    method Overwrite(at: nat, bytes: seq<byte>)
      requires at + |bytes| <= |data|
      modifies this
      ensures |data| == old(|data|)
      ensures data[..at] == old(data)[..at]
      ensures data[at..at + |bytes|] == bytes
      ensures data[at + |bytes|..] == old(data)[at + |bytes|..]
    {
      data := data[..at] + bytes + data[at + |bytes|..];
    }
  }

  lemma SignedRoundTrip(x: uint64)
    ensures AsUint64(AsInt64(x)) == x
    ensures x < TWO_32 ==> AsUint32(AsInt32(x)) == x
  {
  }

  lemma WriteOfReadLE64(b: seq<byte>, o: nat)
    requires o + 8 <= |b|
    ensures LE64(ReadLE64(b, o)) == b[o..o + 8]
  {
    var lo, hi := ReadLE32(b, o), ReadLE32(b, o + 4);
    assert LowWord(ReadLE64(b, o)) == lo && HighWord(ReadLE64(b, o)) == hi;
    WriteOfReadLE32(b, o);
    WriteOfReadLE32(b, o + 4);
  }

  /** The columns come apart again. */
  lemma ColumnsComeApart(m: SpyMessage)
    ensures ByteOf(HeaderColumn(m), 2) == m.pieceId
    ensures ByteOf(HeaderColumn(m), 1) == m.protocol
    ensures ByteOf(HeaderColumn(m), 0) == m.bytesHeader
    ensures HighWord(StatusColumn(m)) == m.status2 && LowWord(StatusColumn(m)) == m.status
    ensures LE64(AckColumn(m)) == m.ack
  {
    BytesOfValue(m.bytesHeader, m.protocol, m.pieceId, 0);
    WriteOfReadLE64(m.ack, 0);
    assert m.ack[0..8] == m.ack;
  }

  lemma NetworkComesApart(m: SpyMessage)
    ensures var n := AsUint32(m.networkId2 * 0x100 + m.networkId);
      ByteOf(n, 1) == m.networkId2 && ByteOf(n, 0) == m.networkId
  {
    BytesOfValue(m.networkId, m.networkId2, 0, 0);
  }

  /** Fields that survive a trip through the database. */
  predicate SameFields(a: SpyMessage, b: SpyMessage)
  {
    && a.networkId == b.networkId && a.networkId2 == b.networkId2 && a.arbId == b.arbId
    && a.status == b.status && a.status2 == b.status2 && a.ack == b.ack
    && a.pieceId == b.pieceId && a.protocol == b.protocol && a.bytesHeader == b.bytesHeader
  }

  /** A message the INTEGER size column can describe. */
  predicate RowSized(b: seq<byte>)
  {
    Storable(b) && |Payload(b)| < 0x8000_0000
  }

  lemma BlobIsPayload(m: SpyMessage, payload: seq<byte>)
    requires |payload| < 0x8000_0000
    ensures AsUint64(RowOf(m, payload).dataSize) == |payload| && BlobOf(RowOf(m, payload)) == payload
  {
  }

  /** What comes back for a stored message. */
  function Trip(time: uint64, m: SpyMessage, payload: seq<byte>): seq<byte>
    requires |payload| < 0x8000_0000
  {
    BlobIsPayload(m, payload);
    MessageOfRow(KeyOf(time, m), RowOf(m, payload))
  }

  function TripOfMessage(time: uint64, b: seq<byte>): seq<byte>
    requires RowSized(b)
  {
    Trip(time, Unpack(b), Payload(b))
  }

  /** The structure that comes back, written without the packing. */
  function Kept(time: uint64, m: SpyMessage, payload: seq<byte>): SpyMessage
  {
    WithPayload(
      SetMessageTime(ZERO, time).(
        networkId2 := m.networkId2, networkId := m.networkId, arbId := m.arbId,
        status2 := m.status2, status := m.status, ack := m.ack,
        pieceId := m.pieceId, protocol := m.protocol, bytesHeader := m.bytesHeader),
      payload)
  }

  /** Packing the columns and taking them apart keeps every field. */
  lemma {:induction false} TripIsKept(time: uint64, m: SpyMessage, payload: seq<byte>)
    requires |payload| < 0x8000_0000
    ensures Trip(time, m, payload) == Pack(Kept(time, m, payload)) + Spill(payload)
  {
    BlobIsPayload(m, payload);
    SignedRoundTrip(time);
    SignedRoundTrip(m.arbId);
    SignedRoundTrip(StatusColumn(m));
    SignedRoundTrip(AckColumn(m));
    SignedRoundTrip(HeaderColumn(m));
    ColumnsComeApart(m);
    NetworkComesApart(m);
  }

  /** Fields of the structure at the front of a buffer, as bytes of the buffer. */
  lemma FieldsInPlace(r: seq<byte>)
    requires |r| >= STRUCT_SIZE
    ensures var s := Unpack(r);
      && r[BYTES_DATA_OFFSET] == s.bytesData && r[DATA_OFFSET..ACK_OFFSET] == s.data
      && ExtraSize(r) == if s.extraEnabled != 0 then s.extraPtr else 0
  {
  }

  lemma PayloadInPlace(r: seq<byte>, data: Bytes8, blob: seq<byte>)
    requires |r| >= STRUCT_SIZE && r[DATA_OFFSET..ACK_OFFSET] == data
    requires |blob| <= 8 && blob == data[..|blob|]
    ensures r[DATA_OFFSET..DATA_OFFSET + |blob|] == blob
  {
    assert r[DATA_OFFSET..DATA_OFFSET + |blob|] == r[DATA_OFFSET..ACK_OFFSET][..|blob|];
  }

  lemma SpilledPayload(s: SpyMessage, blob: seq<byte>, r: seq<byte>)
    requires r == Pack(s) + Spill(blob) && s == WithPayload(s, blob) && |blob| < 0x8000_0000
    requires |blob| <= 8 ==> s.extraEnabled == 0
    ensures Unpack(r) == s && WellSized(r) && RowSized(r) && Payload(r) == blob
  {
    hide Pack, Unpack, ExtraSize;
    UnpackPack(s, Spill(blob));
    FieldsInPlace(r);
    if |blob| <= 8 {
      PayloadInPlace(r, s.data, blob);
    }
  }

  /**
    * A stored message comes back with its identity, status words, header and data bytes, and its time rounded
    * to 25 ns.
    */
  lemma {:induction false} RowRoundTrip(time: uint64, b: seq<byte>, clock: DoubleClock)
    requires RowSized(b)
    ensures var r := TripOfMessage(time, b);
      && WellSized(r) && RowSized(r)
      && SameFields(Unpack(b), Unpack(r))
      && Payload(r) == Payload(b)
      && CalcEpoch64(Unpack(r), clock) == Rounded(time)
  {
    var s := Kept(time, Unpack(b), Payload(b));
    TripIsKept(time, Unpack(b), Payload(b));
    SpilledPayload(s, Payload(b), TripOfMessage(time, b));
    TimeRoundTrip(ZERO, time, clock);
    SameStampSameTime(s, SetMessageTime(ZERO, time), clock);
  }

  lemma SameStampSameTime(a: SpyMessage, b: SpyMessage, clock: DoubleClock)
    requires a.hardwareId == b.hardwareId && a.timeHardware == b.timeHardware && a.timeHardware2 == b.timeHardware2
    requires a.timeSystem == b.timeSystem
    ensures CalcEpoch64(a, clock) == CalcEpoch64(b, clock)
  {
  }

  /** A second trip changes nothing any more: what comes back is a fixed point, byte for byte. */
  lemma {:induction false} RowTripIdempotent(time: uint64, b: seq<byte>, clock: DoubleClock)
    requires RowSized(b)
    ensures var r := TripOfMessage(time, b); RowSized(r) && TripOfMessage(CalcEpoch64(Unpack(r), clock), r) == r
  {
    var m, payload := Unpack(b), Payload(b);
    var r := TripOfMessage(time, b);
    RowRoundTrip(time, b, clock);
    TripIsKept(time, m, payload);
    TripIsKept(Rounded(time), Unpack(r), payload);
    TimeFixedPoint(ZERO, time);
    assert Kept(Rounded(time), Unpack(r), payload) == Kept(time, m, payload);
  }
}
