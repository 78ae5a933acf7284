/** Writing Ethernet messages as pcap and pcapng, and readers of both formats that know only the format. */
module Pcap {
  import opened Bytes
  import opened VsbStruct
  import opened TimeDecoder

  datatype PcapType = PcapPlain | PcapNg

  const NS_PER_SECOND: nat := 1000000000

  // ----- what is written -----

  /** A pcapng block; its 32-bit length can wrap. */
  function Block(kind: uint32, body: seq<byte>): seq<byte>
  {
    LE32(kind) + LE32(BlockLength(body)) + body + LE32(BlockLength(body))
  }

  function BlockLength(body: seq<byte>): uint32
  {
    (|body| + 12) % TWO_32
  }

  const KIND_SECTION: uint32 := 0x0A0D0D0A
  const KIND_INTERFACE: uint32 := 1
  const KIND_PACKET: uint32 := 6
  const BYTE_ORDER_MAGIC: uint32 := 0x1A2B3C4D

  const SECTION_BODY: seq<byte> := LE32(BYTE_ORDER_MAGIC) + LE16(1) + LE16(0) + LE64(TWO_64 - 1)
  const INTERFACE_BODY: seq<byte> := LE16(1) + LE16(0) + LE32(TWO_32 - 1)

  const PCAP_MAGIC: uint32 := 0xA1B23C4D  // nanosecond stamps
  const PCAP_HEADER: seq<byte> := LE32(PCAP_MAGIC) + LE16(2) + LE16(4) + LE32(0) + LE32(0) + LE32(65535) + LE32(1)

  function Header(kind: PcapType): seq<byte>
  {
    match kind
    case PcapPlain => PCAP_HEADER
    case PcapNg => Block(KIND_SECTION, SECTION_BODY) + Block(KIND_INTERFACE, INTERFACE_BODY)
  }

  /** An Ethernet message with anything behind its structure. */
  predicate HasPacket(data: seq<byte>)
  {
    |data| > STRUCT_SIZE && Unpack(data).protocol == PROTOCOL_ETHERNET
  }

  /** Captured bytes; a size is 32 bits wide. */
  function Captured(data: seq<byte>): (r: seq<byte>)
    requires |data| >= STRUCT_SIZE
    ensures |r| == (|data| - STRUCT_SIZE) % TWO_32
  {
    data[STRUCT_SIZE..STRUCT_SIZE + (|data| - STRUCT_SIZE) % TWO_32]
  }

  function Padding(n: nat): (r: nat)
    ensures r < 4 && (n + r) % 4 == 0
  {
    if n % 4 > 0 then 4 - n % 4 else 0
  }

  function PacketHead(t: uint64, size: uint32): (r: seq<byte>)
    ensures |r| == 20
  {
    LE32(0) + LE32(HighWord(t / 1000)) + LE32(LowWord(t / 1000)) + LE32(size) + LE32(size)
  }

  function PacketBody(t: uint64, payload: seq<byte>): seq<byte>
    requires |payload| < TWO_32
  {
    PacketHead(t, |payload|) + payload + Zeros(Padding(|payload|))
  }

  function Seconds(t: uint64): uint32
  {
    t / NS_PER_SECOND % TWO_32
  }

  /** The part of a second, in the source's 32-bit arithmetic. */
  function SubSeconds(t: uint64): uint32
  {
    (t - Seconds(t) * NS_PER_SECOND % TWO_32) % TWO_64 % TWO_32
  }

  function RecordHead(t: uint64, size: uint32): (r: seq<byte>)
    ensures |r| == 16
  {
    LE32(Seconds(t)) + LE32(SubSeconds(t)) + LE32(size) + LE32(size)
  }

  function PacketRecord(kind: PcapType, t: uint64, payload: seq<byte>): seq<byte>
    requires |payload| < TWO_32
  {
    match kind
    case PcapPlain => RecordHead(t, |payload|) + payload
    case PcapNg => Block(KIND_PACKET, PacketBody(t, payload))
  }

  /** The bytes one message adds to a file. */
  function RecordOf(kind: PcapType, clock: DoubleClock, data: seq<byte>): seq<byte>
  {
    if HasPacket(data) then PacketRecord(kind, CalcEpoch64(Unpack(data), clock), Captured(data)) else []
  }

  function RecordsOf(kind: PcapType, clock: DoubleClock, msgs: seq<seq<byte>>): seq<byte>
  {
    if msgs == [] then [] else RecordOf(kind, clock, msgs[0]) + RecordsOf(kind, clock, msgs[1..])
  }

  lemma {:induction false} RecordsAppend(kind: PcapType, clock: DoubleClock, a: seq<seq<byte>>, b: seq<seq<byte>>)
    ensures RecordsOf(kind, clock, a + b) == RecordsOf(kind, clock, a) + RecordsOf(kind, clock, b)
  {
    hide RecordOf;
    if a == [] {
      assert a + b == b;
    } else {
      assert (a + b)[1..] == a[1..] + b;
      RecordsAppend(kind, clock, a[1..], b);
    }
  }

  lemma OneMoreRecord(kind: PcapType, clock: DoubleClock, msgs: seq<seq<byte>>, m: seq<byte>)
    ensures RecordsOf(kind, clock, msgs + [m]) == RecordsOf(kind, clock, msgs) + RecordOf(kind, clock, m)
  {
    hide RecordOf;
    RecordsAppend(kind, clock, msgs, [m]);
    assert RecordsOf(kind, clock, [m]) == RecordOf(kind, clock, m) + RecordsOf(kind, clock, []);
  }

  lemma HeaderBodySizes()
    ensures |SECTION_BODY| == 16 && |INTERFACE_BODY| == 8
  {
  }

  /** Block type and length, body, and the length again. */
  method WriteBlock(file: seq<byte>, kind: uint32, length: uint32, body: seq<byte>) returns (after: seq<byte>)
    requires length == BlockLength(body)
    ensures after == file + Block(kind, body)
  {
    after := file + (LE32(kind) + LE32(length));
    after := after + body;
    after := after + LE32(length);
  }

  method WriteRecord(file: seq<byte>, timestamp: uint64, payload: seq<byte>) returns (after: seq<byte>)
    requires |payload| < TWO_32
    ensures after == file + (RecordHead(timestamp, |payload|) + payload)
  {
    hide LE32;
    var sec: uint32 := timestamp / NS_PER_SECOND % TWO_32;
    var usec: uint32 := (timestamp - sec * NS_PER_SECOND % TWO_32) % TWO_64 % TWO_32;
    after := file + (LE32(sec) + LE32(usec) + LE32(|payload|) + LE32(|payload|));
    after := after + payload;
  }

  method WritePacket(file: seq<byte>, timestamp: uint64, payload: seq<byte>) returns (after: seq<byte>)
    requires |payload| < TWO_32
    ensures after == file + Block(KIND_PACKET, PacketBody(timestamp, payload))
  {
    hide LE32, Block;
    var padding := |payload| % 4;
    if padding > 0 {
      padding := 4 - padding;
    }
    var length: uint32 := (|payload| + 8 + 20 + 4 + padding) % TWO_32;
    var epb := LE32(0) + LE32(HighWord(timestamp / 1000)) + LE32(LowWord(timestamp / 1000))
      + LE32(|payload|) + LE32(|payload|);
    after := WriteBlock(file, KIND_PACKET, length, epb + payload + Zeros(padding));
  }

  method WriteEthernet(kind: PcapType, file: seq<byte>, timestamp: uint64, payload: seq<byte>)
    returns (after: seq<byte>)
    requires |payload| < TWO_32
    ensures after == file + PacketRecord(kind, timestamp, payload)
  {
    if kind == PcapPlain {
      after := WriteRecord(file, timestamp, payload);
    } else {
      after := WritePacket(file, timestamp, payload);
    }
  }

  /** A time in the unit of the format: nanoseconds for pcap, microseconds for pcapng. */
  function TimeIn(kind: PcapType, t: uint64): nat
  {
    if kind == PcapNg then t / 1000 else t
  }

  class PcapFile {
    const kind: PcapType
    const clock: DoubleClock
    var numRecords: nat
    var file: Option<seq<byte>>  // the open file
    ghost var base: seq<byte>  // what it began with
    ghost var earlier: nat  // records written before it was opened
    ghost var given: seq<seq<byte>>

    ghost predicate Valid()
      reads this
    {
      file.Some? ==>
        && file.value == base + RecordsOf(kind, clock, given)
        && numRecords == earlier + |Packets(kind, clock, given)|
    }

    constructor (kind: PcapType, clock: DoubleClock)
      ensures Valid() && file == None && numRecords == 0 && this.kind == kind && this.clock == clock
    {
      this.kind, this.clock, numRecords, file := kind, clock, 0, None;
      base, given, earlier := [], [], 0;
    }

    /** Opens a file; the operating system may refuse. */
    method Open(existing: seq<byte>, append: bool, possible: bool) returns (ok: bool)
      modifies this
      ensures Valid() && ok == possible && file.Some? == ok && numRecords == old(numRecords) && given == []
      ensures base == (if append then existing else Header(kind)) && earlier == numRecords
    {
      hide Block, LE32, LE16, LE64;
      HeaderBodySizes();
      base, given, earlier := if append then existing else Header(kind), [], numRecords;
      if !possible {
        file := None;
        return false;
      }
      var bytes := if append then existing else [];
      if !append {
        if kind == PcapPlain {
          bytes := bytes + PCAP_HEADER;
        } else {
          bytes := WriteBlock(bytes, KIND_SECTION, 8 + 16 + 4, SECTION_BODY);
          bytes := WriteBlock(bytes, KIND_INTERFACE, 8 + 8 + 4, INTERFACE_BODY);
        }
      }
      assert bytes == base + RecordsOf(kind, clock, given);
      file := Some(bytes);
      ok := true;
    }

    /** Writes an Ethernet message that has data; others are passed over. */
    method WriteMessage(data: seq<byte>) returns (ok: bool)
      requires Valid() && |data| >= STRUCT_SIZE
      modifies this
      ensures Valid() && ok == (old(file).Some? && HasPacket(data))
      ensures numRecords == old(numRecords) + if ok then 1 else 0
      ensures base == old(base) && earlier == old(earlier) && file.Some? == old(file).Some?
      ensures given == old(given) + [data]
    {
      hide RecordsOf, Packets, CalcEpoch64, Unpack, PacketRecord, Captured;
      OneMoreRecord(kind, clock, given, data);
      OneMorePacket(kind, clock, given, data);
      given := given + [data];
      var msg := Unpack(data);
      ok := file.Some? && msg.protocol == PROTOCOL_ETHERNET && |data| > STRUCT_SIZE;
      if ok {
        numRecords := numRecords + 1;
        var bytes := WriteEthernet(kind, file.value, CalcEpoch64(msg, clock), Captured(data));
        file := Some(bytes);
      }
    }
  }

  // ----- readers of the formats -----

  datatype Packet = Packet(time: nat, data: seq<byte>)

  /** The first block of the rest of a pcapng file, by its length (section 3.1 of draft-ietf-opsawg-pcapng). */
  datatype Cut = Cut(kind: uint32, body: seq<byte>, rest: seq<byte>)

  function FirstBlock(s: seq<byte>): (c: Option<Cut>)
    ensures c.Some? ==> |c.value.rest| + |c.value.body| + 12 == |s|
  {
    if |s| < 12 then None
    else
      var length := ReadLE32(s, 4);
      if length < 12 || length % 4 != 0 || length > |s| || ReadLE32(s, length - 4) != length then None
      else Some(Cut(ReadLE32(s, 0), s[8..length - 4], s[length..]))
  }

  function PacketIn(body: seq<byte>, interfaces: nat): Option<Packet>
  {
    if |body| < 20 || ReadLE32(body, 0) >= interfaces || 20 + ReadLE32(body, 12) > |body| then None
    else Some(Packet(ReadLE32(body, 4) * TWO_32 + ReadLE32(body, 8), body[20..20 + ReadLE32(body, 12)]))
  }

  /** The packets of a pcapng file, stamps in microseconds; interfaces have to be described before they are used. */
  function Walk(s: seq<byte>, interfaces: nat): Option<seq<Packet>>
    decreases |s|
  {
    if s == [] then Some([])
    else
      match FirstBlock(s)
      case None => None
      case Some(cut) =>
        if cut.kind == KIND_SECTION then
          if |cut.body| < 16 || ReadLE32(cut.body, 0) != BYTE_ORDER_MAGIC then None else Walk(cut.rest, 0)
        else if cut.kind == KIND_INTERFACE then
          if |cut.body| < 8 then None else Walk(cut.rest, interfaces + 1)
        else if cut.kind == KIND_PACKET then
          Prepend(PacketIn(cut.body, interfaces), Walk(cut.rest, interfaces))
        else Walk(cut.rest, interfaces)
  }

  function Prepend(p: Option<Packet>, ps: Option<seq<Packet>>): Option<seq<Packet>>
  {
    if p.Some? && ps.Some? then Some([p.value] + ps.value) else None
  }

  /** The packets of a pcap file after its header, stamps in nanoseconds. */
  function WalkRecords(s: seq<byte>): Option<seq<Packet>>
    decreases |s|
  {
    if s == [] then Some([])
    else if |s| < 16 || 16 + ReadLE32(s, 8) > |s| then None
    else
      var size := ReadLE32(s, 8);
      Prepend(
        Some(Packet(ReadLE32(s, 0) * NS_PER_SECOND + ReadLE32(s, 4), s[16..16 + size])),
        WalkRecords(s[16 + size..]))
  }

  function ReadPcap(s: seq<byte>): Option<seq<Packet>>
  {
    if |s| < 24 || ReadLE32(s, 0) != PCAP_MAGIC then None else WalkRecords(s[24..])
  }

  // ----- pcapng -----

  lemma {:induction false} FirstOfBlock(kind: uint32, body: seq<byte>, rest: seq<byte>)
    requires |body| % 4 == 0 && |body| + 12 < TWO_32
    ensures FirstBlock(Block(kind, body) + rest) == Some(Cut(kind, body, rest))
  {
    hide LE32, ReadLE32;
    var s, n := Block(kind, body) + rest, |body|;
    assert s[0..4] == LE32(kind) && s[4..8] == LE32(n + 12) && s[n + 8..n + 12] == LE32(n + 12);
    ReadLE32Of(s, 0, kind);
    ReadLE32Of(s, 4, n + 12);
    ReadLE32Of(s, n + 8, n + 12);
    assert s[8..n + 8] == body && s[n + 12..] == rest;
  }

  /** The length a block states at both ends is the number of bytes written exactly when it does not wrap. */
  lemma {:induction false} LengthAgreesIff(t: uint64, payload: seq<byte>)
    requires |payload| < TWO_32
    ensures var b := Block(KIND_PACKET, PacketBody(t, payload));
      && |b| % 4 == 0
      && ReadLE32(b, 4) == ReadLE32(b, |b| - 4)
      && (ReadLE32(b, 4) == |b| <==> |payload| + Padding(|payload|) + 32 < TWO_32)
  {
    hide *;
    var body := PacketBody(t, payload);
    PacketBodySize(t, payload);
    BlockEnds(KIND_PACKET, body);
    LengthWraps(body);
  }

  lemma LengthWraps(body: seq<byte>)
    ensures BlockLength(body) == |body| + 12 <==> |body| + 12 < TWO_32
    ensures |body| % 4 == 0 ==> (|body| + 12) % 4 == 0
  {
  }

  lemma BlockEnds(kind: uint32, body: seq<byte>)
    ensures var b := Block(kind, body);
      |b| == |body| + 12 && ReadLE32(b, 4) == BlockLength(body) && ReadLE32(b, |b| - 4) == BlockLength(body)
  {
    hide LE32, ReadLE32, BlockLength;
    var b, n := Block(kind, body), |body|;
    assert b[4..8] == LE32(BlockLength(body)) && b[n + 8..n + 12] == LE32(BlockLength(body));
    ReadLE32Of(b, 4, BlockLength(body));
    ReadLE32Of(b, n + 8, BlockLength(body));
  }

  lemma {:induction false} PacketOfBody(t: uint64, payload: seq<byte>, interfaces: nat)
    requires |payload| < TWO_32 && interfaces > 0
    ensures PacketIn(PacketBody(t, payload), interfaces) == Some(Packet(t / 1000, payload))
  {
    var b, n := PacketBody(t, payload), |payload|;
    assert b[0..4] == LE32(0) && b[4..8] == LE32(HighWord(t / 1000)) && b[8..12] == LE32(LowWord(t / 1000));
    assert b[12..16] == LE32(n);
    ReadLE32Of(b, 0, 0);
    ReadLE32Of(b, 4, HighWord(t / 1000));
    ReadLE32Of(b, 8, LowWord(t / 1000));
    ReadLE32Of(b, 12, n);
    assert b[20..20 + n] == payload;
  }

  /** The payload is short enough for a 32-bit block length. */
  predicate FitsBlock(data: seq<byte>)
  {
    HasPacket(data) ==> |data| - STRUCT_SIZE + Padding(|data| - STRUCT_SIZE) + 32 < TWO_32
  }

  ghost predicate AllFitBlock(msgs: seq<seq<byte>>)
  {
    forall i | 0 <= i < |msgs| :: FitsBlock(msgs[i])
  }

  /** The packets a log stands for. */
  function Packets(kind: PcapType, clock: DoubleClock, msgs: seq<seq<byte>>): seq<Packet>
  {
    if msgs == [] then []
    else if HasPacket(msgs[0]) then
      var t := CalcEpoch64(Unpack(msgs[0]), clock);
      [Packet(TimeIn(kind, t), msgs[0][STRUCT_SIZE..])] + Packets(kind, clock, msgs[1..])
    else Packets(kind, clock, msgs[1..])
  }

  lemma {:induction false} OneMorePacket(kind: PcapType, clock: DoubleClock, msgs: seq<seq<byte>>, m: seq<byte>)
    ensures |Packets(kind, clock, msgs + [m])| == |Packets(kind, clock, msgs)| + if HasPacket(m) then 1 else 0
  {
    hide HasPacket, CalcEpoch64, Unpack, TimeIn;
    if msgs == [] {
      assert [] + [m] == [m] && [m][1..] == [];
    } else {
      assert (msgs + [m])[1..] == msgs[1..] + [m];
      OneMorePacket(kind, clock, msgs[1..], m);
    }
  }

  lemma WalkOneBlock(kind: uint32, body: seq<byte>, rest: seq<byte>, interfaces: nat)
    requires |body| % 4 == 0 && |body| + 12 < TWO_32
    ensures kind == KIND_PACKET ==>
      Walk(Block(kind, body) + rest, interfaces) == Prepend(PacketIn(body, interfaces), Walk(rest, interfaces))
    ensures kind == KIND_INTERFACE && |body| >= 8 ==>
      Walk(Block(kind, body) + rest, interfaces) == Walk(rest, interfaces + 1)
    ensures kind == KIND_SECTION && |body| >= 16 && ReadLE32(body, 0) == BYTE_ORDER_MAGIC ==>
      Walk(Block(kind, body) + rest, interfaces) == Walk(rest, 0)
  {
    hide FirstBlock, Block, PacketIn;
    FirstOfBlock(kind, body, rest);
  }

  lemma {:induction false} WalkPackets(clock: DoubleClock, msgs: seq<seq<byte>>, interfaces: nat)
    requires AllFitBlock(msgs) && interfaces > 0
    ensures Walk(RecordsOf(PcapNg, clock, msgs), interfaces) == Some(Packets(PcapNg, clock, msgs))
  {
    hide Walk, Block, CalcEpoch64, PacketBody, PacketIn;
    if msgs == [] {
      NothingLeft(interfaces);
    } else {
      var m, rest := msgs[0], RecordsOf(PcapNg, clock, msgs[1..]);
      assert FitsBlock(m);
      WalkPackets(clock, msgs[1..], interfaces);
      if HasPacket(m) {
        var t := CalcEpoch64(Unpack(m), clock);
        assert Captured(m) == m[STRUCT_SIZE..];
        PacketBodySize(t, Captured(m));
        WalkOneBlock(KIND_PACKET, PacketBody(t, Captured(m)), rest, interfaces);
        PacketOfBody(t, Captured(m), interfaces);
      } else {
        assert RecordsOf(PcapNg, clock, msgs) == rest;
      }
    }
  }

  lemma NothingLeft(interfaces: nat)
    ensures Walk([], interfaces) == Some([])
  {
  }

  lemma PacketBodySize(t: uint64, payload: seq<byte>)
    requires |payload| < TWO_32
    ensures |PacketBody(t, payload)| == 20 + |payload| + Padding(|payload|) && |PacketBody(t, payload)| % 4 == 0
  {
    hide *;
    PacketBodyLength(t, payload);
    PlusTwenty(|payload| + Padding(|payload|));
  }

  lemma PacketBodyLength(t: uint64, payload: seq<byte>)
    requires |payload| < TWO_32
    ensures |PacketBody(t, payload)| == 20 + |payload| + Padding(|payload|)
  {
    hide Padding, PacketHead;
  }

  lemma PlusTwenty(n: nat)
    requires n % 4 == 0
    ensures (20 + n) % 4 == 0
  {
  }

  lemma MagicInPlace()
    ensures |SECTION_BODY| >= 4 && ReadLE32(SECTION_BODY, 0) == BYTE_ORDER_MAGIC
  {
    hide LE32, LE16, LE64, ReadLE32;
    assert SECTION_BODY[0..4] == LE32(BYTE_ORDER_MAGIC);
    ReadLE32Of(SECTION_BODY, 0, BYTE_ORDER_MAGIC);
  }

  lemma WalkHeader(rest: seq<byte>, interfaces: nat)
    ensures Walk(Header(PcapNg) + rest, interfaces) == Walk(rest, 1)
  {
    hide Walk, Block, ReadLE32;
    MagicInPlace();
    var section, description := Block(KIND_SECTION, SECTION_BODY), Block(KIND_INTERFACE, INTERFACE_BODY);
    assert Header(PcapNg) + rest == section + (description + rest);
    HeaderBodySizes();
    WalkOneBlock(KIND_SECTION, SECTION_BODY, description + rest, interfaces);
    WalkOneBlock(KIND_INTERFACE, INTERFACE_BODY, rest, 0);
  }

  /** Walking a pcapng file by block lengths gives the Ethernet payloads back, in order, with their times. */
  lemma {:induction false} PcapNgReadsBack(clock: DoubleClock, msgs: seq<seq<byte>>)
    requires AllFitBlock(msgs)
    ensures Walk(Header(PcapNg) + RecordsOf(PcapNg, clock, msgs), 0) == Some(Packets(PcapNg, clock, msgs))
  {
    hide Walk, RecordsOf, Header;
    WalkHeader(RecordsOf(PcapNg, clock, msgs), 0);
    WalkPackets(clock, msgs, 1);
  }

  /** Appending to a file that is not there leaves out the headers: the result is readable only when it is empty. */
  lemma {:induction false} AppendToNothing(clock: DoubleClock, msgs: seq<seq<byte>>)
    requires AllFitBlock(msgs)
    ensures Walk(RecordsOf(PcapNg, clock, msgs), 0).Some? <==> Packets(PcapNg, clock, msgs) == []
  {
    hide Walk, Block, CalcEpoch64, PacketBody;
    if msgs == [] {
      NothingLeft(0);
    } else {
      var m, rest := msgs[0], RecordsOf(PcapNg, clock, msgs[1..]);
      assert FitsBlock(m);
      if HasPacket(m) {
        var t := CalcEpoch64(Unpack(m), clock);
        assert Captured(m) == m[STRUCT_SIZE..];
        PacketBodySize(t, Captured(m));
        WalkOneBlock(KIND_PACKET, PacketBody(t, Captured(m)), rest, 0);
      } else {
        assert RecordsOf(PcapNg, clock, msgs) == rest;
        AppendToNothing(clock, msgs[1..]);
      }
    }
  }

  // ----- pcap -----

  lemma ModOfShift(x: int, k: int, r: nat)
    requires x == k * TWO_32 + r && r < TWO_32
    ensures x % TWO_32 == r
  {
  }

  lemma ModMod(x: int)
    ensures x % TWO_64 % TWO_32 == x % TWO_32
  {
    var q := x / TWO_64;
    assert x == q * TWO_64 + x % TWO_64;
    assert x == q * TWO_32 * TWO_32 + x % TWO_64;
  }

  /** Although seconds are multiplied in wrapping 32-bit arithmetic, the part of a second is exact for every time. */
  lemma SubSecondExact(t: uint64)
    ensures SubSeconds(t) == t % NS_PER_SECOND
  {
    var q := t / NS_PER_SECOND;
    var k := q / TWO_32;
    var product := Seconds(t) * NS_PER_SECOND;
    var j := product / TWO_32;
    assert Seconds(t) == q - k * TWO_32;
    assert product == q * NS_PER_SECOND - k * NS_PER_SECOND * TWO_32;
    var x := t - product % TWO_32;
    assert x == t % NS_PER_SECOND + (k * NS_PER_SECOND + j) * TWO_32;
    ModMod(x);
    ModOfShift(x, k * NS_PER_SECOND + j, t % NS_PER_SECOND);
  }

  /** Seconds and their part make up the time again exactly when the seconds fit 32 bits, until 2106. */
  lemma {:induction false} PcapTimeIff(t: uint64)
    ensures Seconds(t) * NS_PER_SECOND + SubSeconds(t) == t <==> t < TWO_32 * NS_PER_SECOND
  {
    SubSecondExact(t);
    var q := t / NS_PER_SECOND;
    assert t == q * NS_PER_SECOND + t % NS_PER_SECOND;
  }

  ghost predicate AllBefore2106(clock: DoubleClock, msgs: seq<seq<byte>>)
  {
    forall i | 0 <= i < |msgs| && HasPacket(msgs[i]) ::
      CalcEpoch64(Unpack(msgs[i]), clock) < TWO_32 * NS_PER_SECOND && |msgs[i]| - STRUCT_SIZE < TWO_32
  }

  lemma WalkOneRecord(t: uint64, payload: seq<byte>, rest: seq<byte>)
    requires |payload| < TWO_32
    ensures WalkRecords(RecordHead(t, |payload|) + payload + rest)
         == Prepend(Some(Packet(Seconds(t) * NS_PER_SECOND + SubSeconds(t), payload)), WalkRecords(rest))
  {
    var s, n := RecordHead(t, |payload|) + payload + rest, |payload|;
    assert s[0..4] == LE32(Seconds(t)) && s[4..8] == LE32(SubSeconds(t)) && s[8..12] == LE32(n);
    ReadLE32Of(s, 0, Seconds(t));
    ReadLE32Of(s, 4, SubSeconds(t));
    ReadLE32Of(s, 8, n);
    assert s[16..16 + n] == payload && s[16 + n..] == rest;
  }

  lemma NoRecordsLeft()
    ensures WalkRecords([]) == Some([])
  {
  }

  lemma {:induction false} WalkAllRecords(clock: DoubleClock, msgs: seq<seq<byte>>)
    requires AllBefore2106(clock, msgs)
    ensures WalkRecords(RecordsOf(PcapPlain, clock, msgs)) == Some(Packets(PcapPlain, clock, msgs))
  {
    hide CalcEpoch64, Seconds, SubSeconds, RecordHead, WalkRecords, Unpack;
    if msgs == [] {
      NoRecordsLeft();
    } else {
      var m, rest := msgs[0], RecordsOf(PcapPlain, clock, msgs[1..]);
      WalkAllRecords(clock, msgs[1..]);
      if HasPacket(m) {
        var t := CalcEpoch64(Unpack(m), clock);
        assert Captured(m) == m[STRUCT_SIZE..];
        PcapTimeIff(t);
        WalkOneRecord(t, Captured(m), rest);
      } else {
        assert RecordsOf(PcapPlain, clock, msgs) == rest;
      }
    }
  }

  /** Walking a pcap file by record sizes gives the Ethernet payloads back, in order, with their exact times. */
  lemma {:induction false} PcapReadsBack(clock: DoubleClock, msgs: seq<seq<byte>>)
    requires AllBefore2106(clock, msgs)
    ensures ReadPcap(Header(PcapPlain) + RecordsOf(PcapPlain, clock, msgs)) == Some(Packets(PcapPlain, clock, msgs))
  {
    var s := Header(PcapPlain) + RecordsOf(PcapPlain, clock, msgs);
    assert s[0..4] == LE32(PCAP_MAGIC);
    ReadLE32Of(s, 0, PCAP_MAGIC);
    assert s[24..] == RecordsOf(PcapPlain, clock, msgs);
    WalkAllRecords(clock, msgs);
  }
}
