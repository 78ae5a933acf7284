/** Exporting a log as pcap or pcapng, told from the structures and extra bytes of its messages. */
module PcapLogs {
  import opened Bytes
  import opened VsbStruct
  import opened TimeDecoder
  import opened LoggedMessages
  import opened Pcap

  /** An Ethernet message with anything behind its structure. */
  predicate IsPacket(x: LoggedMessage)
  {
    x.structure.protocol == 29 && x.extra != []
  }

  /** The extra bytes of the Ethernet messages with their times, in nanoseconds for pcap and microseconds for pcapng. */
  function EthernetPackets(kind: PcapType, clock: DoubleClock, xs: seq<LoggedMessage>): seq<Packet>
  {
    if xs == [] then []
    else
      var x := xs[0];
      var t := CalcEpoch64(x.structure, clock);
      (if IsPacket(x) then [Packet(if kind == PcapNg then t / 1000 else t, x.extra)] else [])
        + EthernetPackets(kind, clock, xs[1..])
  }

  /** The format can hold the message: a 32-bit block length, or a size and a number of seconds of 32 bits. */
  predicate Holdable(kind: PcapType, clock: DoubleClock, x: LoggedMessage)
  {
    IsPacket(x) ==>
      match kind
      case PcapNg => (|x.extra| + 3) / 4 * 4 + 32 < TWO_32
      case PcapPlain => |x.extra| < TWO_32 && CalcEpoch64(x.structure, clock) < TWO_32 * 1000000000
  }

  ghost predicate AllHoldable(kind: PcapType, clock: DoubleClock, xs: seq<LoggedMessage>)
  {
    forall i | 0 <= i < |xs| :: Holdable(kind, clock, xs[i])
  }

  lemma PacketIff(x: LoggedMessage)
    ensures HasPacket(x.Message()) <==> IsPacket(x)
  {
    hide Pack, Unpack;
    PartsOfMessage(x);
  }

  lemma {:induction false} PacketsOfLog(kind: PcapType, clock: DoubleClock, xs: seq<LoggedMessage>)
    ensures Packets(kind, clock, LogOf(xs)) == EthernetPackets(kind, clock, xs)
  {
    hide HasPacket, IsPacket, Unpack, CalcEpoch64, LogOf;
    if xs == [] {
      LogOfNone();
    } else {
      LogOfTail(xs);
      PacketsOfLog(kind, clock, xs[1..]);
      PacketIff(xs[0]);
      PartsOfMessage(xs[0]);
    }
  }

  lemma RoundedUp(n: nat)
    ensures n + Padding(n) == (n + 3) / 4 * 4
  {
  }

  lemma HoldableFits(kind: PcapType, clock: DoubleClock, xs: seq<LoggedMessage>)
    requires AllHoldable(kind, clock, xs)
    ensures kind == PcapNg ==> AllFitBlock(LogOf(xs))
    ensures kind == PcapPlain ==> AllBefore2106(clock, LogOf(xs))
  {
    hide HasPacket, IsPacket, Unpack, CalcEpoch64, Padding;
    forall i | 0 <= i < |xs|
      ensures HasPacket(LogOf(xs)[i]) <==> IsPacket(xs[i])
      ensures LogOf(xs)[i] == xs[i].Message() && Unpack(xs[i].Message()) == xs[i].structure
      ensures |xs[i].extra| + Padding(|xs[i].extra|) == (|xs[i].extra| + 3) / 4 * 4
      ensures Holdable(kind, clock, xs[i])
    {
      PacketIff(xs[i]);
      PartsOfMessage(xs[i]);
      RoundedUp(|xs[i].extra|);
    }
  }

  /** The packets that a reader which knows only the format finds in a file. */
  function ReadFile(kind: PcapType, file: seq<byte>): Option<seq<Packet>>
  {
    match kind
    case PcapNg => Walk(file, 0)
    case PcapPlain => ReadPcap(file)
  }

  /** A file of a log gives back exactly its Ethernet payloads, in order, with their times. */
  lemma {:induction false} FileOfLogReadsBack(kind: PcapType, clock: DoubleClock, xs: seq<LoggedMessage>)
    requires AllHoldable(kind, clock, xs)
    ensures ReadFile(kind, Header(kind) + RecordsOf(kind, clock, LogOf(xs))) == Some(EthernetPackets(kind, clock, xs))
  {
    hide Walk, ReadPcap, RecordsOf, Header, LogOf, Packets, EthernetPackets, AllHoldable, AllFitBlock, AllBefore2106;
    HoldableFits(kind, clock, xs);
    PacketsOfLog(kind, clock, xs);
    if kind == PcapNg {
      PcapNgReadsBack(clock, LogOf(xs));
    } else {
      PcapReadsBack(clock, LogOf(xs));
    }
  }

  /** Writing a log to a new file, message by message: what a reader finds in it, and the number of records. */
  method WriteLog(kind: PcapType, clock: DoubleClock, xs: seq<LoggedMessage>)
    returns (file: seq<byte>, records: nat)
    requires AllHoldable(kind, clock, xs)
    ensures ReadFile(kind, file) == Some(EthernetPackets(kind, clock, xs))
    ensures records == |EthernetPackets(kind, clock, xs)|
  {
    hide Walk, ReadPcap, ReadFile, RecordsOf, Header, Packets, EthernetPackets, AllHoldable, Pack, HasPacket;
    var outFile := new PcapFile(kind, clock);
    var ok := outFile.Open([], false, true);
    for i := 0 to |xs|
      invariant fresh(outFile) && outFile.Valid() && outFile.file.Some?
      invariant outFile.kind == kind && outFile.clock == clock
      invariant outFile.given == LogOf(xs)[..i] && outFile.base == Header(kind) && outFile.earlier == 0
    {
      var written := outFile.WriteMessage(xs[i].Message());
      assert LogOf(xs)[..i + 1] == LogOf(xs)[..i] + [xs[i].Message()];
    }
    assert LogOf(xs)[..|xs|] == LogOf(xs);
    FileOfLogReadsBack(kind, clock, xs);
    PacketsOfLog(kind, clock, xs);
    file, records := outFile.file.value, outFile.numRecords;
  }
}
