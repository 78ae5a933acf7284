/** Whole exports of a VSB file: to a pcap or pcapng file, and to the message table. */
module Export {
  import opened Bytes
  import opened VsbStruct
  import opened TimeDecoder
  import opened KeyedSort
  import opened RowCodec
  import opened RowCache
  import opened VsbReader
  import opened VsbReading
  import opened Pcap
  import opened Progress

  /** done is what the callback lets through of a file's messages. */
  ghost predicate ReadUpTo(all: Option<Msgs>, prog: Callback, done: Msgs)
  {
    all.Some? ==> StopsAt(prog, |all.value|, |done|) && done == all.value[..|done|]
  }

  lemma EndsHere(read: VSBIORead, prog: Callback, done: Msgs, r: Condition, msg: seq<byte>)
    requires Reading(read, done, r, msg) && AgreedBefore(prog, |done|)
    requires r == Success ==> Refuses(prog, |done|)
    ensures ReadUpTo(AllOf(read.file, read.timeSize), prog, done)
  {
    hide AllOf, Reading;
    if AllOf(read.file, read.timeSize).Some? {
      DoneSoFar(read, done, r, msg);
    }
  }

  // ----- pcap and pcapng -----

  /** What one export leaves in the file. */
  ghost function Exported(kind: PcapType, clock: DoubleClock, base: seq<byte>, append: bool, done: Msgs): seq<byte>
  {
    (if append then base else Header(kind)) + RecordsOf(kind, clock, done)
  }

  method CreatePcap(
      read: VSBIORead, kind: PcapType, clock: DoubleClock,
      existing: seq<byte>, append: bool, possible: bool, prog: Callback)
    returns (ok: bool, after: seq<byte>, ghost done: Msgs)
    requires read.Valid() && read.IsNew()
    modifies read
    ensures ok == possible
    ensures ok ==> after == Exported(kind, clock, existing, append, done)
    ensures ok ==> ReadUpTo(AllOf(read.file, read.timeSize), prog, done)
    ensures !ok ==> after == existing
  {
    hide AllOf, Reading, Left, RecordsOf, Counting, AgreedBefore, Refuses, VSBIORead.Valid, Header;
    CountingStarts(prog);
    done, after := [], existing;
    var outFile := new PcapFile(kind, clock);
    ok := outFile.Open(existing, append, possible);
    if !ok {
      return;
    }
    var counter: nat := 0;
    ghost var n: nat := 0;
    var r, msg := StartReading(read);
    while r == Success
      invariant Reading(read, done, r, msg) && n == |done| && Counting(prog, counter, n)
      invariant fresh(outFile) && outFile.Valid() && outFile.file.Some? && outFile.given == done
      invariant outFile.base == if append then existing else Header(kind)
      invariant outFile.kind == kind && outFile.clock == clock
      decreases Left(read, r)
    {
      CountingStep(prog, counter, n);
      if prog.Some? {
        if Refuses(prog, counter) {
          break;
        }
        counter := counter + 1;
      }
      WholeMessage(read, done, msg);
      var written := outFile.WriteMessage(msg);
      ghost var before := done;
      done, n := done + [msg], n + 1;
      r, msg := ReadOn(read, msg, before);
    }
    CountingStep(prog, counter, n);
    EndsHere(read, prog, done, r, msg);
    after := outFile.file.value;
  }

  lemma WholeMessage(read: VSBIORead, done: Msgs, msg: seq<byte>)
    requires Reading(read, done, Success, msg)
    ensures |msg| >= STRUCT_SIZE
  {
  }

  // ----- the message table -----

  ghost predicate EachStorable(msgs: Msgs)
  {
    forall i | 0 <= i < |msgs| :: Storable(msgs[i])
  }

  /** Messages with the times they are stored under. */
  ghost function Timed(clock: DoubleClock, msgs: Msgs): seq<Keyed>
    requires EachStorable(msgs)
  {
    if msgs == [] then []
    else Timed(clock, msgs[..|msgs| - 1]) + [Keyed(CalcEpoch64(Unpack(msgs[|msgs| - 1]), clock), msgs[|msgs| - 1])]
  }

  lemma {:induction false} TimedStorable(clock: DoubleClock, msgs: Msgs)
    requires EachStorable(msgs)
    ensures AllStorable(Timed(clock, msgs))
  {
    hide CalcEpoch64, Storable, Unpack;
    if msgs != [] {
      TimedStorable(clock, msgs[..|msgs| - 1]);
    }
  }

  lemma TimedSnoc(clock: DoubleClock, msgs: Msgs, m: seq<byte>)
    requires EachStorable(msgs) && Storable(m)
    ensures EachStorable(msgs + [m])
    ensures Timed(clock, msgs + [m]) == Timed(clock, msgs) + [Keyed(CalcEpoch64(Unpack(m), clock), m)]
  {
    assert (msgs + [m])[..|msgs|] == msgs;
  }

  /** The table after a log: every message inserted when it comes, first come first served. */
  ghost function TableOf(start: Table, clock: DoubleClock, msgs: Msgs): Table
    requires EachStorable(msgs)
  {
    TimedStorable(clock, msgs);
    InsertAll(start, Entries(Timed(clock, msgs)))
  }

  lemma TableAsInserted(start: Table, clock: DoubleClock, msgs: Msgs)
    requires EachStorable(msgs)
    ensures AllStorable(Timed(clock, msgs))
    ensures TableOf(start, clock, msgs) == InsertAll(start, Entries(Timed(clock, msgs)))
  {
    TimedStorable(clock, msgs);
  }

  /** Takes every message of the file into the cache. */
  method ProcessAll(read: VSBIORead, info: VSBInfo, prog: Callback) returns (ghost done: Msgs)
    requires read.Valid() && read.IsNew() && info.Valid() && info.arrivals == []
    requires AllOf(read.file, read.timeSize).Some? && EachStorable(AllOf(read.file, read.timeSize).value)
    modifies read, info
    ensures ReadUpTo(AllOf(read.file, read.timeSize), prog, done) && EachStorable(done)
    ensures info.Valid() && info.arrivals == Timed(info.clock, done)
  {
    hide *;
    CountingStarts(prog);
    ghost var all := AllOf(read.file, read.timeSize).value;
    done := [];
    NothingTimed(info.clock);
    var counter: nat := 0;
    ghost var n: nat := 0;
    var r, msg := StartReading(read);
    while r == Success
      invariant Reading(read, done, r, msg) && n == |done| && Counting(prog, counter, n)
      invariant info.Valid() && EachStorable(done) && info.arrivals == Timed(info.clock, done)
      decreases Left(read, r)
    {
      CountingStep(prog, counter, n);
      if prog.Some? {
        if Refuses(prog, counter) {
          break;
        }
        counter := counter + 1;
      }
      StorableMessage(read, all, done, msg);
      TimedSnoc(info.clock, done, msg);
      info.ProcessMessage(msg);
      ghost var before := done;
      done, n := done + [msg], n + 1;
      r, msg := ReadOn(read, msg, before);
    }
    CountingStep(prog, counter, n);
    EndsHere(read, prog, done, r, msg);
  }

  method CreateDb(read: VSBIORead, clock: DoubleClock, limit: nat, existing: Table, append: bool, prog: Callback)
    returns (table: Table, ghost done: Msgs)
    requires read.Valid() && read.IsNew() && limit > 0
    requires AllOf(read.file, read.timeSize).Some? && EachStorable(AllOf(read.file, read.timeSize).value)
    modifies read
    ensures ReadUpTo(AllOf(read.file, read.timeSize), prog, done) && EachStorable(done)
    ensures table == TableOf(if append then existing else map[], clock, done)
  {
    hide *;
    var start := if append then existing else map[];
    var info := new VSBInfo(clock, limit, start);
    done := ProcessAll(read, info, prog);
    TableAsInserted(start, clock, done);
    info.UpdateTable();
    table := info.table;
  }

  lemma NothingTimed(clock: DoubleClock)
    ensures EachStorable([]) && Timed(clock, []) == []
  {
  }

  lemma StorableMessage(read: VSBIORead, all: Msgs, done: Msgs, msg: seq<byte>)
    requires Reading(read, done, Success, msg) && AllOf(read.file, read.timeSize) == Some(all) && EachStorable(all)
    ensures Storable(msg)
  {
    hide AllOf, Storable;
    assert all[|done|] == msg;
  }
}
