/** The message table after an export, read back row by row. */
module TableContents {
  import opened Bytes
  import opened VsbStruct
  import opened TimeDecoder
  import opened KeyedSort
  import opened RowCodec
  import opened RowCache
  import opened VsbReading
  import opened Export

  /** Time, network and id: what makes two messages share a row. */
  predicate SameRow(a: seq<byte>, b: seq<byte>, clock: DoubleClock)
    requires |a| >= STRUCT_SIZE && |b| >= STRUCT_SIZE
  {
    var m, n := Unpack(a), Unpack(b);
    && CalcEpoch64(m, clock) == CalcEpoch64(n, clock)
    && m.networkId == n.networkId && m.networkId2 == n.networkId2 && m.arbId == n.arbId
  }

  function RowKey(b: seq<byte>, clock: DoubleClock): PrimaryKey
    requires |b| >= STRUCT_SIZE
  {
    var m := Unpack(b);
    PrimaryKey(AsInt64(CalcEpoch64(m, clock)), m.networkId + 0x100 * m.networkId2, AsInt32(m.arbId))
  }

  lemma KeysTellRows(a: seq<byte>, b: seq<byte>, clock: DoubleClock)
    requires |a| >= STRUCT_SIZE && |b| >= STRUCT_SIZE
    ensures RowKey(a, clock) == RowKey(b, clock) <==> SameRow(a, b, clock)
  {
    hide Unpack, CalcEpoch64, AsInt64, AsInt32, AsUint64, AsUint32;
    SignedRoundTrip(CalcEpoch64(Unpack(a), clock));
    SignedRoundTrip(CalcEpoch64(Unpack(b), clock));
    SignedRoundTrip(Unpack(a).arbId);
    SignedRoundTrip(Unpack(b).arbId);
  }

  lemma {:induction false} TimedAt(clock: DoubleClock, msgs: Msgs, i: nat)
    requires EachStorable(msgs) && i < |msgs|
    ensures |Timed(clock, msgs)| == |msgs| && |msgs[i]| >= STRUCT_SIZE
    ensures Timed(clock, msgs)[i] == Keyed(CalcEpoch64(Unpack(msgs[i]), clock), msgs[i])
  {
    hide CalcEpoch64, Unpack;
    TimedLength(clock, msgs);
    assert Storable(msgs[i]);
    if i < |msgs| - 1 {
      TimedLength(clock, msgs[..|msgs| - 1]);
      TimedAt(clock, msgs[..|msgs| - 1], i);
    } else {
      TimedLength(clock, msgs[..|msgs| - 1]);
    }
  }

  lemma {:induction false} TimedLength(clock: DoubleClock, msgs: Msgs)
    requires EachStorable(msgs)
    ensures |Timed(clock, msgs)| == |msgs|
  {
    hide CalcEpoch64, Unpack, Storable;
    if msgs != [] {
      TimedLength(clock, msgs[..|msgs| - 1]);
    }
  }

  lemma EntryAt(clock: DoubleClock, msgs: Msgs, i: nat)
    requires EachStorable(msgs) && i < |msgs|
    ensures AllStorable(Timed(clock, msgs)) && |Entries(Timed(clock, msgs))| == |msgs| && |msgs[i]| >= STRUCT_SIZE
    ensures var e := Entries(Timed(clock, msgs))[i];
      e.key == RowKey(msgs[i], clock) && Storable(msgs[i]) && e.row == RowOf(Unpack(msgs[i]), Payload(msgs[i]))
  {
    hide CalcEpoch64, Unpack, Timed, Entries, RowOf, Payload;
    TimedStorable(clock, msgs);
    TimedAt(clock, msgs, i);
    EntriesAt(Timed(clock, msgs), i);
    assert Storable(msgs[i]);
  }

  /** No row of the table stands for message i yet, and no earlier message shares its row. */
  ghost predicate FirstOfRow(start: Table, clock: DoubleClock, msgs: Msgs, i: nat)
    requires EachStorable(msgs)
  {
    && i < |msgs| && |msgs[i]| >= STRUCT_SIZE && RowKey(msgs[i], clock) !in start
    && forall j | 0 <= j < i :: |msgs[j]| >= STRUCT_SIZE && !SameRow(msgs[j], msgs[i], clock)
  }

  /**
    * The first message with a new time, network and id is in the table, and comes back from its row with its identity,
    * status words, header and data bytes, and its time rounded to 25 ns.
    */
  lemma {:induction false} FirstMessageComesBack(start: Table, clock: DoubleClock, msgs: Msgs, i: nat)
    requires EachStorable(msgs) && FirstOfRow(start, clock, msgs, i) && RowSized(msgs[i])
    ensures var k, table := RowKey(msgs[i], clock), TableOf(start, clock, msgs);
      && k in table && AsUint64(table[k].dataSize) <= |table[k].data|
      && var r := MessageOfRow(k, table[k]);
        && WellSized(r) && RowSized(r)
        && SameFields(Unpack(msgs[i]), Unpack(r)) && Payload(r) == Payload(msgs[i])
        && CalcEpoch64(Unpack(r), clock) == Rounded(CalcEpoch64(Unpack(msgs[i]), clock))
  {
    hide CalcEpoch64, Unpack, Timed, Entries, InsertAll, RowOf, Payload, RowKey, SameRow, WellSized, SameFields;
    hide Rounded;
    TableAsInserted(start, clock, msgs);
    var s, k := Entries(Timed(clock, msgs)), RowKey(msgs[i], clock);
    EntryAt(clock, msgs, i);
    forall j | 0 <= j < i
      ensures s[j].key != k
    {
      EntryAt(clock, msgs, j);
      KeysTellRows(msgs[j], msgs[i], clock);
    }
    FirstArrivalWins(start, s, k, i);
    RowComesBack(msgs[i], clock);
  }

  lemma RowComesBack(b: seq<byte>, clock: DoubleClock)
    requires RowSized(b)
    ensures var k, row := RowKey(b, clock), RowOf(Unpack(b), Payload(b));
      && AsUint64(row.dataSize) <= |row.data|
      && var r := MessageOfRow(k, row);
        && WellSized(r) && RowSized(r)
        && SameFields(Unpack(b), Unpack(r)) && Payload(r) == Payload(b)
        && CalcEpoch64(Unpack(r), clock) == Rounded(CalcEpoch64(Unpack(b), clock))
  {
    hide CalcEpoch64, Unpack, WellSized, SameFields, Rounded, MessageOfRow, Payload;
    BlobIsPayload(Unpack(b), Payload(b));
    RowRoundTrip(CalcEpoch64(Unpack(b), clock), b, clock);
  }

  /** Every row that was not there before stands for some message of the log. */
  lemma {:induction false} RowsComeFromMessages(start: Table, clock: DoubleClock, msgs: Msgs, k: PrimaryKey)
    requires EachStorable(msgs) && k in TableOf(start, clock, msgs) && k !in start
    ensures exists i | 0 <= i < |msgs| :: |msgs[i]| >= STRUCT_SIZE && RowKey(msgs[i], clock) == k
  {
    hide CalcEpoch64, Unpack, Timed, Entries, InsertAll, RowOf, Payload, RowKey;
    TableAsInserted(start, clock, msgs);
    var s := Entries(Timed(clock, msgs));
    if forall i | 0 <= i < |msgs| :: |msgs[i]| >= STRUCT_SIZE ==> RowKey(msgs[i], clock) != k {
      EntriesLength(clock, msgs);
      forall i | 0 <= i < |s|
        ensures s[i].key != k
      {
        EntryAt(clock, msgs, i);
      }
      AbsentKeyStaysAbsent(start, s, k);
    }
  }

  lemma EntriesLength(clock: DoubleClock, msgs: Msgs)
    requires EachStorable(msgs)
    ensures AllStorable(Timed(clock, msgs)) && |Entries(Timed(clock, msgs))| == |msgs|
  {
    hide Entries, Timed;
    TimedStorable(clock, msgs);
    TimedLength(clock, msgs);
  }
}
