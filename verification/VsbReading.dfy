/** Loops over a reader: what has been read so far is what the scan of the file gives. */
module VsbReading {
  import opened Bytes
  import opened VsbStruct
  import opened VsbFormat
  import opened VsbReader

  type Msgs = seq<seq<byte>>

  /** What reading the whole file delivers, where that is determined. */
  ghost function AllOf(file: seq<byte>, timeSize: nat): Option<Msgs>
  {
    if FirstPlace(file).Some? then Scan(file, timeSize, FirstPlace(file).value, Zeros(STRUCT_SIZE), true) else None
  }

  /** The last read had outcome r and message msg; done are the messages before it. */
  ghost predicate Reading(read: VSBIORead, done: Msgs, r: Condition, msg: seq<byte>)
    reads read
  {
    && read.Valid() && (r == Success ==> read.fileType != Closed && |msg| >= STRUCT_SIZE)
    && (AllOf(read.file, read.timeSize).Some? ==>
          AgreesWithScan(read, AllOf(read.file, read.timeSize).value, done, r, msg))
  }

  ghost predicate AgreesWithScan(read: VSBIORead, all: Msgs, done: Msgs, r: Condition, msg: seq<byte>)
    reads read
  {
    if r != Success then all == done
    else
      && |msg| >= STRUCT_SIZE && read.Ready()
      && var rest := Scan(read.file, read.timeSize, read.Here(), msg, false);
        rest.Some? && all == done + [msg] + rest.value
  }

  /** Falls with every read. */
  ghost function Left(read: VSBIORead, r: Condition): nat
    reads read
  {
    if r != Success then 0 else if read.msgLocation < read.fileSize then 1 + read.fileSize - read.msgLocation else 1
  }

  lemma DoneSoFar(read: VSBIORead, done: Msgs, r: Condition, msg: seq<byte>)
    requires Reading(read, done, r, msg) && AllOf(read.file, read.timeSize).Some?
    ensures done <= AllOf(read.file, read.timeSize).value
    ensures r == Success ==> |done| < |AllOf(read.file, read.timeSize).value|
    ensures r != Success ==> done == AllOf(read.file, read.timeSize).value
  {
    hide Scan, FirstPlace, VSBIORead.Valid, VSBIORead.Ready;
  }

  method StartReading(read: VSBIORead) returns (r: Condition, msg: seq<byte>)
    requires read.Valid() && read.IsNew()
    modifies read
    ensures Reading(read, [], r, msg)
  {
    hide FirstPlace, ReadWhole, KnownAt, StructAt, EntryOffset;
    assert AtLeastStruct([]) == Zeros(STRUCT_SIZE);
    ghost var tries;
    r, msg, tries := read.ReadNextMessage([]);
  }

  method ReadOn(read: VSBIORead, msg: seq<byte>, ghost done: Msgs) returns (r: Condition, out: seq<byte>)
    requires Reading(read, done, Success, msg)
    modifies read
    ensures Reading(read, done + [msg], r, out) && Left(read, r) < old(Left(read, Success))
  {
    hide FirstPlace, ReadWhole, KnownAt, StructAt, EntryOffset;
    ghost var tries;
    r, out, tries := read.ReadNextMessage(msg);
  }
}
