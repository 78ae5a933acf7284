/** Splitting a file by message count and by size. */
module VsbSplit {
  import opened Bytes
  import opened VsbFormat
  import opened VsbReader
  import opened VsbReading
  import opened VsbWriter
  import opened Progress

  // ----- writing the files of a split -----

  ghost predicate FilesOf(disk: seq<seq<byte>>, parts: seq<Msgs>)
  {
    |disk| == |parts| && forall i | 0 <= i < |parts| :: disk[i] == FileOf(parts[i])
  }

  /** Closed files hold the parts, and an open one the messages after them. */
  ghost predicate Writing(write: VSBIOWrite?, disk: seq<seq<byte>>, parts: seq<Msgs>, done: Msgs)
    reads write
  {
    && FilesOf(disk, parts)
    && done == Flatten(parts) + Written(write)
    && if write == null then parts == [] else write.Valid() && write.written != []
  }

  /** The messages of the open file; none before the first file is opened. */
  ghost function Written(write: VSBIOWrite?): Msgs
    reads write
  {
    if write == null then [] else write.written
  }

  /** The parts, when the open one is closed. */
  ghost function WithOpen(parts: seq<Msgs>, part: Msgs): seq<Msgs>
  {
    if part == [] then parts else parts + [part]
  }

  lemma NothingWritten()
    ensures Writing(null, [], [], []) && Written(null) == []
  {
  }

  /** Writes a message to the open file, or closes that and opens the next one for it. */
  method Put(write: VSBIOWrite?, next: bool, disk: seq<seq<byte>>, ghost parts: seq<Msgs>, ghost done: Msgs,
             msg: seq<byte>)
    returns (w: VSBIOWrite, d: seq<seq<byte>>, ghost p: seq<Msgs>)
    requires Writing(write, disk, parts, done) && (Written(write) == [] ==> next)
    modifies write
    ensures Writing(w, d, p, done + [msg]) && (w == write || fresh(w))
    ensures next ==> Written(w) == [msg] && p == WithOpen(parts, old(Written(write)))
    ensures !next ==> Written(w) == old(Written(write)) + [msg] && p == parts
  {
    hide FileOf, Flatten;
    d, p := disk, parts;
    if next {
      d, p := Close(write, disk, parts, done);
      w := new VSBIOWrite.Init();
    } else {
      w := write;
    }
    w.WriteMessage(msg);
  }

  /** One round: the message in hand is written and the next one read. */
  method Copy(read: VSBIORead, write: VSBIOWrite?, next: bool, disk: seq<seq<byte>>,
              ghost parts: seq<Msgs>, ghost done: Msgs, msg: seq<byte>)
    returns (w: VSBIOWrite, d: seq<seq<byte>>, ghost p: seq<Msgs>, ghost now: Msgs, r: Condition, out: seq<byte>)
    requires Reading(read, done, Success, msg)
    requires Writing(write, disk, parts, done) && (Written(write) == [] ==> next)
    modifies read, write
    ensures now == done + [msg] && Reading(read, now, r, out) && Left(read, r) < old(Left(read, Success))
    ensures Writing(w, d, p, now) && (w == write || fresh(w))
    ensures next ==> Written(w) == [msg] && p == WithOpen(parts, old(Written(write)))
    ensures !next ==> Written(w) == old(Written(write)) + [msg] && p == parts
  {
    hide *;
    w, d, p := Put(write, next, disk, parts, done, msg);
    now := done + [msg];
    r, out := ReadOn(read, msg, done);
  }

  method Close(write: VSBIOWrite?, disk: seq<seq<byte>>, ghost parts: seq<Msgs>, ghost done: Msgs)
    returns (d: seq<seq<byte>>, ghost p: seq<Msgs>)
    requires Writing(write, disk, parts, done)
    ensures p == WithOpen(parts, Written(write))
    ensures FilesOf(d, p) && Flatten(p) == done
  {
    hide FileOf;
    d, p := disk, parts;
    if write != null {
      FlattenSnoc(parts, write.written);
      d, p := d + [write.file], p + [write.written];
    }
  }

  // ----- by count -----

  /** n messages a part; the last one has what is left, which is not nothing. */
  ghost predicate EvenParts(parts: seq<Msgs>, n: nat)
  {
    parts == [] || (AllFull(parts[..|parts| - 1], n) && 1 <= |parts[|parts| - 1]| <= n)
  }

  ghost predicate AllFull(parts: seq<Msgs>, n: nat)
  {
    forall i | 0 <= i < |parts| :: |parts[i]| == n
  }

  lemma OneMorePart(parts: seq<Msgs>, part: Msgs, n: nat)
    requires AllFull(parts, n) && |part| <= n && (part == [] ==> parts == [])
    ensures EvenParts(WithOpen(parts, part), n)
    ensures part == [] || |part| == n ==> AllFull(WithOpen(parts, part), n)
  {
    assert (parts + [part])[..|parts|] == parts;
  }

  /** After counter messages, the closed files are full and the rest is in the open one. */
  ghost predicate Phased(parts: seq<Msgs>, part: Msgs, counter: nat, n: nat)
  {
    && AllFull(parts, n) && |part| <= n && (part == [] ==> parts == [])
    && counter == |parts| * n + |part|
  }

  lemma NothingPhased(n: nat)
    ensures Phased([], [], 0, n)
  {
  }

  /** A multiple of n is reached when the open file is full, or before there is one. */
  lemma MultipleIff(parts: seq<Msgs>, part: Msgs, counter: nat, n: nat)
    requires n > 0 && Phased(parts, part, counter, n)
    ensures counter % n == 0 <==> part == [] || |part| == n
  {
    hide AllFull;
    if |part| == n {
      UniqueQuotient(counter, |parts| + 1, 0, n);
    } else {
      UniqueQuotient(counter, |parts|, |part|, n);
    }
  }

  lemma PhasedStep(parts: seq<Msgs>, part: Msgs, counter: nat, m: seq<byte>, n: nat)
    requires n > 0 && Phased(parts, part, counter, n)
    ensures part == [] ==> counter % n == 0
    ensures counter % n == 0 ==> Phased(WithOpen(parts, part), [m], counter + 1, n)
    ensures counter % n != 0 ==> Phased(parts, part + [m], counter + 1, n)
  {
    MultipleIff(parts, part, counter, n);
    OneMorePart(parts, part, n);
  }

  lemma PhasedParts(parts: seq<Msgs>, part: Msgs, counter: nat, n: nat)
    requires Phased(parts, part, counter, n)
    ensures EvenParts(WithOpen(parts, part), n)
  {
    OneMorePart(parts, part, n);
  }

  lemma UniqueQuotient(y: int, k: int, r: nat, n: nat)
    requires n > 0 && r < n && y == k * n + r
    ensures y % n == r && y / n == k
  {
    var d := y / n - k;
    assert d * n == r - y % n;
    if d != 0 {
      MultipleIsFar(d, n);
    }
  }

  lemma MultipleIsFar(d: int, n: nat)
    requires d != 0
    ensures d * n >= n || d * n <= -(n as int)
  {
  }

  /** Splits a file into files of n messages each. */
  method Split(read: VSBIORead, n: nat, prog: Callback) returns (disk: seq<seq<byte>>, ghost parts: seq<Msgs>)
    requires read.Valid() && read.IsNew() && n > 0
    modifies read
    ensures FilesOf(disk, parts) && EvenParts(parts, n)
    ensures SplitUpTo(AllOf(read.file, read.timeSize), prog, parts)
  {
    hide *;
    NothingRefused(prog);
    NothingPhased(n);
    disk, parts := [], [];
    var write: VSBIOWrite? := null;
    NothingWritten();
    ghost var done: Msgs := [];
    var counter: nat := 0;
    var r, msg := StartReading(read);
    while r == Success
      invariant Reading(read, done, r, msg) && counter == |done|
      invariant Writing(write, disk, parts, done) && (write != null ==> fresh(write))
      invariant Phased(parts, Written(write), counter, n) && Agreed(prog, counter)
      decreases Left(read, r)
    {
      OneMoreAgreed(prog, counter);
      if Refuses(prog, counter + 1) {
        break;
      }
      PhasedStep(parts, Written(write), counter, msg, n);
      write, disk, parts, done, r, msg := Copy(read, write, counter % n == 0, disk, parts, done, msg);
      counter := counter + 1;
    }
    PhasedParts(parts, Written(write), counter, n);
    disk, parts := Close(write, disk, parts, done);
    StoppedHere(read, prog, parts, r, msg);
  }

  /** The parts together are the messages up to the stop the callback asked for, if any. */
  ghost predicate SplitUpTo(all: Option<Msgs>, prog: Callback, parts: seq<Msgs>)
  {
    all.Some? ==> StopsAfter(prog, |all.value|, |Flatten(parts)|) && Flatten(parts) == all.value[..|Flatten(parts)|]
  }

  lemma StoppedHere(read: VSBIORead, prog: Callback, parts: seq<Msgs>, r: Condition, msg: seq<byte>)
    requires Reading(read, Flatten(parts), r, msg) && Agreed(prog, |Flatten(parts)|)
    requires r == Success ==> Refuses(prog, |Flatten(parts)| + 1)
    ensures SplitUpTo(AllOf(read.file, read.timeSize), prog, parts)
  {
    hide AllOf, Reading, Flatten;
    if AllOf(read.file, read.timeSize).Some? {
      DoneSoFar(read, Flatten(parts), r, msg);
    }
  }

  // ----- by size -----

  /** Size of a part as the splitter counts it: the first message is left out. */
  function Counted(part: Msgs): nat
    requires part != []
  {
    HEADER_SIZE + |Flatten(part[1..])|
  }

  lemma DiskSize(part: Msgs)
    requires part != []
    ensures |FileOf(part)| == Counted(part) + |part[0]|
  {
  }

  lemma CountedSnoc(part: Msgs, m: seq<byte>)
    requires part != []
    ensures Counted(part + [m]) == Counted(part) + |m|
  {
    assert (part + [m])[1..] == part[1..] + [m];
    FlattenSnoc(part[1..], m);
  }

  /** A part ends exactly where the count would pass the limit. */
  ghost predicate FullParts(parts: seq<Msgs>, limit: nat)
  {
    && (forall i | 0 <= i < |parts| :: parts[i] != [] && (|parts[i]| == 1 || Counted(parts[i]) <= limit))
    && (forall i | 0 <= i < |parts| - 1 :: Counted(parts[i]) + |parts[i + 1][0]| > limit)
  }

  lemma FirstPart(m: seq<byte>, limit: nat)
    ensures Counted([m]) == HEADER_SIZE && FullParts([[m]], limit)
  {
  }

  /** Closing a part that the next message would overfill. */
  lemma FullPartsGrow(parts: seq<Msgs>, part: Msgs, m: seq<byte>, limit: nat)
    requires part != [] && FullParts(parts + [part], limit)
    ensures Counted(part) + |m| > limit ==> FullParts(parts + [part] + [[m]], limit)
    ensures Counted(part) + |m| <= limit ==> FullParts(parts + [part + [m]], limit)
  {
    var was, n := parts + [part], |parts|;
    assert was[n] == part;
    if Counted(part) + |m| > limit {
      var now := was + [[m]];
      assert forall i | 0 <= i <= n :: now[i] == was[i];
      assert now[n + 1] == [m];
    } else {
      CountedSnoc(part, m);
      var now := parts + [part + [m]];
      assert forall i | 0 <= i < n :: now[i] == was[i];
      assert now[n] == part + [m] && now[n][0] == was[n][0];
    }
  }

  /** The parts so far, their number, and the size of the open one as the splitter counts it. */
  ghost predicate Sized(parts: seq<Msgs>, part: Msgs, number: nat, size: nat, limit: nat)
  {
    && FullParts(WithOpen(parts, part), limit) && number == |WithOpen(parts, part)|
    && if part == [] then parts == [] else size == Counted(part)
  }

  lemma SizedStep(parts: seq<Msgs>, part: Msgs, number: nat, size: nat, m: seq<byte>, limit: nat)
    requires Sized(parts, part, number, size, limit)
    ensures number == 0 <==> part == []
    ensures number == 0 || size + |m| > limit ==> Sized(WithOpen(parts, part), [m], number + 1, HEADER_SIZE, limit)
    ensures number != 0 && size + |m| <= limit ==> Sized(parts, part + [m], number, size + |m|, limit)
  {
    hide FullParts, Counted;
    FirstPart(m, limit);
    assert WithOpen([], [m]) == [[m]];
    if part != [] {
      FullPartsGrow(parts, part, m, limit);
      CountedSnoc(part, m);
    }
  }

  lemma SizedParts(parts: seq<Msgs>, part: Msgs, number: nat, size: nat, limit: nat)
    requires Sized(parts, part, number, size, limit)
    ensures FullParts(WithOpen(parts, part), limit)
  {
  }

  /** The counter stands at the last message copied, as long as there is a callback to ask. */
  ghost predicate Asked(prog: Callback, counter: nat, copied: nat)
  {
    prog.Some? ==> counter == copied
  }

  lemma NothingSized(prog: Callback, limit: nat)
    ensures Asked(prog, 0, 0) && Sized([], [], 0, HEADER_SIZE, limit)
  {
  }

  lemma AskedStep(prog: Callback, counter: nat, copied: nat)
    requires Asked(prog, counter, copied) && Agreed(prog, copied)
    ensures prog.None? || !Refuses(prog, counter + 1) ==> Agreed(prog, copied + 1)
    ensures prog.None? ==> Asked(prog, counter, copied + 1)
    ensures prog.Some? ==> counter == copied
    ensures prog.Some? && !Refuses(prog, counter + 1) ==> Asked(prog, counter + 1, copied + 1)
  {
    OneMoreAgreed(prog, copied);
  }

  /** Splits a file into files that each hold as much as the limit allows. */
  method SplitBySize(read: VSBIORead, limit: nat, prog: Callback) returns (disk: seq<seq<byte>>, ghost parts: seq<Msgs>)
    requires read.Valid() && read.IsNew()
    modifies read
    ensures FilesOf(disk, parts) && FullParts(parts, limit)
    ensures SplitUpTo(AllOf(read.file, read.timeSize), prog, parts)
  {
    hide *;
    NothingRefused(prog);
    NothingSized(prog, limit);
    disk, parts := [], [];
    var write: VSBIOWrite? := null;
    NothingWritten();
    ghost var done: Msgs, copied: nat := [], 0;
    var counter: nat, splitFileSize: nat, currentFileNumber: nat := 0, HEADER_SIZE, 0;
    var r, msg := StartReading(read);
    while r == Success
      invariant Reading(read, done, r, msg) && copied == |done|
      invariant Writing(write, disk, parts, done) && (write != null ==> fresh(write))
      invariant Sized(parts, Written(write), currentFileNumber, splitFileSize, limit)
      invariant Asked(prog, counter, copied) && Agreed(prog, copied)
      decreases Left(read, r)
    {
      AskedStep(prog, counter, copied);
      if prog.Some? {
        counter := counter + 1;
        if Refuses(prog, counter) {
          break;
        }
      }
      SizedStep(parts, Written(write), currentFileNumber, splitFileSize, msg, limit);
      splitFileSize := splitFileSize + |msg|;
      var next := currentFileNumber == 0 || splitFileSize > limit;
      if next {
        currentFileNumber, splitFileSize := currentFileNumber + 1, HEADER_SIZE;
      }
      write, disk, parts, done, r, msg := Copy(read, write, next, disk, parts, done, msg);
      copied := copied + 1;
    }
    SizedParts(parts, Written(write), currentFileNumber, splitFileSize, limit);
    disk, parts := Close(write, disk, parts, done);
    StoppedHere(read, prog, parts, r, msg);
  }
}
