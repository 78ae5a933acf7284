/** Merging several files by time: the k-way reader and the concatenation that uses it. */
module VsbMerge {
  import opened Bytes
  import opened VsbStruct
  import opened VsbReader
  import opened VsbReading
  import opened VsbDelivery
  import opened VsbWriter
  import opened Progress

  type Msg = seq<byte>

  /** Time of a message in seconds; any reading of its stamp will do. */
  type Clock = Msg -> real

  /** The messages that came from input k. */
  function From(out: seq<Msg>, source: seq<nat>, k: nat): seq<Msg>
    requires |out| == |source|
  {
    if out == [] then []
    else From(out[..|out| - 1], source[..|out| - 1], k) + if source[|out| - 1] == k then [out[|out| - 1]] else []
  }

  ghost predicate InTimeOrder(clock: Clock, s: seq<Msg>)
  {
    forall i, j | 0 <= i < j < |s| :: clock(s[i]) <= clock(s[j])
  }

  ghost predicate AllInTimeOrder(clock: Clock, inputs: seq<seq<Msg>>)
  {
    forall k | 0 <= k < |inputs| :: InTimeOrder(clock, inputs[k])
  }

  lemma FromSnoc(out: seq<Msg>, source: seq<nat>, x: Msg, s: nat, k: nat)
    requires |out| == |source|
    ensures From(out + [x], source + [s], k) == From(out, source, k) + if s == k then [x] else []
  {
    assert (out + [x])[..|out|] == out && (source + [s])[..|out|] == source;
  }

  lemma NextIsLater(clock: Clock, inputs: seq<seq<Msg>>, k: nat, n: nat)
    requires k < |inputs| && 1 <= n <= |inputs[k]| && AllInTimeOrder(clock, inputs)
    ensures n < |inputs[k]| ==> clock(inputs[k][n - 1]) <= clock(inputs[k][n])
  {
    assert InTimeOrder(clock, inputs[k]);
  }

  ghost predicate Earliest(clock: Clock, queue: map<nat, Msg>, t: nat)
  {
    t in queue && forall k | k in queue :: clock(queue[t]) <= clock(queue[k])
  }

  lemma {:induction false} EarliestExists(clock: Clock, queue: map<nat, Msg>) returns (t: nat)
    requires queue != map[]
    ensures Earliest(clock, queue, t)
    decreases |queue|
  {
    var r :| r in queue;
    var rest := queue - {r};
    if rest == map[] {
      t := r;
      assert forall k | k in queue && k != r :: k in rest;
    } else {
      t := EarliestExists(clock, rest);
      assert forall k | k in queue && k != r :: k in rest && rest[k] == queue[k];
      if clock(queue[r]) <= clock(queue[t]) {
        t := r;
      }
    }
  }

  ghost predicate HeldNotEarlier(clock: Clock, output: seq<Msg>, queue: map<nat, Msg>)
  {
    forall i, k | 0 <= i < |output| && k in queue :: clock(output[i]) <= clock(queue[k])
  }

  /** Handing out an earliest message keeps the order, when its reader comes up with a later one or none. */
  lemma StaysOrdered(clock: Clock, output: seq<Msg>, queue: map<nat, Msg>, t: nat, after: map<nat, Msg>)
    requires InTimeOrder(clock, output) && HeldNotEarlier(clock, output, queue) && Earliest(clock, queue, t)
    requires forall k | k in after ::
      if k == t then clock(queue[t]) <= clock(after[t]) else k in queue && after[k] == queue[k]
    ensures InTimeOrder(clock, output + [queue[t]]) && HeldNotEarlier(clock, output + [queue[t]], after)
  {
  }

  /** Nothing held is earlier than anything handed out. */
  ghost predicate Ordered(clock: Clock, output: seq<Msg>, queue: map<nat, Msg>)
  {
    InTimeOrder(clock, output) && HeldNotEarlier(clock, output, queue)
  }

  /** Messages the readers have not read yet. */
  ghost function Unread(inputs: seq<seq<Msg>>, next: seq<nat>): nat
    requires |next| == |inputs|
  {
    if inputs == [] then 0
    else
      var n := |inputs| - 1;
      Unread(inputs[..n], next[..n]) + if next[n] < |inputs[n]| then |inputs[n]| - next[n] else 0
  }

  lemma {:induction false} UnreadStep(inputs: seq<seq<Msg>>, next: seq<nat>, k: nat)
    requires |next| == |inputs| && k < |inputs| && next[k] < |inputs[k]|
    ensures Unread(inputs, next[k := next[k] + 1]) == Unread(inputs, next) - 1
  {
    var n := |inputs| - 1;
    var after := next[k := next[k] + 1];
    if k < n {
      UnreadStep(inputs[..n], next[..n], k);
      assert after[..n] == next[..n][k := next[k] + 1];
    } else {
      assert after[..n] == next[..n];
    }
  }

  /** What has been handed out of one input is what has been read, except the message its reader still holds. */
  ghost predicate Accounted(input: seq<Msg>, read: nat, queue: map<nat, Msg>, k: nat, handedOut: seq<Msg>)
  {
    if k in queue then 1 <= read <= |input| && queue[k] == input[read - 1] && handedOut == input[..read - 1]
    else read == |input| && handedOut == input
  }

  ghost predicate AllAccounted(
      inputs: seq<seq<Msg>>, next: seq<nat>, queue: map<nat, Msg>, output: seq<Msg>, source: seq<nat>)
  {
    && |next| == |inputs| && |output| == |source|
    && (forall k | k in queue :: k < |inputs|)
    && (forall i | 0 <= i < |source| :: source[i] < |inputs|)
    && (forall k | 0 <= k < |inputs| :: Accounted(inputs[k], next[k], queue, k, From(output, source, k)))
  }

  /** The queue after the reader of its front message has read on. */
  function QueueAfter(inputs: seq<seq<Msg>>, next: seq<nat>, queue: map<nat, Msg>, k: nat): map<nat, Msg>
    requires |next| == |inputs| && k < |inputs|
  {
    if next[k] < |inputs[k]| then (queue - {k})[k := inputs[k][next[k]]] else queue - {k}
  }

  function NextAfter(inputs: seq<seq<Msg>>, next: seq<nat>, k: nat): seq<nat>
    requires |next| == |inputs| && k < |inputs|
  {
    if next[k] < |inputs[k]| then next[k := next[k] + 1] else next
  }

  lemma QueueChanges(inputs: seq<seq<Msg>>, next: seq<nat>, queue: map<nat, Msg>, k: nat, j: nat)
    requires |next| == |inputs| && k < |inputs| && j < |inputs|
    ensures var after := QueueAfter(inputs, next, queue, k);
      if j == k then (k in after <==> next[k] < |inputs[k]|) && (k in after ==> after[k] == inputs[k][next[k]])
      else (j in after <==> j in queue) && (j in after ==> after[j] == queue[j])
  {
  }

  lemma FrontStaysAccounted(
      inputs: seq<seq<Msg>>, next: seq<nat>, queue: map<nat, Msg>, k: nat, handedOut: seq<Msg>)
    requires |next| == |inputs| && k < |inputs| && k in queue
    requires Accounted(inputs[k], next[k], queue, k, handedOut)
    ensures Accounted(inputs[k], NextAfter(inputs, next, k)[k], QueueAfter(inputs, next, queue, k), k,
                      handedOut + [queue[k]])
  {
    hide QueueAfter;
    QueueChanges(inputs, next, queue, k, k);
    var n := next[k];
    assert inputs[k][..n] == inputs[k][..n - 1] + [queue[k]];
    assert inputs[k][..|inputs[k]|] == inputs[k];
  }

  lemma OtherStaysAccounted(
      inputs: seq<seq<Msg>>, next: seq<nat>, queue: map<nat, Msg>, k: nat, j: nat, handedOut: seq<Msg>)
    requires |next| == |inputs| && k < |inputs| && j < |inputs| && j != k
    requires Accounted(inputs[j], next[j], queue, j, handedOut)
    ensures Accounted(inputs[j], NextAfter(inputs, next, k)[j], QueueAfter(inputs, next, queue, k), j, handedOut)
  {
    hide QueueAfter;
    QueueChanges(inputs, next, queue, k, j);
  }

  lemma OneStaysAccounted(
      inputs: seq<seq<Msg>>, next: seq<nat>, queue: map<nat, Msg>, output: seq<Msg>, source: seq<nat>, k: nat, j: nat)
    requires |next| == |inputs| && |output| == |source| && k < |inputs| && j < |inputs| && k in queue
    requires Accounted(inputs[j], next[j], queue, j, From(output, source, j))
    ensures Accounted(inputs[j], NextAfter(inputs, next, k)[j], QueueAfter(inputs, next, queue, k), j,
                      From(output + [queue[k]], source + [k], j))
  {
    hide From, QueueAfter, Accounted;
    FromSnoc(output, source, queue[k], k, j);
    if j == k {
      FrontStaysAccounted(inputs, next, queue, k, From(output, source, k));
    } else {
      OtherStaysAccounted(inputs, next, queue, k, j, From(output, source, j));
      assert From(output, source, j) + [] == From(output, source, j);
    }
  }

  lemma StaysAccounted(
      inputs: seq<seq<Msg>>, next: seq<nat>, queue: map<nat, Msg>, output: seq<Msg>, source: seq<nat>, k: nat)
    requires AllAccounted(inputs, next, queue, output, source) && k in queue
    ensures AllAccounted(inputs, NextAfter(inputs, next, k), QueueAfter(inputs, next, queue, k),
                         output + [queue[k]], source + [k])
  {
    hide From, Accounted;
    forall j | 0 <= j < |inputs|
      ensures Accounted(inputs[j], NextAfter(inputs, next, k)[j], QueueAfter(inputs, next, queue, k), j,
                        From(output + [queue[k]], source + [k], j))
    {
      OneStaysAccounted(inputs, next, queue, output, source, k, j);
    }
  }

  /** What handing out the front message does to the books and to the order. */
  lemma HandsOut(
      clock: Clock, inputs: seq<seq<Msg>>, next: seq<nat>, queue: map<nat, Msg>,
      output: seq<Msg>, source: seq<nat>, k: nat)
    requires AllAccounted(inputs, next, queue, output, source) && Earliest(clock, queue, k)
    requires AllInTimeOrder(clock, inputs) ==> Ordered(clock, output, queue)
    ensures k < |inputs| == |next|
    ensures AllAccounted(inputs, NextAfter(inputs, next, k), QueueAfter(inputs, next, queue, k),
                         output + [queue[k]], source + [k])
    ensures AllInTimeOrder(clock, inputs) ==> Ordered(clock, output + [queue[k]], QueueAfter(inputs, next, queue, k))
  {
    hide AllAccounted, InTimeOrder, HeldNotEarlier, AllInTimeOrder;
    FrontIsHeld(inputs, next, queue, output, source, k);
    StaysAccounted(inputs, next, queue, output, source, k);
    if AllInTimeOrder(clock, inputs) {
      NextIsLater(clock, inputs, k, next[k]);
      StaysOrdered(clock, output, queue, k, QueueAfter(inputs, next, queue, k));
    }
  }

  /** The merger before and after it has handed out the front message of reader k. */
  ghost predicate HandedOut(
      inputs: seq<seq<Msg>>, k: nat, next: seq<nat>, queue: map<nat, Msg>, output: seq<Msg>, source: seq<nat>,
      next': seq<nat>, queue': map<nat, Msg>, output': seq<Msg>, source': seq<nat>)
  {
    && |next| == |inputs| && k < |inputs| && k in queue
    && next' == NextAfter(inputs, next, k) && queue' == QueueAfter(inputs, next, queue, k)
    && output' == output + [queue[k]] && source' == source + [k]
  }

  lemma PoppedIs(
      inputs: seq<seq<Msg>>, k: nat, next: seq<nat>, queue: map<nat, Msg>, output: seq<Msg>, source: seq<nat>)
    requires |next| == |inputs| && k < |inputs| && k in queue
    ensures next[k] < |inputs[k]| ==>
      HandedOut(inputs, k, next, queue, output, source, next[k := next[k] + 1],
                (queue - {k})[k := inputs[k][next[k]]], output + [queue[k]], source + [k])
    ensures next[k] >= |inputs[k]| ==>
      HandedOut(inputs, k, next, queue, output, source, next, queue - {k}, output + [queue[k]], source + [k])
  {
  }

  lemma AfterHandingOut(
      clock: Clock, inputs: seq<seq<Msg>>, k: nat,
      next: seq<nat>, queue: map<nat, Msg>, output: seq<Msg>, source: seq<nat>,
      next': seq<nat>, queue': map<nat, Msg>, output': seq<Msg>, source': seq<nat>)
    requires HandedOut(inputs, k, next, queue, output, source, next', queue', output', source')
    requires AllAccounted(inputs, next, queue, output, source) && Earliest(clock, queue, k)
    requires AllInTimeOrder(clock, inputs) ==> Ordered(clock, output, queue)
    ensures AllAccounted(inputs, next', queue', output', source')
    ensures AllInTimeOrder(clock, inputs) ==> Ordered(clock, output', queue')
    ensures |next'| == |inputs| && Unread(inputs, next') + |queue'| < Unread(inputs, next) + |queue|
    ensures k in queue && output' == output + [queue[k]]
  {
    hide AllAccounted, Ordered, AllInTimeOrder, Earliest, Unread;
    HandsOut(clock, inputs, next, queue, output, source, k);
    RemainingStep(inputs, next, queue, k);
  }

  lemma RemainingStep(inputs: seq<seq<Msg>>, next: seq<nat>, queue: map<nat, Msg>, k: nat)
    requires |next| == |inputs| && k < |inputs| && k in queue
    ensures Unread(inputs, NextAfter(inputs, next, k)) + |QueueAfter(inputs, next, queue, k)|
         == Unread(inputs, next) + |queue| - 1
  {
    assert |queue - {k}| == |queue| - 1 by {
      assert (queue - {k})[k := queue[k]] == queue;
    }
    if next[k] < |inputs[k]| {
      UnreadStep(inputs, next, k);
    }
  }

  lemma FrontIsHeld(
      inputs: seq<seq<Msg>>, next: seq<nat>, queue: map<nat, Msg>, output: seq<Msg>, source: seq<nat>, k: nat)
    requires AllAccounted(inputs, next, queue, output, source) && k in queue
    ensures |next| == |inputs| && |output| == |source| && k < |inputs|
    ensures 1 <= next[k] <= |inputs[k]| && queue[k] == inputs[k][next[k] - 1]
  {
    assert Accounted(inputs[k], next[k], queue, k, From(output, source, k));
  }

  lemma StartedOne(
      file: seq<byte>, timeSize: nat, read: VSBIORead, r: Condition, msg: Msg, k: nat, queue: map<nat, Msg>)
    requires Readable(file, timeSize) && read.file == file && read.timeSize == timeSize
    requires Reading(read, [], r, msg) && k !in queue
    ensures r == Success ==> StartedAt(file, timeSize, read, queue[k := msg], k, 1)
    ensures r != Success ==> StartedAt(file, timeSize, read, queue, k, 0)
  {
    hide Reading, AllOf;
    var all := Messages(file, timeSize);
    assert all[..0] == [];
    NextOfFile(read, all, 0, r, msg);
  }

  lemma StartedMore(
      files: seq<seq<byte>>, file: seq<byte>, timeSize: nat, list: seq<VSBIORead>, before: map<nat, Msg>,
      queue: map<nat, Msg>, read: seq<nat>, reader: VSBIORead, n: nat)
    requires (forall k | 0 <= k < |files| :: Readable(files[k], timeSize)) && Readable(file, timeSize)
    requires Started(files, timeSize, list, before, read) && reader !in list
    requires StartedAt(file, timeSize, reader, queue, |files|, n)
    requires queue == before || (|files| in queue && queue == before[|files| := queue[|files|]])
    ensures forall k | 0 <= k <= |files| :: Readable((files + [file])[k], timeSize)
    ensures Started(files + [file], timeSize, list + [reader], queue, read + [n])
  {
    hide Readable, Messages, Reading;
    forall k | 0 <= k < |files|
      ensures StartedAt(files[k], timeSize, list[k], queue, k, read[k])
    {
      assert StartedAt(files[k], timeSize, list[k], before, k, read[k]);
    }
  }

  lemma StartedBooks(files: seq<seq<byte>>, timeSize: nat, list: seq<VSBIORead>, queue: map<nat, Msg>, read: seq<nat>)
    requires forall k | 0 <= k < |files| :: Readable(files[k], timeSize)
    requires Started(files, timeSize, list, queue, read)
    ensures var all := AllMessages(files, timeSize);
      && AllAccounted(all, read, queue, [], [])
      && (forall k | 0 <= k < |all| :: EachFit(all[k]))
      && (forall k | 0 <= k < |all| :: AllOf(list[k].file, list[k].timeSize) == Some(all[k]))
      && (forall k | 0 <= k < |all| && k in queue ::
            read[k] == 1 && all[k] != [] && Reading(list[k], all[k][..0], Success, queue[k]))
  {
    hide AllOf, Reading, EachFit;
    var all := AllMessages(files, timeSize);
    forall k | 0 <= k < |all|
      ensures Accounted(all[k], read[k], queue, k, From([], [], k))
      ensures EachFit(all[k]) && AllOf(list[k].file, list[k].timeSize) == Some(all[k])
      ensures k in queue ==> read[k] == 1 && all[k] != [] && Reading(list[k], all[k][..0], Success, queue[k])
    {
      assert StartedAt(files[k], timeSize, list[k], queue, k, read[k]);
      assert all[k][..0] == [];
    }
  }

  /** Opens every file and makes the first read of each. */
  method OpenAll(files: seq<seq<byte>>, timeSize: nat)
    returns (list: seq<VSBIORead>, queue: map<nat, Msg>, ghost read: seq<nat>)
    requires timeSize == 24 || timeSize == 48
    requires forall k | 0 <= k < |files| :: Readable(files[k], timeSize)
    ensures fresh(list) && Started(files, timeSize, list, queue, read)
  {
    hide Reading, Messages, Readable, StartedAt, VSBIORead.Valid, VSBIORead.IsNew;
    list, queue, read := [], map[], [];
    for k := 0 to |files|
      invariant fresh(list) && Started(files[..k], timeSize, list, queue, read)
    {
      var reader := new VSBIORead(files[k], timeSize);
      var r, msg := StartReading(reader);
      StartedOne(files[k], timeSize, reader, r, msg, k, queue);
      ghost var before := queue;
      if r == Success {
        queue := queue[k := msg];
      }
      StartedMore(files[..k], files[k], timeSize, list, before, queue, read, reader, if r == Success then 1 else 0);
      assert files[..k + 1] == files[..k] + [files[k]];
      list, read := list + [reader], read + [if r == Success then 1 else 0];
    }
    assert files[..|files|] == files;
  }

  /** What a read adds: the next message of the file, or the news that there is none. */
  lemma NextOfFile(read: VSBIORead, all: seq<Msg>, n: nat, r: Condition, msg: Msg)
    requires n <= |all| && Reading(read, all[..n], r, msg) && AllOf(read.file, read.timeSize) == Some(all)
    ensures r == Success <==> n < |all|
    ensures r == Success ==> msg == all[n]
  {
    hide AllOf;
    DoneSoFar(read, all[..n], r, msg);
    assert all[..|all|] == all;
  }

  /** What the files deliver. */
  ghost function AllMessages(files: seq<seq<byte>>, timeSize: nat): (all: seq<seq<Msg>>)
    requires forall k | 0 <= k < |files| :: Readable(files[k], timeSize)
    ensures |all| == |files| && forall k | 0 <= k < |files| :: all[k] == Messages(files[k], timeSize)
  {
    seq(|files|, k requires 0 <= k < |files| => Messages(files[k], timeSize))
  }

  /** Reader k has made its first read: its message is held, or the file has none. */
  ghost predicate StartedAt(file: seq<byte>, timeSize: nat, read: VSBIORead, queue: map<nat, Msg>, k: nat, n: nat)
    requires Readable(file, timeSize)
    reads read
  {
    var all := Messages(file, timeSize);
    && read.file == file && read.timeSize == timeSize
    && if k in queue then
         n == 1 && all != [] && queue[k] == all[0] && Reading(read, [], Success, queue[k])
       else n == 0 && all == []
  }

  ghost predicate Started(
      files: seq<seq<byte>>, timeSize: nat, list: seq<VSBIORead>, queue: map<nat, Msg>, read: seq<nat>)
    requires forall k | 0 <= k < |files| :: Readable(files[k], timeSize)
    reads list
  {
    && |list| == |read| == |files|
    && (forall i, j | 0 <= i < j < |list| :: list[i] != list[j])
    && (forall k | k in queue :: k < |files|)
    && (forall k | 0 <= k < |files| :: StartedAt(files[k], timeSize, list[k], queue, k, read[k]))
  }

  ghost predicate EachInputFit(inputs: seq<seq<Msg>>)
  {
    forall k | 0 <= k < |inputs| :: EachFit(inputs[k])
  }

  class VSBIOReadMultiple {
    const clock: Clock
    const readers: seq<VSBIORead>
    ghost const inputs: seq<seq<Msg>>  // what the files deliver
    ghost var next: seq<nat>  // messages read so far from each of them
    var latestTimestamp: map<nat, Msg>  // the priority queue: the message each open reader holds
    var top: nat  // reader at the front of the queue
    ghost var output: seq<Msg>
    ghost var source: seq<nat>

    /** The reader of a held message stands behind it. */
    ghost predicate Stands(k: nat)
      requires k < |readers| && |next| == |inputs| == |readers| && k in latestTimestamp
      reads `next, `latestTimestamp, readers
    {
      && 1 <= next[k] <= |inputs[k]|
      && Reading(readers[k], inputs[k][..next[k] - 1], Success, latestTimestamp[k])
    }

    ghost predicate ReadersStand()
      reads `next, `latestTimestamp, readers
    {
      && |next| == |inputs| == |readers|
      && (forall i, j | 0 <= i < j < |readers| :: readers[i] != readers[j])
      && (forall k | 0 <= k < |readers| :: AllOf(readers[k].file, readers[k].timeSize) == Some(inputs[k]))
      && (forall k | 0 <= k < |readers| && k in latestTimestamp :: Stands(k))
    }

    ghost predicate TopIsEarliest()
      reads `latestTimestamp, `top
    {
      latestTimestamp != map[] ==> Earliest(clock, latestTimestamp, top)
    }

    /** The books of all readers, whichever is at the front of the queue. */
    ghost predicate Books()
      reads `next, `latestTimestamp, `output, `source, readers
    {
      && EachInputFit(inputs) && ReadersStand()
      && AllAccounted(inputs, next, latestTimestamp, output, source)
      && (AllInTimeOrder(clock, inputs) ==> Ordered(clock, output, latestTimestamp))
    }

    ghost predicate Valid()
      reads this, readers
    {
      Books() && TopIsEarliest()
    }

    constructor (files: seq<seq<byte>>, timeSize: nat, clock: Clock)
      requires timeSize == 24 || timeSize == 48
      requires forall k | 0 <= k < |files| :: Readable(files[k], timeSize)
      ensures Valid() && fresh(readers) && this.clock == clock && output == []
      ensures inputs == AllMessages(files, timeSize)
    {
      hide *;
      this.clock, inputs := clock, AllMessages(files, timeSize);
      var list, queue, read := OpenAll(files, timeSize);
      readers, next, latestTimestamp, output, source := list, read, queue, [], [];
      top := 0;
      new;
      StartBooks(files, timeSize);
      FindTop();
      BooksAndTop();
    }

    lemma BooksAndTop()
      requires Books() && TopIsEarliest()
      ensures Valid()
    {
    }

    lemma StartBooks(files: seq<seq<byte>>, timeSize: nat)
      requires forall k | 0 <= k < |files| :: Readable(files[k], timeSize)
      requires Started(files, timeSize, readers, latestTimestamp, next)
      requires inputs == AllMessages(files, timeSize) && output == [] && source == []
      ensures Books()
    {
      hide Reading, AllOf, EachFit, Accounted, StartedAt;
      StartedBooks(files, timeSize, readers, latestTimestamp, next);
    }

    /** The queue brings an earliest message to its front; which one, among equals, is left open. */
    method FindTop()
      modifies `top
      ensures TopIsEarliest()
    {
      if latestTimestamp != map[] {
        ghost var earliest := EarliestExists(clock, latestTimestamp);
        assert Earliest(clock, latestTimestamp, earliest);
        var t :| && t in latestTimestamp
                 && forall k | k in latestTimestamp :: clock(latestTimestamp[t]) <= clock(latestTimestamp[k]);
        top := t;
      }
    }

    method TryReadNextMessage(sizeOfBuffer: nat) returns (r: Condition, returnLength: nat, msg: Msg)
      requires Valid()
      modifies this, readers
      ensures Valid() && (r == Success || r == EndOfFile || r == BufferTooSmall)
      ensures r == EndOfFile <==> old(latestTimestamp) == map[]
      ensures r == BufferTooSmall ==> returnLength == old(MessageSizeAtTop()) > sizeOfBuffer
      ensures r != Success ==>
        output == old(output) && latestTimestamp == old(latestTimestamp) && next == old(next) && top == old(top)
      ensures r == Success ==>
        && returnLength == |msg| <= sizeOfBuffer && output == old(output) + [msg] && Remaining() < old(Remaining())
        && old(top) in old(latestTimestamp) && msg == old(latestTimestamp)[old(top)]
    {
      hide ReadLE32, From;
      returnLength, msg := 0, [];
      if latestTimestamp == map[] {
        return EndOfFile, returnLength, msg;
      }
      var held := latestTimestamp[top];
      FrontIsHeld(inputs, next, latestTimestamp, output, source, top);
      if MessageSize(held) > sizeOfBuffer {
        return BufferTooSmall, MessageSize(held), msg;
      }
      msg, returnLength := held, MessageSize(held);
      HandOutTop();
      r := Success;
    }

    /** Pops the front message and lets its reader read on. */
    method HandOutTop()
      requires Valid() && latestTimestamp != map[]
      modifies this, readers
      ensures Valid() && old(top) in old(latestTimestamp)
      ensures output == old(output) + [old(latestTimestamp)[old(top)]]
      ensures Remaining() < old(Remaining())
    {
      hide Books, Remaining, Earliest;
      PopTop();
      FindTop();
    }

    method PopTop()
      requires Books() && Earliest(clock, latestTimestamp, top)
      modifies `latestTimestamp, `next, `output, `source, readers
      ensures Books() && top in old(latestTimestamp) && output == old(output) + [old(latestTimestamp)[top]]
      ensures Remaining() < old(Remaining())
    {
      hide *;
        OpenBooks();
      ghost var k, n, queue, out, src := top, next, latestTimestamp, output, source;
      ReadBehindTop();
      AfterHandingOut(clock, inputs, k, n, queue, out, src, next, latestTimestamp, output, source);
      CloseBooks();
    }

    lemma OpenBooks()
      requires Books() && Earliest(clock, latestTimestamp, top)
      ensures top in latestTimestamp && top < |inputs| == |readers| && |next| == |inputs| && |output| == |source|
      ensures ReadersStand() && EachInputFit(inputs)
      ensures AllAccounted(inputs, next, latestTimestamp, output, source)
      ensures AllInTimeOrder(clock, inputs) ==> Ordered(clock, output, latestTimestamp)
      ensures Remaining() == Unread(inputs, next) + |latestTimestamp|
    {
      hide EachInputFit, Reading, AllOf, Accounted, Ordered, Unread, AllInTimeOrder;
    }

    lemma CloseBooks()
      requires ReadersStand() && EachInputFit(inputs)
      requires AllAccounted(inputs, next, latestTimestamp, output, source)
      requires AllInTimeOrder(clock, inputs) ==> Ordered(clock, output, latestTimestamp)
      ensures Books() && |next| == |inputs| && Remaining() == Unread(inputs, next) + |latestTimestamp|
    {
      hide EachInputFit, Reading, AllOf, Accounted, Ordered, Unread, AllInTimeOrder;
    }

    /** Takes the front message off the queue; the next one of its reader, if any, goes in. */
    method ReadBehindTop()
      requires ReadersStand() && top < |readers| && top in latestTimestamp
      modifies `latestTimestamp, `next, `output, `source, readers
      ensures ReadersStand()
      ensures HandedOut(inputs, top, old(next), old(latestTimestamp), old(output), old(source),
                        next, latestTimestamp, output, source)
    {
      hide Reading, AllOf, HandedOut;
      var k := top;
      ghost var all, n := inputs[k], next[k];
      assert Stands(k);
      PoppedIs(inputs, k, next, latestTimestamp, output, source);
      var msg, r := latestTimestamp[k], Success;
      NextOfFile(readers[k], all, n - 1, r, msg);
      r, msg := ReadOn(readers[k], msg, all[..n - 1]);
      assert all[..n - 1] + [old(latestTimestamp)[k]] == all[..n];
      NextOfFile(readers[k], all, n, r, msg);
      output, source := output + [latestTimestamp[k]], source + [k];
      latestTimestamp := latestTimestamp - {k};
      if r == Success {
        latestTimestamp := latestTimestamp[k := msg];
        next := next[k := n + 1];
      }
      forall j | 0 <= j < |readers| && j in latestTimestamp
        ensures Stands(j)
      {
        if j != k {
          assert old(Stands(j));
        }
      }
    }

    /** Messages not handed out yet. */
    ghost function Remaining(): nat
      reads `next, `latestTimestamp
    {
      if |next| == |inputs| then Unread(inputs, next) + |latestTimestamp| else 0
    }

    ghost function MessageSizeAtTop(): nat
      reads this
    {
      if top in latestTimestamp && |latestTimestamp[top]| >= STRUCT_SIZE then MessageSize(latestTimestamp[top]) else 0
    }

    /** Reads into a vector that is resized to the message at the front when it is too small. */
    method ReadNextMessage(msg: Msg) returns (r: Condition, out: Msg)
      requires Valid()
      modifies this, readers
      ensures Valid() && (r == Success || r == EndOfFile)
      ensures r == EndOfFile <==> old(latestTimestamp) == map[]
      ensures r == EndOfFile ==> output == old(output) && latestTimestamp == map[]
      ensures r == Success ==> output == old(output) + [out] && Remaining() < old(Remaining())
    {
      var size := if |msg| < STRUCT_SIZE then STRUCT_SIZE else |msg|;
      var retval: nat;
      r, retval, out := TryReadNextMessage(size);
      while r == BufferTooSmall
        invariant Valid() && (r == Success || r == EndOfFile || r == BufferTooSmall)
        invariant r == EndOfFile <==> old(latestTimestamp) == map[]
        invariant r != Success ==> output == old(output) && latestTimestamp == old(latestTimestamp) && next == old(next)
        invariant r == BufferTooSmall ==> retval == MessageSizeAtTop()
        invariant r == Success ==> output == old(output) + [out] && Remaining() < old(Remaining())
        decreases r == BufferTooSmall
      {
        size := retval;
        r, retval, out := TryReadNextMessage(size);
      }
    }
  }

  /** An interleaving: what came from each input is the whole of that input, in order. */
  ghost predicate Interleaves(inputs: seq<seq<Msg>>, out: seq<Msg>, source: seq<nat>)
  {
    && |out| == |source|
    && (forall i | 0 <= i < |source| :: source[i] < |inputs|)
    && (forall k | 0 <= k < |inputs| :: From(out, source, k) == inputs[k])
  }

  /** What came from each input is a prefix of that input. */
  ghost predicate FromEachAPrefix(inputs: seq<seq<Msg>>, out: seq<Msg>, source: seq<nat>)
  {
    && |out| == |source|
    && forall k | 0 <= k < |inputs| :: From(out, source, k) <= inputs[k]
  }

  /** An interleaving loses nothing and repeats nothing. */
  lemma {:induction false} InterleavingIsPermutation(inputs: seq<seq<Msg>>, out: seq<Msg>, source: seq<nat>)
    requires Interleaves(inputs, out, source)
    ensures multiset(out) == multiset(Flatten(inputs))
    decreases |out|
  {
    if out == [] {
      forall k | 0 <= k < |inputs|
        ensures inputs[k] == []
      {
        assert From(out, source, k) == inputs[k];
      }
      FlattenOfEmpties(inputs);
    } else {
      var n := |out| - 1;
      var k, x := source[n], out[n];
      assert out == out[..n] + [x] && source == source[..n] + [k];
      var fewer := inputs[k := From(out[..n], source[..n], k)];
      forall j | 0 <= j < |inputs|
        ensures From(out[..n], source[..n], j) == fewer[j]
        ensures inputs[j] == fewer[j] + if j == k then [x] else []
      {
        FromSnoc(out[..n], source[..n], x, k, j);
        assert From(out, source, j) == inputs[j];
      }
      InterleavingIsPermutation(fewer, out[..n], source[..n]);
      FlattenOneMore(inputs, fewer, k, x);
    }
  }

  lemma {:induction false} FlattenOfEmpties(inputs: seq<seq<Msg>>)
    requires forall k | 0 <= k < |inputs| :: inputs[k] == []
    ensures Flatten(inputs) == []
  {
    if inputs != [] {
      FlattenOfEmpties(inputs[1..]);
    }
  }

  lemma FlattenOneMore(inputs: seq<seq<Msg>>, fewer: seq<seq<Msg>>, k: nat, x: Msg)
    requires k < |inputs| == |fewer| && fewer == inputs[k := fewer[k]] && inputs[k] == fewer[k] + [x]
    ensures multiset(Flatten(inputs)) == multiset(Flatten(fewer)) + multiset{x}
  {
    var a, b := inputs[..k], inputs[k + 1..];
    assert inputs == a + [inputs[k]] + b && fewer == a + [fewer[k]] + b;
    FlattenAppend(a + [inputs[k]], b);
    FlattenAppend(a + [fewer[k]], b);
    FlattenSnoc(a, inputs[k]);
    FlattenSnoc(a, fewer[k]);
  }

  /** Of what the merger handed out, only the message in the caller's hands, if any, is not yet written. */
  ghost predicate UpToDate(read: VSBIOReadMultiple, written: seq<Msg>, r: Condition, message: Msg)
    reads read, read.readers
  {
    && read.Valid()
    && if r == Success then read.output == written + [message]
       else r == EndOfFile && read.output == written && read.latestTimestamp == map[]
  }

  /** One round: the message in hand is written and the next one handed out. */
  method CopyOne(read: VSBIOReadMultiple, writer: VSBIOWrite, message: Msg) returns (r: Condition, out: Msg)
    requires UpToDate(read, writer.written, Success, message) && writer.Valid()
    modifies read, read.readers, writer
    ensures writer.Valid() && writer.written == old(writer.written) + [message]
    ensures UpToDate(read, writer.written, r, out)
    ensures r == Success ==> read.Remaining() < old(read.Remaining())
  {
    hide VSBIOReadMultiple.Valid, VSBIOReadMultiple.Remaining, VSBIOWrite.Valid;
    writer.WriteMessage(message);
    r, out := read.ReadNextMessage(message);
  }

  /**
    * Concatenation writes an interleaving of what the files deliver, in time order when each of them is; a refusal
    * ends it early.
    */
  method Concatenate(files: seq<seq<byte>>, timeSize: nat, clock: Clock, prog: Callback, writer: VSBIOWrite)
    returns (n: nat, ghost source: seq<nat>)
    requires timeSize == 24 || timeSize == 48
    requires forall k | 0 <= k < |files| :: Readable(files[k], timeSize)
    requires writer.Valid() && writer.written == []
    modifies writer
    ensures writer.Valid() && |writer.written| == n && Agreed(prog, n)
    ensures prog.None? ==> Interleaves(AllMessages(files, timeSize), writer.written, source)
    ensures !Interleaves(AllMessages(files, timeSize), writer.written, source) ==> Refuses(prog, n + 1)
    ensures FromEachAPrefix(AllMessages(files, timeSize), writer.written, source)
    ensures AllInTimeOrder(clock, AllMessages(files, timeSize)) ==> InTimeOrder(clock, writer.written)
  {
    hide *;
    NothingRefused(prog);
    var read := new VSBIOReadMultiple(files, timeSize, clock);
    var counter: nat := 1;
    n := 0;
    var r, message := StartCopying(read);
    while r == Success
      invariant fresh(read) && fresh(read.readers) && UpToDate(read, writer.written, r, message)
      invariant writer.Valid() && |writer.written| == n && (prog.Some? ==> counter == n + 1)
      invariant Agreed(prog, n)
      decreases if r == Success then 1 + read.Remaining() else 0
    {
      OneMoreAgreed(prog, n);
      if prog.Some? {
        if Refuses(prog, counter) {
          break;
        }
        counter := counter + 1;
      }
      r, message := CopyOne(read, writer, message);
      n := n + 1;
    }
    source := WhatIsWritten(read, writer.written, r, message);
  }

  method StartCopying(read: VSBIOReadMultiple) returns (r: Condition, message: Msg)
    requires read.Valid() && read.output == []
    modifies read, read.readers
    ensures UpToDate(read, [], r, message)
  {
    hide VSBIOReadMultiple.Valid;
    r, message := read.ReadNextMessage([]);
  }

  lemma WhatIsWritten(read: VSBIOReadMultiple, written: seq<Msg>, r: Condition, message: Msg) returns (source: seq<nat>)
    requires UpToDate(read, written, r, message)
    ensures r != Success ==> Interleaves(read.inputs, written, source)
    ensures FromEachAPrefix(read.inputs, written, source)
    ensures AllInTimeOrder(read.clock, read.inputs) ==> InTimeOrder(read.clock, written)
  {
    hide VSBIOReadMultiple.Valid, Interleaves, FromEachAPrefix, InTimeOrder, AllInTimeOrder;
    if r == Success {
      source := WrittenSoFar(read, written, message);
    } else {
      source := AllWritten(read);
    }
  }

  /** Leaving a handed-out message unwritten leaves a prefix of each input and keeps the order. */
  lemma WrittenSoFar(read: VSBIOReadMultiple, written: seq<Msg>, message: Msg) returns (source: seq<nat>)
    requires read.Valid() && read.output == written + [message]
    ensures FromEachAPrefix(read.inputs, written, source)
    ensures AllInTimeOrder(read.clock, read.inputs) ==> InTimeOrder(read.clock, written)
  {
    hide From, AllInTimeOrder, HeldNotEarlier, EachFit, Reading, AllOf, Earliest;
    var n, inputs := |written|, read.inputs;
    source := read.source[..n];
    assert read.source == source + [read.source[n]];
    forall k | 0 <= k < |inputs|
      ensures From(written, source, k) <= inputs[k]
    {
      assert Accounted(inputs[k], read.next[k], read.latestTimestamp, k, From(read.output, read.source, k));
      FromSnoc(written, source, message, read.source[n], k);
    }
    assert forall i | 0 <= i < n :: read.output[i] == written[i];
  }

  /** With no message held, everything has been handed out. */
  lemma AllWritten(read: VSBIOReadMultiple) returns (source: seq<nat>)
    requires read.Valid() && read.latestTimestamp == map[]
    ensures Interleaves(read.inputs, read.output, source) && FromEachAPrefix(read.inputs, read.output, source)
    ensures AllInTimeOrder(read.clock, read.inputs) ==> InTimeOrder(read.clock, read.output)
  {
    hide From, InTimeOrder, AllInTimeOrder, HeldNotEarlier, EachFit, Reading, AllOf, Earliest;
    var inputs := read.inputs;
    source := read.source;
    forall k | 0 <= k < |inputs|
      ensures From(read.output, source, k) == inputs[k]
    {
      assert Accounted(inputs[k], read.next[k], read.latestTimestamp, k, From(read.output, source, k));
    }
  }
}
