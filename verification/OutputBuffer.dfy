/**
  * The bounded, half-flushing output buffer of the unwrapper, and how its output compares with
  * a stable sort of the whole stream.
  */
module OutputBuffer {
  import opened Bytes
  import opened VsbStruct
  import opened TimeDecoder
  import opened KeyedSort
  import opened VsbWriter

  /** The unwrapper has a capacity of 131072 messages and flushes half of that; any other two sizes do as well. */
  datatype Config = Config(capacity: nat, flushSize: nat, sorting: bool) {
    predicate Valid() {
      0 < flushSize <= capacity
    }
  }

  /** Messages handed to the writer so far, and messages still held. */
  datatype Pending = Pending(emitted: seq<Keyed>, buffer: seq<Keyed>)

  function KeyOf(bytes: seq<byte>): uint64
  {
    if |bytes| >= STRUCT_SIZE then TimeKey(Unpack(bytes)) else 0
  }

  function Payloads(s: seq<Keyed>): (r: seq<seq<byte>>)
    ensures |r| == |s|
  {
    seq(|s|, i requires 0 <= i < |s| => s[i].bytes)
  }

  function Arrival(bytes: seq<byte>): Keyed
  {
    Keyed(KeyOf(bytes), bytes)
  }

  function Ordered(c: Config, s: seq<Keyed>): (r: seq<Keyed>)
    ensures |r| == |s|
  {
    if c.sorting then StableSort(s) else s
  }

  lemma NothingOrdered(c: Config)
    ensures Ordered(c, []) == []
  {
  }

  function Flushed(c: Config, p: Pending, n: nat): Pending
    requires n <= |p.buffer|
  {
    var b := Ordered(c, p.buffer);
    Pending(p.emitted + b[..n], b[n..])
  }

  function Pushed(c: Config, p: Pending, x: Keyed): Pending
    requires c.Valid()
  {
    var q := Pending(p.emitted, p.buffer + [x]);
    if |q.buffer| >= c.capacity then Flushed(c, q, c.flushSize) else q
  }

  function Run(c: Config, xs: seq<Keyed>): Pending
    requires c.Valid()
  {
    if xs == [] then Pending([], []) else Pushed(c, Run(c, xs[..|xs| - 1]), xs[|xs| - 1])
  }

  /** Everything written once the last flush is done. */
  function Output(c: Config, xs: seq<Keyed>): seq<Keyed>
    requires c.Valid()
  {
    var p := Run(c, xs);
    Flushed(c, p, |p.buffer|).emitted
  }

  class SortingWriter {
    const config: Config
    const writer: VSBIOWrite
    var outBuffer: seq<Keyed>
    ghost var emitted: seq<Keyed>
    ghost var arrivals: seq<Keyed>

    ghost predicate Valid()
      reads this, writer
    {
      && config.Valid()
      && writer.Valid() && writer.written == Payloads(emitted)
      && Pending(emitted, outBuffer) == Run(config, arrivals)
    }

    constructor (c: Config, w: VSBIOWrite)
      requires c.Valid() && w.Valid() && w.written == []
      ensures Valid() && config == c && writer == w && arrivals == []
    {
      config, writer := c, w;
      outBuffer, emitted, arrivals := [], [], [];
    }

    method FlushBuffer(flushAll: bool)
      requires config.Valid() && writer.Valid() && writer.written == Payloads(emitted)
      requires flushAll || |outBuffer| >= config.flushSize
      modifies `outBuffer, `emitted, writer
      ensures writer.Valid() && writer.written == Payloads(emitted)
      ensures Pending(emitted, outBuffer)
           == Flushed(config, old(Pending(emitted, outBuffer)), if flushAll then old(|outBuffer|) else config.flushSize)
    {
      hide StableSort, FileOf;
      if |outBuffer| == 0 {
        NothingOrdered(config);
        assert Ordered(config, outBuffer) == [];
        return;
      }
      if config.sorting {
        outBuffer := StableSort(outBuffer);
      }
      var toWrite := if flushAll then |outBuffer| else config.flushSize;
      for i := 0 to toWrite
        invariant outBuffer == Ordered(config, old(outBuffer))
        invariant emitted == old(emitted) + outBuffer[..i]
        invariant writer.Valid() && writer.written == Payloads(emitted)
      {
        writer.WriteMessage(outBuffer[i].bytes);
        emitted := emitted + [outBuffer[i]];
      }
      outBuffer := outBuffer[toWrite..];
    }

    method PushMessage(bytes: seq<byte>)
      requires Valid()
      modifies this, writer
      ensures Valid() && arrivals == old(arrivals) + [Arrival(bytes)]
    {
      var key: uint64 := 0;
      if |bytes| >= STRUCT_SIZE {
        key := TimeKey(Unpack(bytes));
      }
      outBuffer := outBuffer + [Keyed(key, bytes)];
      arrivals := arrivals + [Keyed(key, bytes)];
      assert arrivals[..|arrivals| - 1] == old(arrivals);
      if |outBuffer| >= config.capacity {
        FlushBuffer(false);
      }
    }

    /** The last flush: the writer has received the whole output. */
    method Finish()
      requires Valid()
      modifies this, writer
      ensures writer.Valid() && writer.written == Payloads(Output(config, old(arrivals)))
      ensures outBuffer == [] && arrivals == old(arrivals)
    {
      FlushBuffer(true);
    }
  }

  lemma FlushConserves(c: Config, p: Pending, n: nat)
    requires n <= |p.buffer|
    ensures var q := Flushed(c, p, n);
      multiset(q.emitted) + multiset(q.buffer) == multiset(p.emitted) + multiset(p.buffer)
  {
    SortIsPermutation(p.buffer);
    var b := Ordered(c, p.buffer);
    assert b == b[..n] + b[n..];
  }

  /** Nothing is lost or duplicated, and the buffer stays below its capacity between messages. */
  lemma {:induction false} RunConserves(c: Config, xs: seq<Keyed>)
    requires c.Valid()
    ensures multiset(Run(c, xs).emitted) + multiset(Run(c, xs).buffer) == multiset(xs)
    ensures |Run(c, xs).emitted| + |Run(c, xs).buffer| == |xs|
    ensures |Run(c, xs).buffer| < c.capacity
  {
    if xs != [] {
      var p, x := xs[..|xs| - 1], xs[|xs| - 1];
      RunConserves(c, p);
      assert xs == p + [x];
      var q := Pending(Run(c, p).emitted, Run(c, p).buffer + [x]);
      if |q.buffer| >= c.capacity {
        FlushConserves(c, q, c.flushSize);
      }
    }
  }

  lemma {:induction false} OutputIsPermutation(c: Config, xs: seq<Keyed>)
    requires c.Valid()
    ensures multiset(Output(c, xs)) == multiset(xs)
  {
    RunConserves(c, xs);
    FlushConserves(c, Run(c, xs), |Run(c, xs).buffer|);
  }

  /** Without sorting the output is the input. */
  lemma {:induction false} UnsortedIsIdentity(c: Config, xs: seq<Keyed>)
    requires c.Valid() && !c.sorting
    ensures Run(c, xs).emitted + Run(c, xs).buffer == xs
    ensures Output(c, xs) == xs
  {
    if xs != [] {
      var p, x := xs[..|xs| - 1], xs[|xs| - 1];
      UnsortedIsIdentity(c, p);
      UnsortedPush(c, Run(c, p), x);
    }
    var q := Run(c, xs);
    assert q.buffer[..|q.buffer|] == q.buffer;
  }

  lemma UnsortedPush(c: Config, p: Pending, x: Keyed)
    requires c.Valid() && !c.sorting
    ensures var q := Pushed(c, p, x); q.emitted + q.buffer == p.emitted + p.buffer + [x]
  {
    var b := p.buffer + [x];
    if |b| >= c.capacity {
      assert b == b[..c.flushSize] + b[c.flushSize..];
    }
  }

  /** What has been written stays written. */
  lemma {:induction false} EmittedGrows(c: Config, xs: seq<Keyed>, n: nat)
    requires c.Valid() && n <= |xs|
    ensures Run(c, xs[..n]).emitted <= Run(c, xs).emitted
  {
    if n == |xs| {
      assert xs[..n] == xs;
    } else {
      EmittedGrows(c, xs[..|xs| - 1], n);
      assert xs[..|xs| - 1][..n] == xs[..n];
    }
  }

  ghost predicate AllAtMost(s: seq<Keyed>, k: uint64)
  {
    forall i | 0 <= i < |s| :: s[i].key <= k
  }

  /** Message n arrives before any message with a greater key has been written. */
  ghost predicate InTime(c: Config, xs: seq<Keyed>, n: nat)
    requires c.Valid() && n < |xs|
  {
    AllAtMost(Run(c, xs[..n]).emitted, xs[n].key)
  }

  ghost predicate AllInTime(c: Config, xs: seq<Keyed>)
    requires c.Valid()
  {
    forall n | 0 <= n < |xs| :: InTime(c, xs, n)
  }

  lemma AllInTimePrefix(c: Config, xs: seq<Keyed>, m: nat)
    requires c.Valid() && m <= |xs| && AllInTime(c, xs)
    ensures AllInTime(c, xs[..m])
  {
    forall n | 0 <= n < m
      ensures InTime(c, xs[..m], n)
    {
      assert InTime(c, xs, n) && xs[..m][..n] == xs[..n];
    }
  }

  lemma {:induction false} UpperBoundAfter(s: seq<Keyed>, t: seq<Keyed>, k: uint64)
    requires AllAtMost(s, k)
    ensures UpperBound(s + t, k) == |s| + UpperBound(t, k)
  {
    if s == [] {
      assert s + t == t;
    } else {
      assert (s + t)[1..] == s[1..] + t;
      UpperBoundAfter(s[1..], t, k);
    }
  }

  lemma InsertAfter(s: seq<Keyed>, t: seq<Keyed>, x: Keyed)
    requires AllAtMost(s, x.key)
    ensures Insert(s + t, x) == s + Insert(t, x)
  {
    var u := UpperBound(t, x.key);
    UpperBoundAfter(s, t, x.key);
    SpliceAfter(s, t, x, u);
  }

  lemma SpliceAfter<T>(s: seq<T>, t: seq<T>, x: T, u: nat)
    requires u <= |t|
    ensures (s + t)[..|s| + u] + [x] + (s + t)[|s| + u..] == s + (t[..u] + [x] + t[u..])
  {
  }

  lemma SortedSuffix(s: seq<Keyed>, n: nat)
    requires Sorted(s) && n <= |s|
    ensures Sorted(s[n..])
  {
  }

  /** A sorted flush only moves the border between written and held messages. */
  lemma FlushMovesBorder(c: Config, p: Pending, n: nat)
    requires c.sorting && n <= |p.buffer|
    ensures var q := Flushed(c, p, n);
      q.emitted + StableSort(q.buffer) == p.emitted + StableSort(p.buffer)
  {
    hide StableSort, Sorted;
    var b := StableSort(p.buffer);
    SortIsSorted(p.buffer);
    SortedSuffix(b, n);
    SortOfSorted(b[n..]);
    assert p.emitted + b == p.emitted + b[..n] + b[n..];
  }

  lemma InTimePush(c: Config, p: Pending, x: Keyed)
    requires c.Valid() && c.sorting && AllAtMost(p.emitted, x.key)
    ensures var q := Pushed(c, p, x);
      q.emitted + StableSort(q.buffer) == Insert(p.emitted + StableSort(p.buffer), x)
  {
    InsertAfter(p.emitted, StableSort(p.buffer), x);
    SortSnoc(p.buffer, x);
    var q := Pending(p.emitted, p.buffer + [x]);
    if |q.buffer| >= c.capacity {
      FlushMovesBorder(c, q, c.flushSize);
    }
  }

  /** As long as every message is in time, written and held messages together are the sorted stream. */
  lemma {:induction false} InTimeRun(c: Config, xs: seq<Keyed>)
    requires c.Valid() && c.sorting && AllInTime(c, xs)
    ensures Run(c, xs).emitted + StableSort(Run(c, xs).buffer) == StableSort(xs)
  {
    if xs == [] {
      assert Run(c, xs).emitted + StableSort(Run(c, xs).buffer) == [];
    } else {
      var p, x := xs[..|xs| - 1], xs[|xs| - 1];
      AllInTimePrefix(c, xs, |p|);
      InTimeRun(c, p);
      assert InTime(c, xs, |p|);
      InTimePush(c, Run(c, p), x);
    }
  }

  lemma InTimeOutput(c: Config, xs: seq<Keyed>)
    requires c.Valid() && c.sorting && AllInTime(c, xs)
    ensures Output(c, xs) == StableSort(xs)
  {
    var p := Run(c, xs);
    InTimeRun(c, xs);
    FlushMovesBorder(c, p, |p.buffer|);
    var q := Flushed(c, p, |p.buffer|);
    assert q.buffer == [] && q.emitted + [] == q.emitted;
  }

  lemma InSuffix<T>(out: seq<T>, e: seq<T>, held: multiset<T>, xs: seq<T>, n: nat)
    requires n < |xs| && e <= out
    requires multiset(out) == multiset(xs)
    requires multiset(e) + held == multiset(xs[..n])
    ensures exists j :: |e| <= j < |out| && out[j] == xs[n]
  {
    var x := xs[n];
    assert xs == xs[..n] + [x] + xs[n + 1..];
    assert out == e + out[|e|..];
    assert multiset(xs)[x] == multiset(xs[..n])[x] + 1 + multiset(xs[n + 1..])[x];
    assert multiset(out)[x] == multiset(e)[x] + multiset(out[|e|..])[x];
    assert multiset(xs[..n])[x] == multiset(e)[x] + held[x];
    assert x in multiset(out[|e|..]);
    var j :| 0 <= j < |out| - |e| && out[|e|..][j] == xs[n];
    assert out[|e| + j] == xs[n];
  }

  lemma EmittedIsPrefixOfOutput(c: Config, xs: seq<Keyed>, n: nat)
    requires c.Valid() && n <= |xs|
    ensures Run(c, xs[..n]).emitted <= Output(c, xs)
  {
    EmittedGrows(c, xs, n);
  }

  /** A message that comes too late ends up behind a greater key. */
  lemma LateSpoilsOutput(c: Config, xs: seq<Keyed>, n: nat)
    requires c.Valid() && n < |xs| && !InTime(c, xs, n)
    ensures !Sorted(Output(c, xs))
  {
    var out, p := Output(c, xs), Run(c, xs[..n]);
    var i :| 0 <= i < |p.emitted| && p.emitted[i].key > xs[n].key;
    EmittedIsPrefixOfOutput(c, xs, n);
    OutputIsPermutation(c, xs);
    RunConserves(c, xs[..n]);
    InSuffix(out, p.emitted, multiset(p.buffer), xs, n);
    var j :| |p.emitted| <= j < |out| && out[j] == xs[n];
    assert out[i] == p.emitted[i];
  }

  /** The output is the stable sort exactly when no message comes after a greater key was written. */
  lemma {:induction false} SortedOutputIffInTime(c: Config, xs: seq<Keyed>)
    requires c.Valid() && c.sorting
    ensures Output(c, xs) == StableSort(xs) <==> AllInTime(c, xs)
  {
    if AllInTime(c, xs) {
      InTimeOutput(c, xs);
    } else {
      var n :| 0 <= n < |xs| && !InTime(c, xs, n);
      LateSpoilsOutput(c, xs, n);
      SortIsSorted(xs);
    }
  }

  /** Number of arrivals after which the message of sorted place r has been written. */
  function Deadline(c: Config, r: nat): nat
    requires c.Valid()
  {
    c.capacity + c.flushSize * (r / c.flushSize)
  }

  /** Every message arrives before the flush that writes its place in the sorted stream. */
  ghost predicate Prompt(c: Config, xs: seq<Keyed>)
    requires c.Valid()
  {
    forall i | 0 <= i < |xs| :: i < Deadline(c, Rank(xs, i))
  }

  /** The written part grows by whole flushes. */
  lemma {:induction false} EmittedSize(c: Config, xs: seq<Keyed>) returns (k: nat)
    requires c.Valid()
    ensures |Run(c, xs).emitted| == k * c.flushSize
    ensures |Run(c, xs).emitted| + |Run(c, xs).buffer| == |xs|
    ensures |Run(c, xs).buffer| < c.capacity
    ensures k > 0 ==> |Run(c, xs).buffer| >= c.capacity - c.flushSize
  {
    if xs == [] {
      k := 0;
    } else {
      k := EmittedSize(c, xs[..|xs| - 1]);
      if |Run(c, xs[..|xs| - 1]).buffer| + 1 >= c.capacity {
        k := k + 1;
      }
    }
  }

  lemma DivAtLeast(r: nat, f: nat, k: nat)
    requires f > 0
    ensures r / f >= k <==> r >= k * f
  {
    var q := r / f;
    assert r == q * f + r % f;
    if q >= k {
      assert q * f >= k * f;
    } else {
      assert (q + 1) * f <= k * f;
      assert (q + 1) * f == q * f + f;
    }
  }

  lemma MulMonotone(a: nat, b: nat, f: nat)
    requires a <= b
    ensures f * a <= f * b
  {
  }

  /** After k flushes, with a buffer that is neither full nor less than flushed, arrival i is next. */
  lemma DeadlineInFlushes(c: Config, i: nat, r: nat, k: nat)
    requires c.Valid() && k * c.flushSize <= i < k * c.flushSize + c.capacity
    requires k > 0 ==> i - k * c.flushSize >= c.capacity - c.flushSize
    ensures i < Deadline(c, r) <==> r / c.flushSize >= k
  {
    var f, q := c.flushSize, r / c.flushSize;
    if q >= k {
      MulMonotone(k, q, f);
    } else {
      MulMonotone(q, k - 1, f);
      assert f * (k - 1) == k * f - f;
    }
  }

  /** An arrival meets its deadline exactly when its place has not been written yet. */
  lemma DeadlineIsUnwritten(c: Config, xs: seq<Keyed>, i: nat, r: nat)
    requires c.Valid() && i < |xs|
    ensures i < Deadline(c, r) <==> |Run(c, xs[..i]).emitted| <= r
  {
    hide Run, Deadline;
    var k := EmittedSize(c, xs[..i]);
    DivAtLeast(r, c.flushSize, k);
    DeadlineInFlushes(c, i, r, k);
  }

  lemma {:induction false} CountAtMostAll(s: seq<Keyed>, k: uint64)
    ensures AllAtMost(s, k) ==> CountAtMost(s, k) == |s|
    ensures CountAtMost(s, k) <= |s|
  {
    if s != [] {
      CountAtMostAll(s[..|s| - 1], k);
    }
  }

  /** A message that is in time goes behind everything written. */
  lemma InTimeMeetsDeadline(c: Config, xs: seq<Keyed>, i: nat)
    requires c.Valid() && c.sorting && i < |xs| && AllInTime(c, xs)
    ensures |Run(c, xs[..i]).emitted| <= Rank(xs, i)
  {
    var p, k := Run(c, xs[..i]), xs[i].key;
    AllInTimePrefix(c, xs, i);
    InTimeRun(c, xs[..i]);
    CountAtMostOfSort(xs[..i], k);
    CountAtMostConcat(p.emitted, StableSort(p.buffer), k);
    assert InTime(c, xs, i);
    CountAtMostAll(p.emitted, k);
  }

  lemma {:induction false} CountMonotone(s: seq<Keyed>, j: uint64, k: uint64)
    requires j <= k
    ensures CountAtMost(s, j) <= CountAtMost(s, k)
  {
    if s != [] {
      CountMonotone(s[..|s| - 1], j, k);
    }
  }

  lemma {:induction false} CountNone(s: seq<Keyed>, k: uint64)
    ensures (forall i | 0 <= i < |s| :: s[i].key > k) ==> CountAtMost(s, k) == 0
    ensures (forall i | 0 <= i < |s| :: s[i].key >= k) ==> CountBelow(s, k) == 0
  {
    if s != [] {
      CountNone(s[..|s| - 1], k);
    }
  }

  /** The first of the smallest keys. */
  lemma {:induction false} FirstMinimum(s: seq<Keyed>) returns (m: nat)
    requires s != []
    ensures m < |s|
    ensures forall i | 0 <= i < m :: s[m].key < s[i].key
    ensures forall i | m < i < |s| :: s[m].key <= s[i].key
  {
    if |s| == 1 {
      m := 0;
    } else {
      m := FirstMinimum(s[..|s| - 1]);
      if s[|s| - 1].key < s[m].key {
        m := |s| - 1;
      }
    }
  }

  /** If later messages push i back, one of them has a place among those that i found before itself. */
  lemma LaterMessageWithSmallPlace(xs: seq<Keyed>, i: nat) returns (y: nat)
    requires i < |xs| && CountBelow(xs[i + 1..], xs[i].key) > 0
    ensures i < y < |xs| && Rank(xs, y) <= CountAtMost(xs[..i], xs[i].key)
  {
    var tail := xs[i + 1..];
    var m := FirstMinimum(tail);
    y := i + 1 + m;
    var k := xs[y].key;
    assert k < xs[i].key by {
      if k >= xs[i].key {
        CountNone(tail, xs[i].key);
      }
    }
    forall j | i <= j < y
      ensures xs[j].key > k
    {
      if j > i {
        assert xs[j] == tail[j - i - 1];
      }
    }
    forall j | y < j < |xs|
      ensures xs[j].key >= k
    {
      assert xs[j] == tail[j - i - 1];
    }
    SmallPlace(xs, i, y);
    CountMonotone(xs[..i], k, xs[i].key);
  }

  lemma SmallPlace(xs: seq<Keyed>, i: nat, y: nat)
    requires i < y < |xs|
    requires forall j | i <= j < y :: xs[j].key > xs[y].key
    requires forall j | y < j < |xs| :: xs[j].key >= xs[y].key
    ensures Rank(xs, y) == CountAtMost(xs[..i], xs[y].key)
  {
    var k := xs[y].key;
    assert xs[..y] == xs[..i] + xs[i..y];
    CountAtMostConcat(xs[..i], xs[i..y], k);
    CountNone(xs[i..y], k);
    CountNone(xs[y + 1..], k);
  }

  /** If every message meets its deadline, each one finds only smaller or equal keys written. */
  lemma {:induction false} PromptIsInTime(c: Config, xs: seq<Keyed>, n: nat)
    requires c.Valid() && c.sorting && n <= |xs| && Prompt(c, xs)
    ensures AllInTime(c, xs[..n])
  {
    if n > 0 {
      PromptIsInTime(c, xs, n - 1);
      forall m | 0 <= m < n
        ensures InTime(c, xs[..n], m)
      {
        assert xs[..n][..m] == xs[..m] && xs[..n - 1][..m] == xs[..m];
        if m < n - 1 {
          assert InTime(c, xs[..n - 1], m);
        } else {
          PromptMessageInTime(c, xs, m);
        }
      }
    }
  }

  lemma PromptMessageInTime(c: Config, xs: seq<Keyed>, m: nat)
    requires c.Valid() && c.sorting && m < |xs| && Prompt(c, xs)
    requires AllInTime(c, xs[..m])
    ensures InTime(c, xs, m)
  {
    var e := Run(c, xs[..m]).emitted;
    assert m < Deadline(c, Rank(xs, m));
    DeadlineIsUnwritten(c, xs, m, Rank(xs, m));
    var p := CountAtMost(xs[..m], xs[m].key);
    assert |e| <= p by {
      if |e| > p {
        var y := LaterMessageWithSmallPlace(xs, m);
        assert y < Deadline(c, Rank(xs, y));
        DeadlineIsUnwritten(c, xs, y, Rank(xs, y));
        assert xs[..y][..m] == xs[..m];
        EmittedGrows(c, xs[..y], m);
      }
    }
    InTimeRun(c, xs[..m]);
    SortIsSorted(xs[..m]);
    CountAtMostOfSort(xs[..m], xs[m].key);
    CountAtMostSorted(StableSort(xs[..m]), xs[m].key);
    PrefixBelowUpperBound(StableSort(xs[..m]), e, xs[m].key);
  }

  lemma PrefixBelowUpperBound(s: seq<Keyed>, e: seq<Keyed>, k: uint64)
    requires e <= s && |e| <= UpperBound(s, k)
    ensures AllAtMost(e, k)
  {
    forall i | 0 <= i < |e|
      ensures e[i].key <= k
    {
      assert e[i] == s[i];
    }
  }

  /**
    * Bounded memory loses nothing exactly when every message is prompt: the output is the stable sort of
    * the whole stream if and only if message i arrives before index Deadline(place of i).
    */
  lemma {:induction false} BoundedSortIsFullSort(c: Config, xs: seq<Keyed>)
    requires c.Valid() && c.sorting
    ensures Output(c, xs) == StableSort(xs) <==> Prompt(c, xs)
  {
    SortedOutputIffInTime(c, xs);
    assert xs[..|xs|] == xs;
    if Prompt(c, xs) {
      PromptIsInTime(c, xs, |xs|);
    }
    if AllInTime(c, xs) {
      forall i | 0 <= i < |xs|
        ensures i < Deadline(c, Rank(xs, i))
      {
        InTimeMeetsDeadline(c, xs, i);
        DeadlineIsUnwritten(c, xs, i, Rank(xs, i));
      }
    }
  }

  lemma DeadlineSlack(c: Config, r: nat)
    requires c.Valid()
    ensures Deadline(c, r) > r + (c.capacity - c.flushSize)
  {
    assert r == c.flushSize * (r / c.flushSize) + r % c.flushSize;
  }

  /** In particular it is enough that no message comes more than capacity - flushSize positions late. */
  lemma {:induction false} LatenessBoundSuffices(c: Config, xs: seq<Keyed>)
    requires c.Valid() && c.sorting
    requires forall i | 0 <= i < |xs| :: i - Rank(xs, i) <= c.capacity - c.flushSize
    ensures Output(c, xs) == StableSort(xs)
  {
    forall i | 0 <= i < |xs|
      ensures i < Deadline(c, Rank(xs, i))
    {
      DeadlineSlack(c, Rank(xs, i));
    }
    BoundedSortIsFullSort(c, xs);
  }
}
