/** The sorted message cache that writes rows in halves, and the table it produces. */
module RowCache {
  import opened Bytes
  import opened VsbStruct
  import opened TimeDecoder
  import opened KeyedSort
  import opened RowCodec

  type Table = map<PrimaryKey, Row>

  datatype Entry = Entry(key: PrimaryKey, row: Row)

  ghost predicate AllStorable(s: seq<Keyed>)
  {
    forall i | 0 <= i < |s| :: Storable(s[i].bytes)
  }

  function EntryOf(x: Keyed): Entry
    requires Storable(x.bytes)
  {
    Entry(KeyOf(x.key, Unpack(x.bytes)), RowOf(Unpack(x.bytes), Payload(x.bytes)))
  }

  ghost function Entries(s: seq<Keyed>): (r: seq<Entry>)
    requires AllStorable(s)
    ensures |r| == |s|
  {
    if s == [] then [] else Entries(s[..|s| - 1]) + [EntryOf(s[|s| - 1])]
  }

  lemma {:induction false} EntriesConcat(a: seq<Keyed>, b: seq<Keyed>)
    requires AllStorable(a) && AllStorable(b)
    ensures AllStorable(a + b) && Entries(a + b) == Entries(a) + Entries(b)
  {
    hide EntryOf;
    if b == [] {
      assert a + b == a;
    } else {
      assert (a + b)[..|a + b| - 1] == a + b[..|b| - 1];
      EntriesConcat(a, b[..|b| - 1]);
    }
  }

  lemma EntriesSplit(s: seq<Keyed>, n: nat)
    requires n <= |s| && AllStorable(s)
    ensures AllStorable(s[..n]) && AllStorable(s[n..])
    ensures Entries(s)[..n] == Entries(s[..n]) && Entries(s)[n..] == Entries(s[n..])
  {
    hide EntryOf;
    EntriesConcat(s[..n], s[n..]);
    assert s == s[..n] + s[n..];
  }

  lemma {:induction false} EntriesAt(s: seq<Keyed>, i: nat)
    requires i < |s| && AllStorable(s)
    ensures Entries(s)[i] == EntryOf(s[i])
  {
    if i < |s| - 1 {
      EntriesAt(s[..|s| - 1], i);
    }
  }

  /** INSERT OR IGNORE: an existing row stays. */
  function InsertRow(t: Table, e: Entry): Table
  {
    if e.key in t then t else t[e.key := e.row]
  }

  ghost function InsertAll(t: Table, s: seq<Entry>): Table
  {
    if s == [] then t else InsertRow(InsertAll(t, s[..|s| - 1]), s[|s| - 1])
  }

  class VSBInfo {
    const clock: DoubleClock
    const cacheLimit: nat
    var messageCache: seq<Keyed>  // the multimap, in key order
    var table: Table
    ghost const start: Table
    ghost var arrivals: seq<Keyed>

    /** Writing out the cache now would give the table of all arrivals. */
    ghost predicate Valid()
      reads this
    {
      && |messageCache| < cacheLimit
      && Sorted(messageCache) && AllStorable(messageCache) && AllStorable(arrivals)
      && InsertAll(table, Entries(messageCache)) == InsertAll(start, Entries(arrivals))
    }

    constructor (clock: DoubleClock, limit: nat, t: Table)
      requires limit > 0
      ensures Valid() && start == t && arrivals == [] && table == t && messageCache == []
      ensures this.clock == clock && cacheLimit == limit
    {
      this.clock, cacheLimit := clock, limit;
      messageCache, table := [], t;
      start, arrivals := t, [];
    }

    /** A partial flush saves one row more than it erases. */
    method FlushCache(numToFlush: nat)
      requires AllStorable(messageCache)
      modifies `messageCache, `table
      ensures AllStorable(messageCache)
      ensures numToFlush == 0 ==> table == InsertAll(old(table), Entries(old(messageCache))) && messageCache == []
      ensures 0 < numToFlush < old(|messageCache|) ==>
        && table == InsertAll(old(table), Entries(old(messageCache))[..numToFlush + 1])
        && messageCache == old(messageCache)[numToFlush..]
      ensures numToFlush > 0 && numToFlush >= old(|messageCache|) ==>
        table == InsertAll(old(table), Entries(old(messageCache))) && messageCache == old(messageCache)
    {
      hide EntryOf;
      ghost var t0, es := table, Entries(messageCache);
      var curIndex := 0;
      while curIndex < |messageCache|
        invariant 0 <= curIndex <= |messageCache|
        invariant messageCache == old(messageCache)
        invariant numToFlush > 0 ==> curIndex <= numToFlush
        invariant table == InsertAll(t0, es[..curIndex])
      {
        InsertAllStep(t0, es, curIndex);
        EntriesAt(messageCache, curIndex);
        table := InsertRow(table, EntryOf(messageCache[curIndex]));
        if numToFlush > 0 && curIndex >= numToFlush {
          messageCache := messageCache[curIndex..];
          return;
        }
        curIndex := curIndex + 1;
      }
      assert es[..|messageCache|] == es;
      if numToFlush == 0 {
        messageCache := [];
      }
    }

    method ProcessMessage(data: seq<byte>)
      requires Valid() && Storable(data)
      modifies this
      ensures Valid()
      ensures arrivals == old(arrivals) + [Keyed(CalcEpoch64(Unpack(data), clock), data)]
    {
      hide EntryOf, CalcEpoch64;
      var x := Keyed(CalcEpoch64(Unpack(data), clock), data);
      ghost var c0, t0 := messageCache, table;
      messageCache := Insert(messageCache, x);
      arrivals := arrivals + [x];
      CacheInsert(t0, c0, start, old(arrivals), x);
      if |messageCache| >= cacheLimit {
        HalfFlush();
      }
    }

    /** Flushing half of the cache changes nothing about the final table. */
    method HalfFlush()
      requires Sorted(messageCache) && AllStorable(messageCache) && messageCache != []
      modifies `messageCache, `table
      ensures Sorted(messageCache) && AllStorable(messageCache) && |messageCache| < old(|messageCache|)
      ensures InsertAll(table, Entries(messageCache)) == old(InsertAll(table, Entries(messageCache)))
    {
      var n := |messageCache| / 2;
      ghost var c, t := messageCache, table;
      FlushCache(n);
      if n > 0 {
        FlushKeepsOutcome(t, c, n);
      }
    }

    /** After the last flush the table is as if every message had been inserted when it arrived. */
    method UpdateTable()
      requires Valid()
      modifies this
      ensures Valid() && messageCache == [] && arrivals == old(arrivals)
      ensures table == InsertAll(start, Entries(arrivals))
    {
      FlushCache(0);
    }
  }

  lemma InsertAllStep(t: Table, s: seq<Entry>, n: nat)
    requires n < |s|
    ensures InsertAll(t, s[..n + 1]) == InsertRow(InsertAll(t, s[..n]), s[n])
  {
    assert s[..n + 1][..n] == s[..n];
  }

  lemma {:induction false} InsertAllConcat(t: Table, a: seq<Entry>, b: seq<Entry>)
    ensures InsertAll(t, a + b) == InsertAll(InsertAll(t, a), b)
  {
    if b == [] {
      assert a + b == a;
    } else {
      assert (a + b)[..|a + b| - 1] == a + b[..|b| - 1];
      InsertAllConcat(t, a, b[..|b| - 1]);
    }
  }

  lemma InsertAllSnoc(t: Table, a: seq<Entry>, e: Entry)
    ensures InsertAll(t, a + [e]) == InsertRow(InsertAll(t, a), e)
  {
    assert (a + [e])[..|a|] == a;
  }

  /** Rows with different primary keys may be inserted in either order. */
  lemma {:induction false} InsertCommutes(t: Table, e: Entry, s: seq<Entry>)
    requires forall i | 0 <= i < |s| :: s[i].key != e.key
    ensures InsertAll(InsertRow(t, e), s) == InsertRow(InsertAll(t, s), e)
  {
    if s != [] {
      InsertCommutes(t, e, s[..|s| - 1]);
    }
  }

  lemma InsertInMiddle(t: Table, lo: seq<Entry>, e: Entry, hi: seq<Entry>)
    requires forall i | 0 <= i < |hi| :: hi[i].key != e.key
    ensures InsertAll(t, lo + [e] + hi) == InsertRow(InsertAll(t, lo + hi), e)
  {
    InsertAllConcat(t, lo + [e], hi);
    InsertAllSnoc(t, lo, e);
    InsertAllConcat(t, lo, hi);
    InsertCommutes(InsertAll(t, lo), e, hi);
  }

  lemma EntriesOfInsert(c: seq<Keyed>, x: Keyed)
    requires AllStorable(c) && Storable(x.bytes)
    ensures AllStorable(Insert(c, x))
    ensures var u := UpperBound(c, x.key);
      Entries(Insert(c, x)) == Entries(c)[..u] + [EntryOf(x)] + Entries(c)[u..]
  {
    var u := UpperBound(c, x.key);
    EntriesSplit(c, u);
    EntriesOfSnoc(c[..u], x);
    EntriesConcat(c[..u] + [x], c[u..]);
  }

  /** Equal primary keys mean equal times, and among equal times the cache keeps the order of arrival. */
  lemma {:induction false} CacheInsert(t: Table, c: seq<Keyed>, start: Table, arrivals: seq<Keyed>, x: Keyed)
    requires Sorted(c) && AllStorable(c) && AllStorable(arrivals) && Storable(x.bytes)
    requires InsertAll(t, Entries(c)) == InsertAll(start, Entries(arrivals))
    ensures Sorted(Insert(c, x)) && AllStorable(Insert(c, x)) && AllStorable(arrivals + [x])
    ensures InsertAll(t, Entries(Insert(c, x))) == InsertAll(start, Entries(arrivals + [x]))
  {
    InsertSorted(c, x);
    EntriesOfInsert(c, x);
    EntriesOfSnoc(arrivals, x);
    LaterKeysDiffer(c, x);
    InsertEitherPlace(t, Entries(c), start, Entries(arrivals), EntryOf(x), UpperBound(c, x.key));
  }

  lemma EntriesOfSnoc(s: seq<Keyed>, x: Keyed)
    requires AllStorable(s) && Storable(x.bytes)
    ensures AllStorable(s + [x]) && Entries(s + [x]) == Entries(s) + [EntryOf(x)]
  {
    assert (s + [x])[..|s|] == s;
  }

  lemma InsertEitherPlace(t: Table, c: seq<Entry>, start: Table, arrivals: seq<Entry>, e: Entry, u: nat)
    requires u <= |c| && forall i | u <= i < |c| :: c[i].key != e.key
    requires InsertAll(t, c) == InsertAll(start, arrivals)
    ensures InsertAll(t, c[..u] + [e] + c[u..]) == InsertAll(start, arrivals + [e])
  {
    assert c == c[..u] + c[u..];
    InsertInMiddle(t, c[..u], e, c[u..]);
    InsertAllSnoc(start, arrivals, e);
  }

  /** The time of a row tells the sort key. */
  lemma EntryTime(x: Keyed)
    requires Storable(x.bytes)
    ensures AsUint64(EntryOf(x).key.time) == x.key
  {
    SignedRoundTrip(x.key);
  }

  lemma LaterKeysDiffer(c: seq<Keyed>, x: Keyed)
    requires Sorted(c) && AllStorable(c) && Storable(x.bytes)
    ensures forall i | UpperBound(c, x.key) <= i < |c| :: Entries(c)[i].key != EntryOf(x).key
  {
    hide EntryOf, Entries, AsInt64;
    var u := UpperBound(c, x.key);
    forall i | u <= i < |c|
      ensures Entries(c)[i].key != EntryOf(x).key
    {
      EntriesAt(c, i);
      assert c[u].key <= c[i].key;
      EntryTime(c[i]);
      EntryTime(x);
    }
  }

  /** The row at the border is saved by two flushes; the second time it is ignored. */
  lemma SavingTwice(t: Table, s: seq<Entry>, n: nat)
    requires n < |s|
    ensures InsertAll(InsertAll(t, s[..n + 1]), s[n..]) == InsertAll(t, s)
  {
    var t1 := InsertAll(t, s[..n + 1]);
    InsertAllStep(t, s, n);
    assert s[n..] == [s[n]] + s[n + 1..] && s == s[..n + 1] + s[n + 1..];
    InsertAllConcat(t1, [s[n]], s[n + 1..]);
    InsertAllSnoc(t1, [], s[n]);
    assert [] + [s[n]] == [s[n]];
    InsertAllConcat(t, s[..n + 1], s[n + 1..]);
  }

  lemma {:induction false} FlushKeepsOutcome(t: Table, c: seq<Keyed>, n: nat)
    requires n < |c| && Sorted(c) && AllStorable(c)
    ensures Sorted(c[n..]) && AllStorable(c[n..])
    ensures InsertAll(InsertAll(t, Entries(c)[..n + 1]), Entries(c[n..])) == InsertAll(t, Entries(c))
  {
    SavingTwice(t, Entries(c), n);
    EntriesSplit(c, n);
  }

  /** First arrival with a primary key, if any. */
  ghost predicate FirstWithKey(s: seq<Entry>, k: PrimaryKey, i: nat)
  {
    i < |s| && s[i].key == k && forall j | 0 <= j < i :: s[j].key != k
  }

  /** What inserting in order of arrival means: rows that were there stay ... */
  lemma {:induction false} StartingRowStays(t: Table, s: seq<Entry>, k: PrimaryKey)
    requires k in t
    ensures k in InsertAll(t, s) && InsertAll(t, s)[k] == t[k]
  {
    if s != [] {
      StartingRowStays(t, s[..|s| - 1], k);
    }
  }

  lemma {:induction false} AbsentKeyStaysAbsent(t: Table, s: seq<Entry>, k: PrimaryKey)
    requires k !in t && forall i | 0 <= i < |s| :: s[i].key != k
    ensures k !in InsertAll(t, s)
  {
    if s != [] {
      AbsentKeyStaysAbsent(t, s[..|s| - 1], k);
    }
  }

  /** ... and for a new key the first arrival wins. */
  lemma FirstArrivalWins(t: Table, s: seq<Entry>, k: PrimaryKey, i: nat)
    requires k !in t && FirstWithKey(s, k, i)
    ensures k in InsertAll(t, s) && InsertAll(t, s)[k] == s[i].row
  {
    AbsentKeyStaysAbsent(t, s[..i], k);
    InsertAllStep(t, s, i);
    assert s == s[..i + 1] + s[i + 1..];
    InsertAllConcat(t, s[..i + 1], s[i + 1..]);
    StartingRowStays(InsertAll(t, s[..i + 1]), s[i + 1..], k);
  }
}
