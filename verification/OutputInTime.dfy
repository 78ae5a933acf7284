/** The sorted output of the unwrapper, by the times of its messages. */
module OutputInTime {
  import opened Bytes
  import opened VsbStruct
  import opened TimeDecoder
  import opened KeyedSort
  import opened OutputBuffer
  import opened Unwrapper

  type Msgs = seq<seq<byte>>

  /** Messages with stamps of one kind, low words in range, that decode without overflow. */
  ghost predicate OneKind(msgs: Msgs, id: int)
  {
    forall i | 0 <= i < |msgs| :: Comparable(msgs[i], id)
  }

  predicate Comparable(b: seq<byte>, id: int)
  {
    |b| >= STRUCT_SIZE && var m := Unpack(b); SpyTimeType(m) == id && LowWordInRange(m) && NoOverflow(m)
  }

  function TimeOf(b: seq<byte>, clock: DoubleClock): uint64
    requires |b| >= STRUCT_SIZE
  {
    CalcEpoch64(Unpack(b), clock)
  }

  ghost predicate InOrderOfTime(msgs: Msgs, clock: DoubleClock)
    requires forall i | 0 <= i < |msgs| :: |msgs[i]| >= STRUCT_SIZE
  {
    forall i, j | 0 <= i < j < |msgs| :: TimeOf(msgs[i], clock) <= TimeOf(msgs[j], clock)
  }

  /** The messages of one time, in their order. */
  function AtTime(msgs: Msgs, t: int, clock: DoubleClock): Msgs
  {
    if msgs == [] then []
    else
      var m := msgs[|msgs| - 1];
      AtTime(msgs[..|msgs| - 1], t, clock)
        + if |m| >= STRUCT_SIZE && TimeOf(m, clock) == t then [m] else []
  }

  function CountNotLater(msgs: Msgs, t: int, clock: DoubleClock): nat
  {
    if msgs == [] then 0
    else
      var m := msgs[|msgs| - 1];
      CountNotLater(msgs[..|msgs| - 1], t, clock) + if |m| >= STRUCT_SIZE && TimeOf(m, clock) <= t then 1 else 0
  }

  function CountEarlier(msgs: Msgs, t: int, clock: DoubleClock): nat
  {
    if msgs == [] then 0
    else
      var m := msgs[|msgs| - 1];
      CountEarlier(msgs[..|msgs| - 1], t, clock) + if |m| >= STRUCT_SIZE && TimeOf(m, clock) < t then 1 else 0
  }

  /** Place of message i when all are put in order of time, equal times in order of arrival. */
  function PlaceInTime(msgs: Msgs, i: nat, clock: DoubleClock): nat
    requires i < |msgs| && |msgs[i]| >= STRUCT_SIZE
  {
    var t := TimeOf(msgs[i], clock);
    CountNotLater(msgs[..i], t, clock) + CountEarlier(msgs[i + 1..], t, clock)
  }

  /** Every message arrives before the half flush that writes its place in time. */
  ghost predicate ArrivesInTime(c: Config, msgs: Msgs, clock: DoubleClock)
    requires c.Valid() && forall i | 0 <= i < |msgs| :: |msgs[i]| >= STRUCT_SIZE
  {
    forall i | 0 <= i < |msgs| :: i < c.capacity + c.flushSize * (PlaceInTime(msgs, i, clock) / c.flushSize)
  }

  // ----- keys and times -----

  lemma KeyTellsTime(a: seq<byte>, b: seq<byte>, id: int, clock: DoubleClock)
    requires Comparable(a, id) && Comparable(b, id)
    ensures KeyOf(a) < KeyOf(b) <==> TimeOf(a, clock) < TimeOf(b, clock)
    ensures KeyOf(a) == KeyOf(b) <==> TimeOf(a, clock) == TimeOf(b, clock)
  {
    hide Unpack, TimeKey, CalcEpoch64, LowWordInRange, NoOverflow, SpyTimeType;
    KeyOrderIsEpochOrder(Unpack(a), Unpack(b), clock);
  }

  /** Each message with its own key, and all of them comparable. */
  ghost predicate Faithful(s: seq<Keyed>, id: int)
  {
    forall i | 0 <= i < |s| :: s[i].key == KeyOf(s[i].bytes) && Comparable(s[i].bytes, id)
  }

  lemma ComparableSize(b: seq<byte>, id: int)
    requires Comparable(b, id)
    ensures |b| >= STRUCT_SIZE
  {
  }

  lemma KindSizes(msgs: Msgs, id: int)
    requires OneKind(msgs, id)
    ensures forall i | 0 <= i < |msgs| :: |msgs[i]| >= STRUCT_SIZE
  {
    hide Unpack;
  }

  lemma PayloadsInit(s: seq<Keyed>)
    requires s != []
    ensures Payloads(s)[..|s| - 1] == Payloads(s[..|s| - 1]) && Payloads(s)[|s| - 1] == s[|s| - 1].bytes
  {
  }

  lemma PayloadsSnoc(s: seq<Keyed>, x: Keyed)
    ensures Payloads(s + [x]) == Payloads(s) + [x.bytes]
  {
  }

  lemma {:induction false} AtTimeIsWithKey(s: seq<Keyed>, b: seq<byte>, id: int, clock: DoubleClock)
    requires Faithful(s, id) && Comparable(b, id) && |b| >= STRUCT_SIZE
    ensures AtTime(Payloads(s), TimeOf(b, clock), clock) == Payloads(WithKey(s, KeyOf(b)))
  {
    hide Comparable, TimeOf, KeyOf, Payloads;
    if s == [] {
      NoPayloads();
    } else {
      var n := |s| - 1;
      var x := s[n];
      AtTimeIsWithKey(s[..n], b, id, clock);
      PayloadsInit(s);
      ComparableSize(x.bytes, id);
      KeyTellsTime(x.bytes, b, id, clock);
      PayloadsSnoc(WithKey(s[..n], KeyOf(b)), x);
      assert WithKey(s[..n], KeyOf(b)) + [] == WithKey(s[..n], KeyOf(b));
    }
  }

  lemma NoPayloads()
    ensures Payloads([]) == []
  {
  }

  lemma {:induction false} NoneAtTime(msgs: Msgs, t: int, clock: DoubleClock)
    requires forall i | 0 <= i < |msgs| :: |msgs[i]| >= STRUCT_SIZE && TimeOf(msgs[i], clock) != t
    ensures AtTime(msgs, t, clock) == []
  {
    hide TimeOf;
    if msgs != [] {
      NoneAtTime(msgs[..|msgs| - 1], t, clock);
    }
  }

  lemma {:induction false} SortedIsInOrder(s: seq<Keyed>, id: int, clock: DoubleClock)
    requires Faithful(s, id)
    ensures forall i | 0 <= i < |s| :: |Payloads(s)[i]| >= STRUCT_SIZE
    ensures Sorted(s) <==> InOrderOfTime(Payloads(s), clock)
  {
    hide Comparable, TimeOf, KeyOf;
    forall i | 0 <= i < |s|
      ensures Payloads(s)[i] == s[i].bytes && |s[i].bytes| >= STRUCT_SIZE
    {
      ComparableSize(s[i].bytes, id);
    }
    forall i, j | 0 <= i < |s| && 0 <= j < |s|
      ensures s[i].key <= s[j].key <==> TimeOf(s[i].bytes, clock) <= TimeOf(s[j].bytes, clock)
    {
      KeyTellsTime(s[j].bytes, s[i].bytes, id, clock);
    }
  }

  lemma {:induction false} SamePayloads(s: seq<Keyed>, t: seq<Keyed>, id: int)
    requires Faithful(s, id) && Faithful(t, id) && Payloads(s) == Payloads(t)
    ensures s == t
  {
    hide Comparable, KeyOf;
    assert |s| == |t|;
    forall i | 0 <= i < |s|
      ensures s[i] == t[i]
    {
      assert s[i].bytes == Payloads(s)[i] == Payloads(t)[i] == t[i].bytes;
    }
  }

  lemma {:induction false} WithKeyFaithful(s: seq<Keyed>, k: uint64, id: int)
    requires Faithful(s, id)
    ensures Faithful(WithKey(s, k), id)
  {
    hide Comparable, KeyOf;
    if s != [] {
      WithKeyFaithful(s[..|s| - 1], k, id);
    }
  }

  /** Messages of every time in the same order, and messages of every key in the same order, are the same thing. */
  ghost predicate SameAtEveryTime(a: Msgs, b: Msgs, clock: DoubleClock)
  {
    forall t: int :: AtTime(a, t, clock) == AtTime(b, t, clock)
  }

  lemma {:induction false} SameByKeyIsSameByTime(s: seq<Keyed>, t: seq<Keyed>, id: int, clock: DoubleClock)
    requires Faithful(s, id) && Faithful(t, id) && multiset(s) == multiset(t)
    ensures SameByKey(s, t) <==> SameAtEveryTime(Payloads(s), Payloads(t), clock)
  {
    hide Comparable, TimeOf, KeyOf, AtTime, WithKey, Payloads, Faithful;
    if SameByKey(s, t) {
      forall x: int
        ensures AtTime(Payloads(s), x, clock) == AtTime(Payloads(t), x, clock)
      {
        TimeFromKey(s, t, x, id, clock);
      }
    }
    if SameAtEveryTime(Payloads(s), Payloads(t), clock) {
      forall k: uint64
        ensures WithKey(s, k) == WithKey(t, k)
      {
        KeyFromTime(s, t, k, id, clock);
      }
    }
  }

  lemma TimeFromKey(s: seq<Keyed>, t: seq<Keyed>, x: int, id: int, clock: DoubleClock)
    requires Faithful(s, id) && Faithful(t, id) && multiset(s) == multiset(t) && SameByKey(s, t)
    ensures AtTime(Payloads(s), x, clock) == AtTime(Payloads(t), x, clock)
  {
    hide Comparable, TimeOf, KeyOf, AtTime, WithKey;
    FaithfulSizes(s, id);
    FaithfulSizes(t, id);
    if i :| 0 <= i < |s| && TimeOf(s[i].bytes, clock) == x {
      AtTimeIsWithKey(s, s[i].bytes, id, clock);
      AtTimeIsWithKey(t, s[i].bytes, id, clock);
    } else {
      forall j | 0 <= j < |t|
        ensures TimeOf(t[j].bytes, clock) != x
      {
        assert t[j] in multiset(t) && t[j] in multiset(s);
        var i :| 0 <= i < |s| && s[i] == t[j];
      }
      NoneAtTime(Payloads(s), x, clock);
      NoneAtTime(Payloads(t), x, clock);
    }
  }

  lemma FaithfulSizes(s: seq<Keyed>, id: int)
    requires Faithful(s, id)
    ensures forall i | 0 <= i < |s| :: |s[i].bytes| >= STRUCT_SIZE
  {
    hide Unpack, KeyOf;
  }

  lemma KeyFromTime(s: seq<Keyed>, t: seq<Keyed>, k: uint64, id: int, clock: DoubleClock)
    requires Faithful(s, id) && Faithful(t, id) && multiset(s) == multiset(t)
    requires SameAtEveryTime(Payloads(s), Payloads(t), clock)
    ensures WithKey(s, k) == WithKey(t, k)
  {
    hide Comparable, TimeOf, KeyOf, AtTime, WithKey;
    FaithfulSizes(s, id);
    if i :| 0 <= i < |s| && s[i].key == k {
      var b := s[i].bytes;
      AtTimeIsWithKey(s, b, id, clock);
      AtTimeIsWithKey(t, b, id, clock);
      WithKeyFaithful(s, k, id);
      WithKeyFaithful(t, k, id);
      SamePayloads(WithKey(s, k), WithKey(t, k), id);
    } else {
      forall j | 0 <= j < |t|
        ensures t[j].key != k
      {
        assert t[j] in multiset(t) && t[j] in multiset(s);
        var i :| 0 <= i < |s| && s[i] == t[j];
      }
      WithKeyNone(s, k);
      WithKeyNone(t, k);
    }
  }

  // ----- ranks and places -----

  lemma {:induction false} CountsByTime(s: seq<Keyed>, b: seq<byte>, id: int, clock: DoubleClock)
    requires Faithful(s, id) && Comparable(b, id) && |b| >= STRUCT_SIZE
    ensures CountAtMost(s, KeyOf(b)) == CountNotLater(Payloads(s), TimeOf(b, clock), clock)
    ensures CountBelow(s, KeyOf(b)) == CountEarlier(Payloads(s), TimeOf(b, clock), clock)
  {
    hide Comparable, TimeOf, KeyOf, Payloads;
    if s == [] {
      NoPayloads();
    } else {
      var n := |s| - 1;
      CountsByTime(s[..n], b, id, clock);
      PayloadsInit(s);
      ComparableSize(s[n].bytes, id);
      KeyTellsTime(s[n].bytes, b, id, clock);
    }
  }

  lemma ArrivalsFaithful(out: Msgs, id: int)
    requires OneKind(out, id)
    ensures Faithful(Arrivals(out), id) && Payloads(Arrivals(out)) == out
  {
    hide Comparable, KeyOf;
  }

  lemma {:induction false} RankIsPlaceInTime(out: Msgs, i: nat, id: int, clock: DoubleClock)
    requires OneKind(out, id) && i < |out| && |out[i]| >= STRUCT_SIZE
    ensures Rank(Arrivals(out), i) == PlaceInTime(out, i, clock)
  {
    hide Comparable, TimeOf, KeyOf, CountAtMost, CountBelow, CountNotLater, CountEarlier, Payloads;
    var xs := Arrivals(out);
    ArrivalsFaithful(out, id);
    assert xs[i] == Arrival(out[i]) && xs[i].key == KeyOf(out[i]);
    SliceOfPayloads(xs, 0, i);
    SliceOfPayloads(xs, i + 1, |xs|);
    var before, after := xs[..i], xs[i + 1..];
    assert xs[0..i] == before && out[0..i] == out[..i];
    assert xs[i + 1..|xs|] == after && out[i + 1..|out|] == out[i + 1..];
    assert Faithful(before, id) && Faithful(after, id);
    CountsByTime(before, out[i], id, clock);
    CountsByTime(after, out[i], id, clock);
  }

  lemma SliceOfPayloads(xs: seq<Keyed>, lo: nat, hi: nat)
    requires lo <= hi <= |xs|
    ensures Payloads(xs[lo..hi]) == Payloads(xs)[lo..hi]
  {
  }

  lemma {:induction false} PromptIsInTime(c: Config, out: Msgs, id: int, clock: DoubleClock)
    requires c.Valid() && OneKind(out, id)
    ensures forall i | 0 <= i < |out| :: |out[i]| >= STRUCT_SIZE
    ensures Prompt(c, Arrivals(out)) <==> ArrivesInTime(c, out, clock)
  {
    hide Comparable, TimeOf, KeyOf, Rank, PlaceInTime;
    KindSizes(out, id);
    forall i | 0 <= i < |out|
      ensures Rank(Arrivals(out), i) == PlaceInTime(out, i, clock)
    {
      RankIsPlaceInTime(out, i, id, clock);
    }
  }

  lemma {:induction false} PermutedFaithful(s: seq<Keyed>, t: seq<Keyed>, id: int)
    requires multiset(s) == multiset(t) && Faithful(t, id)
    ensures Faithful(s, id)
  {
    hide Comparable, KeyOf;
    forall i | 0 <= i < |s|
      ensures s[i].key == KeyOf(s[i].bytes) && Comparable(s[i].bytes, id)
    {
      assert s[i] in multiset(s) && s[i] in multiset(t);
      var j :| 0 <= j < |t| && t[j] == s[i];
    }
  }

  /**
    * For messages with comparable stamps, what the sorting writer receives is in order of time, with equal times in
    * order of arrival, exactly when every message arrives before the half flush that writes its place in time.
    */
  lemma {:induction false} WrittenInTimeIff(c: Config, out: Msgs, id: int, clock: DoubleClock)
    requires c.Valid() && c.sorting && OneKind(out, id)
    ensures var written := Payloads(Output(c, Arrivals(out)));
      && (forall i | 0 <= i < |written| :: |written[i]| >= STRUCT_SIZE)
      && (forall i | 0 <= i < |out| :: |out[i]| >= STRUCT_SIZE)
      && (InOrderOfTime(written, clock) && SameAtEveryTime(written, out, clock) <==> ArrivesInTime(c, out, clock))
  {
    hide *;
    var xs := Arrivals(out);
    var s := Output(c, xs);
    OutputIsPermutation(c, xs);
    ArrivalsFaithful(out, id);
    PermutedFaithful(s, xs, id);
    PayloadSizes(s, id);
    SortedIsInOrder(s, id, clock);
    SameByKeyIsSameByTime(s, xs, id, clock);
    PromptIsInTime(c, out, id, clock);
    BoundedSortIsFullSort(c, xs);
    SortIffSortedAndStable(s, xs);
  }

  lemma PayloadSizes(s: seq<Keyed>, id: int)
    requires Faithful(s, id)
    ensures forall i | 0 <= i < |Payloads(s)| :: |Payloads(s)[i]| >= STRUCT_SIZE
  {
    hide Unpack, KeyOf;
    FaithfulSizes(s, id);
  }

  lemma SortIffSortedAndStable(s: seq<Keyed>, xs: seq<Keyed>)
    ensures s == StableSort(xs) <==> Sorted(s) && SameByKey(s, xs)
  {
    hide StableSort, Sorted;
    StableSortCorrect(xs);
    if Sorted(s) && SameByKey(s, xs) {
      assert SameByKey(s, StableSort(xs));
      SortedStableUnique(s, StableSort(xs));
    }
  }
}
