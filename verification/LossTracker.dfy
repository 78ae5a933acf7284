/** Detection of lost CMP frames from the 16-bit sequence counters of each device and stream. */
module LossTracker {
  import opened Bytes

  datatype StreamKey = StreamKey(deviceId: uint16, streamId: byte)

  /** A CMP frame as the detector sees it. */
  datatype Sighting = Sighting(messageIndex: nat, key: StreamKey, counter: uint16)

  datatype DropEvent = DropEvent(
    messageIndex: nat, key: StreamKey, expectedSeq: uint16, actualSeq: uint16, droppedCount: uint16)

  // ----- the reference definition, on the history of sightings -----

  /** Counters of one device and stream, in order of arrival. */
  function OnKey(xs: seq<Sighting>, k: StreamKey): seq<uint16>
  {
    if xs == [] then []
    else OnKey(xs[..|xs| - 1], k) + if xs[|xs| - 1].key == k then [xs[|xs| - 1].counter] else []
  }

  /** Frames missing between two counters that follow each other, up to a multiple of 65536. */
  function Missing(last: uint16, next: uint16): uint16
  {
    (next - last - 1) % 0x1_0000
  }

  /** The event, if any, of a sighting after the counters seen before on its stream. */
  function DropFor(seen: seq<uint16>, x: Sighting): seq<DropEvent>
  {
    if seen == [] then []
    else
      var last := seen[|seen| - 1];
      if Missing(last, x.counter) == 0 then []
      else [DropEvent(x.messageIndex, x.key, NextCounter(last), x.counter, Missing(last, x.counter))]
  }

  /** Counters wrap at 65536. */
  function NextCounter(last: uint16): uint16
  {
    (last + 1) % 0x1_0000
  }

  function Drops(xs: seq<Sighting>): seq<DropEvent>
  {
    if xs == [] then []
    else Drops(xs[..|xs| - 1]) + DropFor(OnKey(xs[..|xs| - 1], xs[|xs| - 1].key), xs[|xs| - 1])
  }

  lemma HistoryStep(xs: seq<Sighting>, x: Sighting, k: StreamKey)
    ensures Drops(xs + [x]) == Drops(xs) + DropFor(OnKey(xs, x.key), x)
    ensures OnKey(xs + [x], k) == OnKey(xs, k) + if x.key == k then [x.counter] else []
  {
    assert (xs + [x])[..|xs|] == xs;
  }

  class Detector {
    var streamTrackers: map<StreamKey, uint16>
    var droppedFrames: seq<DropEvent>
    ghost var history: seq<Sighting>

    ghost predicate TracksLast(k: StreamKey)
      reads this
    {
      var seen := OnKey(history, k);
      && (k in streamTrackers <==> seen != [])
      && (k in streamTrackers ==> streamTrackers[k] == seen[|seen| - 1])
    }

    ghost predicate Valid()
      reads this
    {
      droppedFrames == Drops(history) && forall k :: TracksLast(k)
    }

    constructor ()
      ensures Valid() && history == []
    {
      streamTrackers, droppedFrames, history := map[], [], [];
    }

    method Track(messageIndex: nat, deviceId: uint16, streamId: byte, counter: uint16)
      requires Valid()
      modifies this
      ensures Valid() && history == old(history) + [Sighting(messageIndex, StreamKey(deviceId, streamId), counter)]
    {
      hide Missing, OnKey, Drops;
      var key := StreamKey(deviceId, streamId);
      ghost var xs, x := history, Sighting(messageIndex, key, counter);
      assert TracksLast(key);
      HistoryStep(xs, x, key);
      if key in streamTrackers {
        var expectedSeq: uint16 := NextCounter(streamTrackers[key]);
        CountMissing(streamTrackers[key], counter);
        if counter != expectedSeq {
          var droppedCount: uint16 := Gap(expectedSeq, counter);
          droppedFrames := droppedFrames + [DropEvent(messageIndex, key, expectedSeq, counter, droppedCount)];
        }
      }
      streamTrackers := streamTrackers[key := counter];
      history := history + [x];
      forall k
        ensures TracksLast(k)
      {
        assert old(TracksLast(k));
        HistoryStep(xs, x, k);
      }
    }
  }

  /** The number of frames between the expected and the actual counter, computed in 16 bits. */
  function Gap(expected: uint16, actual: uint16): uint16
  {
    if actual > expected then actual - expected else (0xFFFF - expected + actual + 1) % 0x1_0000
  }

  lemma CountMissing(last: uint16, next: uint16)
    ensures var e := NextCounter(last);
      (Missing(last, next) == 0 <==> next == e) && (next != e ==> Missing(last, next) == Gap(e, next))
  {
  }

  // ----- loss accounting -----

  function TotalDropped(events: seq<DropEvent>, k: StreamKey): nat
  {
    if events == [] then 0
    else
      var e := events[|events| - 1];
      TotalDropped(events[..|events| - 1], k) + if e.key == k then e.droppedCount else 0
  }

  function TotalMissing(counters: seq<uint16>): nat
  {
    if |counters| <= 1 then 0
    else TotalMissing(counters[..|counters| - 1]) + Missing(counters[|counters| - 2], counters[|counters| - 1])
  }

  lemma TotalDroppedSnoc(events: seq<DropEvent>, e: DropEvent, k: StreamKey)
    ensures TotalDropped(events + [e], k) == TotalDropped(events, k) + if e.key == k then e.droppedCount else 0
  {
    assert (events + [e])[..|events|] == events;
  }

  lemma TotalMissingSnoc(seen: seq<uint16>, next: uint16)
    requires seen != []
    ensures TotalMissing(seen + [next]) == TotalMissing(seen) + Missing(seen[|seen| - 1], next)
  {
    hide Missing;
    var t := seen + [next];
    assert t[..|t| - 1] == seen && t[|t| - 2] == seen[|seen| - 1] && t[|t| - 1] == next;
  }

  lemma DropForTotal(events: seq<DropEvent>, seen: seq<uint16>, x: Sighting, k: StreamKey)
    ensures TotalDropped(events + DropFor(seen, x), k) == TotalDropped(events, k)
      + if seen != [] && x.key == k then Missing(seen[|seen| - 1], x.counter) else 0
  {
    var d := DropFor(seen, x);
    if d == [] {
      assert events + d == events;
    } else {
      TotalDroppedSnoc(events, d[0], k);
      assert d == [d[0]];
    }
  }

  /** The events of a stream add up to the gaps of that stream alone, however the streams are mixed. */
  lemma {:induction false} DropsArePerStream(xs: seq<Sighting>, k: StreamKey)
    ensures TotalDropped(Drops(xs), k) == TotalMissing(OnKey(xs, k))
  {
    hide Missing, DropFor;
    if xs != [] {
      var p, x := xs[..|xs| - 1], xs[|xs| - 1];
      var seen := OnKey(p, x.key);
      DropsArePerStream(p, k);
      DropForTotal(Drops(p), seen, x, k);
      if x.key == k && seen != [] {
        TotalMissingSnoc(seen, x.counter);
      }
      assert OnKey(p, k) + [] == OnKey(p, k);
    }
  }

  /** True sequence numbers of the received frames of a stream, of which the counters show the low 16 bits. */
  ghost predicate Numbering(counters: seq<uint16>, truth: seq<int>)
  {
    && |counters| == |truth|
    && (forall i | 0 <= i < |truth| :: counters[i] == truth[i] % 0x1_0000)
    && (forall i | 0 <= i < |truth| - 1 :: truth[i] < truth[i + 1])
  }

  ghost predicate GapsFit(truth: seq<int>)
  {
    forall i | 0 <= i < |truth| - 1 :: truth[i + 1] - truth[i] <= 0x1_0000
  }

  lemma MissingOfTruth(a: int, b: int)
    requires a < b
    ensures Missing(a % 0x1_0000, b % 0x1_0000) <= b - a - 1
    ensures Missing(a % 0x1_0000, b % 0x1_0000) == b - a - 1 <==> b - a <= 0x1_0000
  {
    assert (b % 0x1_0000 - a % 0x1_0000 - 1) % 0x1_0000 == (b - a - 1) % 0x1_0000 by {
      var q := b / 0x1_0000 - a / 0x1_0000;
      assert b - a - 1 == b % 0x1_0000 - a % 0x1_0000 - 1 + 0x1_0000 * q;
    }
  }

  lemma {:induction false} MissingAddsUp(counters: seq<uint16>, truth: seq<int>)
    requires Numbering(counters, truth) && truth != []
    ensures TotalMissing(counters) + |truth| <= truth[|truth| - 1] - truth[0] + 1
    ensures TotalMissing(counters) + |truth| == truth[|truth| - 1] - truth[0] + 1 <==> GapsFit(truth)
  {
    var n := |truth| - 1;
    if n > 0 {
      MissingAddsUp(counters[..n], truth[..n]);
      MissingOfTruth(truth[n - 1], truth[n]);
      assert GapsFit(truth) <==> GapsFit(truth[..n]) && truth[n] - truth[n - 1] <= 0x1_0000 by {
        GapsFitSnoc(truth);
      }
    }
  }

  lemma GapsFitSnoc(truth: seq<int>)
    requires |truth| >= 2
    ensures var n := |truth| - 1; GapsFit(truth) <==> GapsFit(truth[..n]) && truth[n] - truth[n - 1] <= 0x1_0000
  {
    var n := |truth| - 1;
    var p := truth[..n];
    assert forall i | 0 <= i < n :: p[i] == truth[i];
    if GapsFit(truth) {
      assert truth[n - 1 + 1] - truth[n - 1] <= 0x1_0000;
    }
  }

  /**
    * Lost and received frames of a stream add up to the span of its true sequence numbers exactly when no gap is
    * longer than the counter can show; otherwise the report falls short.
    */
  lemma {:induction false} LossAccountingExact(xs: seq<Sighting>, k: StreamKey, truth: seq<int>)
    requires Numbering(OnKey(xs, k), truth) && truth != []
    ensures var span := truth[|truth| - 1] - truth[0] + 1;
      && TotalDropped(Drops(xs), k) + |truth| <= span
      && (TotalDropped(Drops(xs), k) + |truth| == span <==> GapsFit(truth))
  {
    DropsArePerStream(xs, k);
    MissingAddsUp(OnKey(xs, k), truth);
  }
}
