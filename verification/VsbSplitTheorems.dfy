/** What a split promises: the cut is determined, and how large the files are. */
module VsbSplitTheorems {
  import opened Bytes
  import opened VsbStruct
  import opened VsbFormat
  import opened VsbReading
  import opened VsbWriter
  import opened VsbRoundTrip
  import opened VsbSplit

  // ----- by count -----

  /** There are as many files as it takes. */
  lemma {:induction false} CountOfParts(parts: seq<Msgs>, n: nat)
    requires n > 0 && EvenParts(parts, n)
    ensures |parts| == (|Flatten(parts)| + n - 1) / n
  {
    if parts == [] {
      UniqueQuotient(n - 1, 0, n - 1, n);
    } else {
      var k := |parts| - 1;
      var last := parts[k];
      assert parts == parts[..k] + [last];
      FlattenSnoc(parts[..k], last);
      FullLength(parts[..k], n);
      UniqueQuotient(|Flatten(parts)| + n - 1, k + 1, |last| - 1, n);
    }
  }

  lemma {:induction false} FullLength(parts: seq<Msgs>, n: nat)
    requires AllFull(parts, n)
    ensures |Flatten(parts)| == |parts| * n
  {
    if parts != [] {
      FullLength(parts[1..], n);
    }
  }

  /** The messages and the count determine the files. */
  lemma {:induction false} EvenPartsUnique(p: seq<Msgs>, q: seq<Msgs>, n: nat)
    requires n > 0 && EvenParts(p, n) && EvenParts(q, n) && Flatten(p) == Flatten(q)
    ensures p == q
  {
    CountOfParts(p, n);
    CountOfParts(q, n);
    if p != [] {
      EvenTail(p, n);
      EvenTail(q, n);
      SameHead(p, q);
      EvenPartsUnique(p[1..], q[1..], n);
    }
  }

  lemma EvenTail(p: seq<Msgs>, n: nat)
    requires EvenParts(p, n) && p != []
    ensures EvenParts(p[1..], n)
    ensures |p| > 1 ==> |p[0]| == n
    ensures |p| == 1 ==> |p[0]| == |Flatten(p)|
  {
    if |p| > 1 {
      assert p[1..][..|p| - 2] == p[..|p| - 1][1..];
      assert p[0] == p[..|p| - 1][0];
    } else {
      assert Flatten(p[1..]) == [];
    }
  }

  lemma SameHead(p: seq<Msgs>, q: seq<Msgs>)
    requires p != [] && q != [] && |p[0]| == |q[0]| && Flatten(p) == Flatten(q)
    ensures p[0] == q[0] && Flatten(p[1..]) == Flatten(q[1..])
  {
    var k, f := |p[0]|, Flatten(p);
    assert p[0] == f[..k] == q[0];
    assert Flatten(p[1..]) == f[k..] == Flatten(q[1..]);
  }

  // ----- by size -----

  lemma FullTail(p: seq<Msgs>, limit: nat)
    requires FullParts(p, limit) && p != []
    ensures FullParts(p[1..], limit)
  {
    var t := p[1..];
    assert forall i | 0 <= i < |t| :: t[i] == p[i + 1];
  }

  lemma {:induction false} CountedGrows(part: Msgs, k: nat)
    requires 1 <= k < |part|
    ensures Counted(part[..k]) + |part[k]| <= Counted(part)
  {
    assert part == part[..k] + part[k..];
    assert part[1..] == part[..k][1..] + part[k..];
    FlattenAppend(part[..k][1..], part[k..]);
  }

  /** The first part of one cut is not shorter than that of another. */
  lemma FirstNotShorter(p: seq<Msgs>, q: seq<Msgs>, limit: nat)
    requires FullParts(p, limit) && FullParts(q, limit) && Flatten(p) == Flatten(q) && p != [] && q != []
    ensures |p[0]| >= |q[0]|
  {
    var k, f := |p[0]|, Flatten(p);
    if k < |q[0]| {
      assert q[0] == f[..|q[0]|] && p[0] == f[..k] == q[0][..k];
      if |p| > 1 {
        assert Flatten(p[1..])[0] == p[1][0];
        assert q[0][k] == p[1][0];
        CountedGrows(q[0], k);
      }
    }
  }

  /** The messages and the limit determine the files. */
  lemma {:induction false} FullPartsUnique(p: seq<Msgs>, q: seq<Msgs>, limit: nat)
    requires FullParts(p, limit) && FullParts(q, limit) && Flatten(p) == Flatten(q)
    ensures p == q
    decreases |p|
  {
    if p == [] || q == [] {
      NothingToCut(p, limit);
      NothingToCut(q, limit);
    } else {
      FirstNotShorter(p, q, limit);
      FirstNotShorter(q, p, limit);
      SameHead(p, q);
      FullTail(p, limit);
      FullTail(q, limit);
      FullPartsUnique(p[1..], q[1..], limit);
    }
  }

  lemma NothingToCut(p: seq<Msgs>, limit: nat)
    requires FullParts(p, limit)
    ensures Flatten(p) == [] <==> p == []
  {
    if p != [] {
      assert |Flatten(p)| >= |p[0]| > 0;
    }
  }

  function Max(a: nat, b: nat): nat
  {
    if a < b then b else a
  }

  /** A file may pass the limit by its first message, which the splitter does not count, and by no more. */
  lemma PartSizeBound(parts: seq<Msgs>, i: nat, limit: nat)
    requires FullParts(parts, limit) && i < |parts|
    ensures |FileOf(parts[i])| <= Max(HEADER_SIZE, limit) + |parts[i][0]|
  {
    DiskSize(parts[i]);
    if |parts[i]| == 1 {
      assert Flatten(parts[i][1..]) == [];
    }
  }

  /** A message with n extra bytes. */
  function Filler(n: uint32): (m: seq<byte>)
    ensures |m| == STRUCT_SIZE + n
  {
    Pack(ZERO.(extraEnabled := 1, extraPtr := n)) + Zeros(n)
  }

  lemma FillerWellSized(n: uint32)
    ensures WellSized(Filler(n))
  {
    hide Pack;
    var m := ZERO.(extraEnabled := 1, extraPtr := n);
    UnpackPack(m, Zeros(n));
    assert Unpack(Filler(n)) == m;
  }

  /** Messages of any total size that one message can have or that is larger. */
  lemma {:induction false} Fillers(size: nat) returns (rest: Msgs)
    requires size >= STRUCT_SIZE
    ensures AllWellSized(rest) && rest != [] && |Flatten(rest)| == size
  {
    if size < STRUCT_SIZE + TWO_32 {
      FillerWellSized(size - STRUCT_SIZE);
      rest := [Filler(size - STRUCT_SIZE)];
      assert Flatten(rest) == rest[0] + Flatten<byte>([]);
    } else {
      FillerWellSized(0);
      var more := Fillers(size - STRUCT_SIZE);
      rest := [Filler(0)] + more;
      assert rest[1..] == more;
    }
  }

  /**
    * No smaller bound holds for a limit of at least 74, a header and a structure: for every first message there is a
    * log of well-formed messages whose first file passes the limit by the whole of it.
    */
  lemma BoundIsReached(first: seq<byte>, limit: nat) returns (part: Msgs)
    requires WellSized(first) && limit >= HEADER_SIZE + STRUCT_SIZE
    ensures part != [] && part[0] == first && AllWellSized(part)
    ensures FullParts([part], limit) && |FileOf(part)| == limit + |first|
  {
    var rest := Fillers(limit - HEADER_SIZE);
    part := [first] + rest;
    assert part[1..] == rest;
    DiskSize(part);
  }

  /** Below that every message gets a file of its own, whose size is a header and the message. */
  lemma {:induction false} SmallLimit(parts: seq<Msgs>, i: nat, limit: nat)
    requires FullParts(parts, limit) && i < |parts| && limit < HEADER_SIZE + STRUCT_SIZE
    requires forall j | 0 <= j < |parts[i]| :: |parts[i][j]| >= STRUCT_SIZE
    ensures |parts[i]| == 1 && |FileOf(parts[i])| == HEADER_SIZE + |parts[i][0]|
  {
    var part := parts[i];
    if |part| > 1 {
      CountedGrows(part, 1);
    }
    DiskSize(part);
  }

  ghost predicate AllFit(parts: seq<Msgs>, limit: nat)
  {
    forall i | 0 <= i < |parts| :: |FileOf(parts[i])| <= limit
  }

  ghost predicate NoneLargerThanFirst(msgs: Msgs)
  {
    forall i | 0 <= i < |msgs| :: |msgs[i]| <= |msgs[0]|
  }

  /**
    * When no message is larger than the first, as in a log of messages without extra data, the files all keep the
    * limit only if the whole log does: as soon as there is a second file, the first one is too large.
    */
  lemma FitIffNoSplit(parts: seq<Msgs>, limit: nat)
    requires FullParts(parts, limit) && parts != [] && NoneLargerThanFirst(Flatten(parts))
    ensures AllFit(parts, limit) <==> |FileOf(Flatten(parts))| <= limit
  {
    var whole := Flatten(parts);
    assert whole[0] == parts[0][0];
    if |parts| == 1 {
      assert Flatten(parts[1..]) == [];
      assert whole == parts[0];
    } else {
      var rest := Flatten(parts[1..]);
      assert rest[0] == parts[1][0] && whole[|parts[0]|] == rest[0];
      DiskSize(parts[0]);
      assert |FileOf(parts[0])| > limit;
      DiskSize(whole);
      CountedGrows(whole, |parts[0]|);
      assert whole[..|parts[0]|] == parts[0];
    }
  }

  /** The cut the limit is meant for: a file ends where the next message would push it past the limit. */
  function IntendedCut(msgs: Msgs, limit: nat): (q: seq<Msgs>)
    ensures q == [] <==> msgs == []
    ensures forall i | 0 <= i < |q| :: q[i] != []
  {
    if msgs == [] then []
    else
      var n := |msgs| - 1;
      var q := IntendedCut(msgs[..n], limit);
      var k := |q| - 1;
      if n == 0 || |FileOf(q[k])| + |msgs[n]| > limit then q + [[msgs[n]]] else q[..k] + [q[k] + [msgs[n]]]
  }

  ghost predicate IntendedParts(q: seq<Msgs>, limit: nat)
  {
    && (forall i | 0 <= i < |q| :: q[i] != [] && (|q[i]| == 1 || |FileOf(q[i])| <= limit))
    && (forall i | 0 <= i < |q| - 1 :: |FileOf(q[i])| + |q[i + 1][0]| > limit)
  }

  lemma FileSnoc(part: Msgs, m: seq<byte>)
    ensures |FileOf(part + [m])| == |FileOf(part)| + |m|
  {
    FlattenSnoc(part, m);
  }

  lemma NewFile(q: seq<Msgs>, m: seq<byte>, limit: nat)
    requires IntendedParts(q, limit) && (q == [] || |FileOf(q[|q| - 1])| + |m| > limit)
    ensures IntendedParts(q + [[m]], limit) && Flatten(q + [[m]]) == Flatten(q) + [m]
  {
    hide FileOf;
    FlattenSnoc(q, [m]);
  }

  lemma SameFile(q: seq<Msgs>, m: seq<byte>, limit: nat)
    requires IntendedParts(q, limit) && q != [] && |FileOf(q[|q| - 1])| + |m| <= limit
    ensures var r := q[..|q| - 1] + [q[|q| - 1] + [m]];
      IntendedParts(r, limit) && Flatten(r) == Flatten(q) + [m]
  {
    var k := |q| - 1;
    FileSnoc(q[k], m);
    hide FileOf;
    assert q == q[..k] + [q[k]];
    FlattenSnoc(q[..k], q[k]);
    FlattenSnoc(q[..k], q[k] + [m]);
    assert (q[k] + [m])[0] == q[k][0];
  }

  /** What IntendedCut returns is such a cut of the messages. */
  lemma {:induction false} CutIsIntended(msgs: Msgs, limit: nat)
    ensures IntendedParts(IntendedCut(msgs, limit), limit) && Flatten(IntendedCut(msgs, limit)) == msgs
  {
    hide FileOf, IntendedParts;
    if msgs == [] {
      assert IntendedParts([], limit) by { NothingIntended(limit); }
    } else {
      var n := |msgs| - 1;
      CutIsIntended(msgs[..n], limit);
      var q := IntendedCut(msgs[..n], limit);
      assert msgs == msgs[..n] + [msgs[n]];
      if n == 0 || |FileOf(q[|q| - 1])| + |msgs[n]| > limit {
        NewFile(q, msgs[n], limit);
      } else {
        SameFile(q, msgs[n], limit);
      }
    }
  }

  lemma NothingIntended(limit: nat)
    ensures IntendedParts([], limit)
  {
  }

  /** Taking the last message away leaves the intended cut of the messages before it. */
  lemma IntendedWithoutLast(q: seq<Msgs>, limit: nat) returns (r: seq<Msgs>)
    requires IntendedParts(q, limit) && q != []
    ensures var l, msgs := q[|q| - 1], Flatten(q);
      && l != [] && msgs != [] && msgs[|msgs| - 1] == l[|l| - 1]
      && IntendedParts(r, limit) && Flatten(r) == msgs[..|msgs| - 1]
      && r == (if |l| == 1 then q[..|q| - 1] else q[..|q| - 1] + [l[..|l| - 1]])
  {
    hide FileOf;
    var k := |q| - 1;
    var l := q[k];
    var n := |l| - 1;
    assert q == q[..k] + [l] && l == l[..n] + [l[n]];
    FlattenSnoc(q[..k], l);
    if n == 0 {
      r := q[..k];
    } else {
      r := q[..k] + [l[..n]];
      FlattenSnoc(q[..k], l[..n]);
      FileSnoc(l[..n], l[n]);
      assert r[k] == l[..n] && forall i | 0 <= i < k :: r[i] == q[i];
    }
  }

  /** And there is no other. */
  lemma {:induction false} IntendedIsCut(q: seq<Msgs>, limit: nat)
    requires IntendedParts(q, limit)
    ensures q == IntendedCut(Flatten(q), limit)
    decreases |Flatten(q)|
  {
    hide FileOf, IntendedParts, Flatten;
    if q == [] {
      NothingFlat();
    } else {
      var r := IntendedWithoutLast(q, limit);
      IntendedIsCut(r, limit);
      LastStep(q, limit);
      Rejoin(q, r);
    }
  }

  lemma Rejoin(q: seq<Msgs>, r: seq<Msgs>)
    requires q != [] && q[|q| - 1] != []
    requires var l := q[|q| - 1];
      r == (if |l| == 1 then q[..|q| - 1] else q[..|q| - 1] + [l[..|l| - 1]])
    ensures var k, l := |q| - 1, q[|q| - 1];
      if |l| == 1 then q == r + [[l[0]]] && (k > 0 ==> r[|r| - 1] == q[k - 1])
      else |r| == |q| && r[k] == l[..|l| - 1] && q == r[..k] + [r[k] + [l[|l| - 1]]]
  {
    var k, l := |q| - 1, q[|q| - 1];
    assert q == q[..k] + [l] && l == l[..|l| - 1] + [l[|l| - 1]];
  }

  lemma NothingFlat()
    ensures Flatten<seq<byte>>([]) == []
  {
  }

  /** Why the last message is where it is. */
  lemma LastStep(q: seq<Msgs>, limit: nat)
    requires IntendedParts(q, limit) && q != []
    ensures var k, l := |q| - 1, q[|q| - 1];
      if |l| == 1 then k > 0 ==> |FileOf(q[k - 1])| + |l[0]| > limit
      else |FileOf(l[..|l| - 1])| + |l[|l| - 1]| <= limit
    ensures Flatten(q) != [] && (|Flatten(q)| == 1 <==> |q| == 1 && |q[0]| == 1)
  {
    hide FileOf;
    var k := |q| - 1;
    var l := q[k];
    var n := |l| - 1;
    assert l == l[..n] + [l[n]];
    FileSnoc(l[..n], l[n]);
    assert q == q[..k] + [l];
    FlattenSnoc(q[..k], l);
    if k > 0 {
      assert |Flatten(q[..k])| >= |q[0]| > 0;
    }
  }

  /** The intended cut survives the splitter's count: what the count leaves out never lets one more message in. */
  ghost predicate Robust(q: seq<Msgs>, limit: nat)
    requires forall i | 0 <= i < |q| :: q[i] != []
  {
    && (forall i | 0 <= i < |q| && |q[i]| == 1 :: HEADER_SIZE + |q[i][0]| <= limit)
    && (forall i | 0 <= i < |q| - 1 :: |FileOf(q[i])| - |q[i][0]| + |q[i + 1][0]| > limit)
  }

  /**
    * The files all keep the limit exactly when the intended cut of the log is robust: no message is too large for a
    * file of its own, and each file is so full that the next message does not even fit in place of its first one.
    */
  lemma {:induction false} FitIffRobust(parts: seq<Msgs>, limit: nat)
    requires FullParts(parts, limit)
    ensures AllFit(parts, limit) <==> Robust(IntendedCut(Flatten(parts), limit), limit)
  {
    hide Robust, AllFit, FullParts, Flatten, IntendedCut, IntendedParts;
    var q := IntendedCut(Flatten(parts), limit);
    CutIsIntended(Flatten(parts), limit);
    if AllFit(parts, limit) {
      FittingIsIntended(parts, limit);
      IntendedIsCut(parts, limit);
    }
    if Robust(q, limit) {
      RobustIsFull(q, limit);
      FullPartsUnique(parts, q, limit);
    }
  }

  lemma FittingIsIntended(parts: seq<Msgs>, limit: nat)
    requires FullParts(parts, limit) && AllFit(parts, limit)
    ensures IntendedParts(parts, limit) && Robust(parts, limit)
  {
    hide FileOf, Counted;
    PartSizes(parts);
  }

  lemma RobustIsFull(q: seq<Msgs>, limit: nat)
    requires IntendedParts(q, limit) && Robust(q, limit)
    ensures FullParts(q, limit) && AllFit(q, limit)
  {
    PartSizes(q);
    hide FileOf, Counted;
  }

  lemma PartSizes(parts: seq<Msgs>)
    requires forall i | 0 <= i < |parts| :: parts[i] != []
    ensures forall i | 0 <= i < |parts| :: |FileOf(parts[i])| == Counted(parts[i]) + |parts[i][0]|
    ensures forall i | 0 <= i < |parts| && |parts[i]| == 1 :: Counted(parts[i]) == HEADER_SIZE
  {
    forall i | 0 <= i < |parts|
      ensures |FileOf(parts[i])| == Counted(parts[i]) + |parts[i][0]|
    {
      DiskSize(parts[i]);
    }
  }
}
