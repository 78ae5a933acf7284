/** What reading the files of a split gives, told from the log alone. */
module VsbSplitReadBack {
  import opened Bytes
  import opened VsbStruct
  import opened VsbFormat
  import opened VsbReading
  import opened VsbRoundTrip
  import opened VsbSplit
  import opened VsbSplitTheorems
  import opened VsbDelivery

  ghost predicate AllPartsWellSized(parts: seq<Msgs>)
  {
    forall i | 0 <= i < |parts| :: parts[i] != [] && AllWellSized(parts[i])
  }

  /** What reading all files of a split, one after the other, delivers. */
  ghost function ReadParts(parts: seq<Msgs>): Msgs
    requires AllPartsWellSized(parts)
  {
    if parts == [] then [] else ReadsBack(parts[0]) + ReadParts(parts[1..])
  }

  lemma {:induction false} FlattenWellSized(parts: seq<Msgs>)
    requires AllPartsWellSized(parts)
    ensures AllWellSized(Flatten(parts))
  {
    if parts != [] {
      FlattenWellSized(parts[1..]);
    }
  }

  lemma {:induction false} PartsOfWellSized(parts: seq<Msgs>)
    requires AllWellSized(Flatten(parts)) && forall i | 0 <= i < |parts| :: parts[i] != []
    ensures AllPartsWellSized(parts)
  {
    if parts != [] {
      var head, rest := parts[0], parts[1..];
      assert AllWellSized(head) by {
        assert forall i | 0 <= i < |head| :: head[i] == Flatten(parts)[i];
      }
      assert AllWellSized(Flatten(rest)) by {
        assert forall i | 0 <= i < |Flatten(rest)| :: Flatten(rest)[i] == Flatten(parts)[|head| + i];
      }
      PartsOfWellSized(rest);
      assert forall i | 1 <= i < |parts| :: parts[i] == rest[i - 1];
    }
  }

  lemma {:induction false} NormalizeAppend(a: Msgs, b: Msgs)
    requires AllWellSized(a) && AllWellSized(b)
    ensures AllWellSized(a + b) && NormalizeAll(a + b) == NormalizeAll(a) + NormalizeAll(b)
  {
    hide WellSized, Normalize;
    if a == [] {
      assert a + b == b;
    } else {
      assert (a + b)[1..] == a[1..] + b;
      NormalizeAppend(a[1..], b);
    }
  }

  lemma {:induction false} PartsNotLonger(parts: seq<Msgs>)
    requires AllPartsWellSized(parts)
    ensures |ReadParts(parts)| <= |Flatten(parts)|
    ensures |ReadParts(parts)| == |Flatten(parts)| <==> forall i | 0 <= i < |parts| :: !LosesLast(parts[i])
  {
    if parts != [] {
      var rest := parts[1..];
      PartsNotLonger(rest);
      assert forall i | 0 <= i < |rest| :: rest[i] == parts[i + 1];
      assert (forall i | 0 <= i < |parts| :: !LosesLast(parts[i]))
        <==> !LosesLast(parts[0]) && forall i | 0 <= i < |rest| :: !LosesLast(rest[i]);
    }
  }

  /** The files together give the log back exactly when none of them ends with a message that has extra data. */
  lemma {:induction false} PartsReadBackIff(parts: seq<Msgs>)
    requires AllPartsWellSized(parts)
    ensures AllWellSized(Flatten(parts))
    ensures ReadParts(parts) == NormalizeAll(Flatten(parts)) <==> forall i | 0 <= i < |parts| :: !LosesLast(parts[i])
    decreases |parts|
  {
    FlattenWellSized(parts);
    PartsNotLonger(parts);
    if parts != [] && forall i | 0 <= i < |parts| :: !LosesLast(parts[i]) {
      var rest := parts[1..];
      assert forall i | 0 <= i < |rest| :: rest[i] == parts[i + 1];
      PartsReadBackIff(rest);
      NormalizeAppend(parts[0], Flatten(rest));
    }
  }

  /** Index of the last message of file i when some messages are split by n. */
  function LastInFile(i: nat, n: nat, total: nat): (j: nat)
    requires n > 0 && total > 0
    ensures j < total
  {
    if (i + 1) * n < total then (i + 1) * n - 1 else total - 1
  }

  lemma {:induction false} PartsAround(parts: seq<Msgs>, i: nat)
    requires i < |parts|
    ensures Flatten(parts) == Flatten(parts[..i]) + parts[i] + Flatten(parts[i + 1..])
  {
    hide Flatten;
    var a, b := parts[..i], parts[i + 1..];
    assert parts == a + [parts[i]] + b;
    FlattenAppend(a + [parts[i]], b);
    FlattenSnoc(a, parts[i]);
  }

  /** Where part i lies: n messages for each part before it, and more behind it unless it is the last one. */
  lemma PartBounds(parts: seq<Msgs>, n: nat, i: nat)
    requires EvenParts(parts, n) && i < |parts|
    ensures |Flatten(parts[..i])| == i * n && 1 <= |parts[i]| <= n
    ensures i < |parts| - 1 ==> |parts[i]| == n && |Flatten(parts[i + 1..])| > 0
    ensures i == |parts| - 1 ==> Flatten(parts[i + 1..]) == []
  {
    var init := parts[..|parts| - 1];
    assert forall k | 0 <= k < i :: parts[..i][k] == init[k];
    FullLength(parts[..i], n);
    if i < |parts| - 1 {
      assert parts[i] == init[i];
      assert parts[i + 1] == if i + 1 < |init| then init[i + 1] else parts[|parts| - 1];
      assert parts[i + 1..][0] == parts[i + 1];
    }
  }

  lemma {:induction false} LastOfPart(parts: seq<Msgs>, n: nat, i: nat)
    requires n > 0 && EvenParts(parts, n) && i < |parts|
    ensures var msgs := Flatten(parts);
      && parts[i] != [] && msgs != [] && i * n < |msgs|
      && msgs[LastInFile(i, n, |msgs|)] == parts[i][|parts[i]| - 1]
  {
    hide Flatten, EvenParts;
    PartsAround(parts, i);
    PartBounds(parts, n, i);
    assert (i + 1) * n == i * n + n;
  }

  lemma NoFurtherPart(parts: seq<Msgs>, n: nat, i: nat)
    requires n > 0 && EvenParts(parts, n) && i * n < |Flatten(parts)|
    ensures i < |parts|
  {
    if i >= |parts| > 0 {
      var k := |parts| - 1;
      PartsAround(parts, k);
      PartBounds(parts, n, k);
      hide Flatten, EvenParts;
      OneMoreFile(k, i, n);
    }
  }

  lemma OneMoreFile(k: nat, i: nat, n: nat)
    requires k < i
    ensures k * n + n <= i * n
  {
    assert i * n == k * n + n + (i - k - 1) * n;
  }

  /** No message that ends a file, every n-th one and the last one, has extra data. */
  ghost predicate FileEndsPlain(msgs: Msgs, n: nat)
    requires AllWellSized(msgs) && n > 0
  {
    forall i: nat | i * n < |msgs| :: ExtraSize(msgs[LastInFile(i, n, |msgs|)]) == 0
  }

  /** After a split by count the files give the log back exactly when no message that ends a file has extra data. */
  lemma {:induction false} SplitReadsBackIff(parts: seq<Msgs>, n: nat)
    requires n > 0 && EvenParts(parts, n) && AllWellSized(Flatten(parts))
    ensures AllPartsWellSized(parts)
    ensures ReadParts(parts) == NormalizeAll(Flatten(parts)) <==> FileEndsPlain(Flatten(parts), n)
  {
    hide LastInFile, ExtraSize, ReadParts, WellSized, EvenParts, Flatten;
    var msgs := Flatten(parts);
    forall i | 0 <= i < |parts|
      ensures parts[i] != [] && msgs != [] && i * n < |msgs|
      ensures msgs[LastInFile(i, n, |msgs|)] == parts[i][|parts[i]| - 1]
    {
      LastOfPart(parts, n, i);
    }
    PartsOfWellSized(parts);
    PartsReadBackIff(parts);
    forall i: nat | i * n < |msgs|
      ensures i < |parts|
    {
      NoFurtherPart(parts, n, i);
    }
  }

  /** The splitter's count after some messages of a log. */
  function CountAfter(s: Msgs, limit: nat): nat
  {
    if |s| <= 1 then HEADER_SIZE
    else
      var c := CountAfter(s[..|s| - 1], limit) + |s[|s| - 1]|;
      if c > limit then HEADER_SIZE else c
  }

  /** Message j is the last one of a file. */
  predicate EndsFile(msgs: Msgs, limit: nat, j: nat)
    requires j < |msgs|
  {
    j == |msgs| - 1 || CountAfter(msgs[..j + 1], limit) + |msgs[j + 1]| > limit
  }

  /** Taking the last message away leaves the cut of the messages before it. */
  lemma WithoutLast(p: seq<Msgs>, limit: nat) returns (q: seq<Msgs>)
    requires FullParts(p, limit) && p != []
    ensures var l, msgs := p[|p| - 1], Flatten(p);
      && msgs != [] && msgs[|msgs| - 1] == l[|l| - 1]
      && FullParts(q, limit) && Flatten(q) == msgs[..|msgs| - 1]
      && q == (if |l| == 1 then p[..|p| - 1] else p[..|p| - 1] + [l[..|l| - 1]])
  {
    var k := |p| - 1;
    var l := p[k];
    var n := |l| - 1;
    assert p == p[..k] + [l] && l == l[..n] + [l[n]];
    FlattenSnoc(p[..k], l);
    if n == 0 {
      q := p[..k];
    } else {
      q := p[..k] + [l[..n]];
      FlattenSnoc(p[..k], l[..n]);
      CountedSnoc(l[..n], l[n]);
      assert q[k] == l[..n] && forall i | 0 <= i < k :: q[i] == p[i];
      if n == 1 {
        assert |q[k]| == 1;
      }
    }
  }

  lemma AtTheEnd(p: seq<Msgs>, limit: nat)
    requires FullParts(p, limit) && p != []
    ensures var k, l := |p| - 1, p[|p| - 1];
      if |l| == 1 then k > 0 ==> Counted(p[k - 1]) + |l[0]| > limit
      else Counted(l[..|l| - 1]) + |l[|l| - 1]| <= limit
  {
    var l := p[|p| - 1];
    assert l == l[..|l| - 1] + [l[|l| - 1]];
    if |l| > 1 {
      CountedSnoc(l[..|l| - 1], l[|l| - 1]);
    }
  }

  lemma FirstOfAll(p: seq<Msgs>, limit: nat)
    requires FullParts(p, limit) && |p| == 1 && |p[0]| == 1
    ensures |Flatten(p)| == 1 && Counted(p[0]) == HEADER_SIZE
  {
  }

  /** The count is that of the file being written. */
  lemma {:induction false} CountAfterParts(p: seq<Msgs>, limit: nat)
    requires FullParts(p, limit) && p != []
    ensures CountAfter(Flatten(p), limit) == Counted(p[|p| - 1])
    decreases |Flatten(p)|
  {
    var l := p[|p| - 1];
    var q := WithoutLast(p, limit);
    AtTheEnd(p, limit);
    if q == [] {
      FirstOfAll(p, limit);
    } else {
      CountAfterParts(q, limit);
      NothingToCut(q, limit);
      Rejoin(p, q);
      assert |Flatten(p)| >= 2;
      CountedLast(l);
      hide Flatten, Counted, FullParts;
    }
  }

  lemma CountedLast(l: Msgs)
    requires l != []
    ensures if |l| == 1 then Counted(l) == HEADER_SIZE else Counted(l) == Counted(l[..|l| - 1]) + |l[|l| - 1]|
  {
    assert l == l[..|l| - 1] + [l[|l| - 1]];
    if |l| > 1 {
      CountedSnoc(l[..|l| - 1], l[|l| - 1]);
    }
  }

  /** No message before the last one ends a file with extra data. */
  ghost predicate EarlierEndsPlain(msgs: Msgs, limit: nat)
    requires AllWellSized(msgs)
  {
    forall j | 0 <= j < |msgs| - 1 && EndsFile(msgs, limit, j) :: ExtraSize(msgs[j]) == 0
  }

  ghost predicate EarlierPartsPlain(p: seq<Msgs>)
    requires AllPartsWellSized(p)
  {
    forall i | 0 <= i < |p| - 1 :: !LosesLast(p[i])
  }

  lemma {:induction false} EarlierEndsStep(msgs: Msgs, limit: nat)
    requires |msgs| >= 2 && AllWellSized(msgs)
    ensures var n := |msgs| - 1;
      && AllWellSized(msgs[..n])
      && (EarlierEndsPlain(msgs, limit)
          <==> EarlierEndsPlain(msgs[..n], limit) && (EndsFile(msgs, limit, n - 1) ==> ExtraSize(msgs[n - 1]) == 0))
  {
    hide ExtraSize, CountAfter, WellSized;
    var n := |msgs| - 1;
    var s := msgs[..n];
    forall j | 0 <= j < |s| - 1
      ensures s[j] == msgs[j] && (EndsFile(s, limit, j) <==> EndsFile(msgs, limit, j))
    {
      assert s[..j + 1] == msgs[..j + 1];
    }
  }

  lemma {:induction false} EndsAreParts(p: seq<Msgs>, limit: nat)
    requires FullParts(p, limit) && AllPartsWellSized(p) && AllWellSized(Flatten(p))
    ensures EarlierEndsPlain(Flatten(p), limit) <==> EarlierPartsPlain(p)
    decreases |Flatten(p)|
  {
    hide WellSized, ExtraSize, Counted, FullParts, EarlierEndsPlain, EarlierPartsPlain, CountAfter;
    if p == [] {
      NothingEnds(limit);
    } else {
      var msgs, l := Flatten(p), p[|p| - 1];
      var q := WithoutLast(p, limit);
      if q == [] {
        assert |p| == 1 && |msgs| == 1;
        OneMessage(p, limit);
      } else {
        NothingToCut(q, limit);
        QWellSized(p, q);
        EndsAreParts(q, limit);
        EarlierEndsStep(msgs, limit);
        EndBefore(p, q, limit);
        if |l| == 1 {
          PlainSnoc(p);
        } else {
          SamePlain(p, q);
        }
      }
    }
  }

  lemma NothingEnds(limit: nat)
    ensures EarlierEndsPlain(Flatten([]), limit) <==> EarlierPartsPlain([])
  {
  }

  lemma OneMessage(p: seq<Msgs>, limit: nat)
    requires |p| == 1 && |Flatten(p)| == 1 && AllPartsWellSized(p) && AllWellSized(Flatten(p))
    ensures EarlierEndsPlain(Flatten(p), limit) <==> EarlierPartsPlain(p)
  {
  }

  lemma QWellSized(p: seq<Msgs>, q: seq<Msgs>)
    requires AllPartsWellSized(p) && p != []
    requires var l := p[|p| - 1];
      q == (if |l| == 1 then p[..|p| - 1] else p[..|p| - 1] + [l[..|l| - 1]])
    ensures AllPartsWellSized(q)
  {
    hide WellSized;
    forall i | 0 <= i < |q|
      ensures q[i] != [] && AllWellSized(q[i])
    {
      assert AllWellSized(p[i]);
    }
  }

  /** Whether the message before the last one ends a file. */
  lemma EndBefore(p: seq<Msgs>, q: seq<Msgs>, limit: nat)
    requires FullParts(p, limit) && FullParts(q, limit) && p != [] && q != []
    requires Flatten(p) != [] && Flatten(q) == Flatten(p)[..|Flatten(p)| - 1]
    requires var l := p[|p| - 1];
      && Flatten(p)[|Flatten(p)| - 1] == l[|l| - 1]
      && q == (if |l| == 1 then p[..|p| - 1] else p[..|p| - 1] + [l[..|l| - 1]])
    ensures var msgs, l := Flatten(p), p[|p| - 1];
      && |msgs| >= 2
      && (EndsFile(msgs, limit, |msgs| - 2) <==> |l| == 1)
      && (|l| == 1 ==> |p| >= 2 && msgs[|msgs| - 2] == p[|p| - 2][|p[|p| - 2]| - 1])
  {
    var msgs, l, n := Flatten(p), p[|p| - 1], |Flatten(p)| - 1;
    NothingToCut(q, limit);
    CountAfterParts(q, limit);
    LastIsLast(q);
    AtTheEnd(p, limit);
    assert msgs[..n - 1 + 1] == Flatten(q);
    hide Flatten, CountAfter, Counted, FullParts;
  }

  lemma LastIsLast(p: seq<Msgs>)
    requires p != [] && p[|p| - 1] != []
    ensures var l, msgs := p[|p| - 1], Flatten(p); msgs != [] && msgs[|msgs| - 1] == l[|l| - 1]
  {
    var k := |p| - 1;
    assert p == p[..k] + [p[k]];
    FlattenSnoc(p[..k], p[k]);
  }

  lemma PlainSnoc(p: seq<Msgs>)
    requires AllPartsWellSized(p) && |p| >= 2
    ensures AllPartsWellSized(p[..|p| - 1])
    ensures EarlierPartsPlain(p) <==> EarlierPartsPlain(p[..|p| - 1]) && !LosesLast(p[|p| - 2])
  {
    var q := p[..|p| - 1];
    assert forall i | 0 <= i < |q| :: q[i] == p[i];
  }

  lemma SamePlain(p: seq<Msgs>, q: seq<Msgs>)
    requires AllPartsWellSized(p) && AllPartsWellSized(q) && |p| == |q| > 0 && p[..|p| - 1] == q[..|q| - 1]
    ensures EarlierPartsPlain(p) <==> EarlierPartsPlain(q)
  {
    assert forall i | 0 <= i < |p| - 1 :: p[i] == p[..|p| - 1][i] && q[i] == q[..|q| - 1][i];
  }

  /** After a split by size they give it back exactly when no message that ends a file has extra data. */
  lemma {:induction false} SplitBySizeReadsBackIff(parts: seq<Msgs>, limit: nat)
    requires FullParts(parts, limit) && AllWellSized(Flatten(parts))
    ensures AllPartsWellSized(parts)
    ensures var msgs := Flatten(parts);
      (ReadParts(parts) == NormalizeAll(msgs))
      <==> (forall j | 0 <= j < |msgs| && EndsFile(msgs, limit, j) :: ExtraSize(msgs[j]) == 0)
  {
    hide ReadParts, ExtraSize, WellSized, CountAfter;
    PartsOfWellSized(parts);
    PartsReadBackIff(parts);
    EndsAreParts(parts, limit);
    if parts != [] {
      LastIsLast(parts);
    }
  }

  /** The same for the files that splitting a log file leaves. */
  lemma {:induction false} SplitFileReadsBackIff(file: seq<byte>, timeSize: nat, parts: seq<Msgs>, n: nat)
    requires Readable(file, timeSize) && SplitUpTo(AllOf(file, timeSize), None, parts)
    requires n > 0 && EvenParts(parts, n)
    ensures var msgs := Messages(file, timeSize);
      && AllPartsWellSized(parts) && AllWellSized(msgs)
      && (ReadParts(parts) == NormalizeAll(msgs) <==> FileEndsPlain(msgs, n))
  {
    hide AllOf, EvenParts, ReadParts, WellSized, FileEndsPlain, Flatten;
    FitIsWellSized(AllOf(file, timeSize).value);
    assert Flatten(parts) == AllOf(file, timeSize).value;
    SplitReadsBackIff(parts, n);
  }

  lemma {:induction false} SplitBySizeFileReadsBackIff(file: seq<byte>, timeSize: nat, parts: seq<Msgs>, limit: nat)
    requires Readable(file, timeSize) && SplitUpTo(AllOf(file, timeSize), None, parts)
    requires FullParts(parts, limit)
    ensures var msgs := Messages(file, timeSize);
      && AllPartsWellSized(parts) && AllWellSized(msgs)
      && ((ReadParts(parts) == NormalizeAll(msgs))
          <==> (forall j | 0 <= j < |msgs| && EndsFile(msgs, limit, j) :: ExtraSize(msgs[j]) == 0))
  {
    hide AllOf, FullParts, ReadParts, WellSized, Flatten, ExtraSize, EndsFile;
    FitIsWellSized(AllOf(file, timeSize).value);
    assert Flatten(parts) == AllOf(file, timeSize).value;
    SplitBySizeReadsBackIff(parts, limit);
  }

  lemma FitIsWellSized(msgs: Msgs)
    requires EachFit(msgs)
    ensures AllWellSized(msgs)
  {
    hide WellSized, MessageSize;
    forall i | 0 <= i < |msgs|
      ensures WellSized(msgs[i])
    {
      assert Fit(msgs[i]);
    }
  }
}
