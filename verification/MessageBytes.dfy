/** Message by message and byte by byte: what comes back of a written file, and of the older formats. */
module MessageBytes {
  import opened Bytes
  import opened VsbStruct
  import opened VsbFormat
  import opened VsbReader
  import opened VsbReading
  import opened VsbDelivery
  import opened VsbWriter
  import opened VsbRoundTrip
  import opened VsbLegacy
  import opened OutputFiles

  /** Where the announcement of extra data lies: one byte that says whether, four that say how much. */
  predicate IsAnnouncement(j: nat)
  {
    j == 30 || 56 <= j < 60
  }

  /** All other bytes of two messages are equal. */
  ghost predicate SameElsewhere(a: seq<byte>, b: seq<byte>)
  {
    |a| == |b| && forall j | 0 <= j < |a| && !IsAnnouncement(j) :: a[j] == b[j]
  }

  predicate NothingAnnounced(m: seq<byte>)
    requires |m| >= STRUCT_SIZE
  {
    m[30] == 0 && m[56..60] == [0, 0, 0, 0]
  }

  /** Whether and how much agree: both say that there is extra data, or both that there is none. */
  predicate Consistent(m: seq<byte>)
    requires |m| >= STRUCT_SIZE
  {
    m[30] == 0 <==> m[56..60] == [0, 0, 0, 0]
  }

  lemma ZeroWord(m: seq<byte>)
    requires |m| >= STRUCT_SIZE
    ensures ReadLE32(m, 56) == 0 <==> m[56..60] == [0, 0, 0, 0]
  {
    var w := m[56..60];
    assert w[0] == m[56] && w[1] == m[57] && w[2] == m[58] && w[3] == m[59];
  }

  lemma ZeroDigits()
    ensures ByteOf(0, 0) == 0 && ByteOf(0, 1) == 0 && ByteOf(0, 2) == 0 && ByteOf(0, 3) == 0
  {
  }

  /** A message without extra data loses what it may still say about it; any other one comes through unchanged. */
  lemma {:induction false} NormalizeKeeps(m: seq<byte>)
    requires |m| >= STRUCT_SIZE
    ensures SameElsewhere(Normalize(m), m)
    ensures ExtraSize(m) == 0 ==> NothingAnnounced(Normalize(m))
    ensures ExtraSize(m) > 0 ==> Normalize(m) == m
    ensures Normalize(m) == m <==> Consistent(m)
  {
    hide ByteOf;
    ZeroDigits();
    ZeroWord(m);
    ZeroWord(Normalize(m));
    if ExtraSize(m) == 0 {
      var n := Normalize(m);
      assert n[56] == 0 && n[57] == 0 && n[58] == 0 && n[59] == 0 && n[30] == 0;
      assert n[56..60] == [0, 0, 0, 0];
      if Consistent(m) {
        assert m[56] == m[56..60][0] && m[57] == m[56..60][1] && m[58] == m[56..60][2] && m[59] == m[56..60][3];
        assert n == m;
      }
    }
  }

  /** What comes back in place i of a written file, byte by byte. */
  lemma {:induction false} BackByteByByte(msgs: Msgs, i: nat)
    requires AllWellSized(msgs) && msgs != [] && i < |ReadsBack(msgs)|
    ensures i < |msgs| && |msgs[i]| >= STRUCT_SIZE
    ensures var r := ReadsBack(msgs)[i];
      && SameElsewhere(r, msgs[i])
      && (ExtraSize(msgs[i]) == 0 ==> NothingAnnounced(r))
      && (ExtraSize(msgs[i]) > 0 ==> r == msgs[i])
  {
    hide Normalize, ExtraSize, SameElsewhere, NothingAnnounced, NormalizeAll;
    var n := |msgs| - 1;
    assert WellSized(msgs[i]);
    NormalizedAt(msgs, i);
    if LosesLast(msgs) {
      NormalizedAt(msgs[..n], i);
    }
    NormalizeKeeps(msgs[i]);
  }

  lemma {:induction false} NormalizedAt(msgs: Msgs, i: nat)
    requires AllWellSized(msgs) && i < |msgs|
    ensures |msgs[i]| >= STRUCT_SIZE && NormalizeAll(msgs)[i] == Normalize(msgs[i])
  {
    hide Normalize, ExtraSize;
    assert WellSized(msgs[i]);
    if i > 0 {
      NormalizedAt(msgs[1..], i - 1);
    }
  }

  /** Every message of a list says consistently whether it has extra data. */
  ghost predicate AllConsistent(msgs: Msgs)
    requires AllWellSized(msgs)
  {
    forall i | 0 <= i < |msgs| :: |msgs[i]| >= STRUCT_SIZE && Consistent(msgs[i])
  }

  lemma {:induction false} NormalizeAllIsSame(msgs: Msgs)
    requires AllWellSized(msgs)
    ensures NormalizeAll(msgs) == msgs <==> AllConsistent(msgs)
  {
    hide Normalize, ExtraSize, Consistent, NormalizeAll;
    forall i | 0 <= i < |msgs|
      ensures |msgs[i]| >= STRUCT_SIZE && (NormalizeAll(msgs)[i] == msgs[i] <==> Consistent(msgs[i]))
    {
      NormalizedAt(msgs, i);
      NormalizeKeeps(msgs[i]);
    }
  }

  /**
    * The very same messages come back exactly when there are any, the last one has no extra data, and every one says
    * consistently whether it has.
    */
  lemma {:induction false} BackUnchangedIff(msgs: Msgs)
    requires AllWellSized(msgs)
    ensures ReadsBack(msgs) == msgs <==> msgs != [] && ExtraSize(msgs[|msgs| - 1]) == 0 && AllConsistent(msgs)
  {
    hide Normalize, ExtraSize, AllConsistent, NormalizeAll;
    NormalizeAllIsSame(msgs);
    if LosesLast(msgs) {
      assert |ReadsBack(msgs)| == |msgs| - 1;
    }
  }

  /** The same for the bytes of a written file, read from the first one on. */
  lemma {:induction false} FileBackUnchangedIff(msgs: Msgs, timeSize: nat)
    requires timeSize < STRUCT_SIZE && AllWellSized(msgs)
    ensures Readable(FileOf(msgs), timeSize)
    ensures Messages(FileOf(msgs), timeSize) == msgs
      <==> msgs != [] && ExtraSize(msgs[|msgs| - 1]) == 0 && AllConsistent(msgs)
  {
    hide *;
    WrittenFileDelivers(msgs, timeSize);
    BackUnchangedIff(msgs);
  }

  // ----- the older formats -----

  /** The hardware id a stamp has in memory for the one it has in a 0x101 or 0x103 file. */
  function IdInMemory(id: byte): byte
  {
    if id >= 0x80 then id - 0x80 else 7
  }

  lemma ToggleKeeps(m: seq<byte>)
    requires |m| >= STRUCT_SIZE
    ensures var t := Toggle(m);
      && |t| == |m| && t[24] == IdInMemory(m[24]) && forall j | 0 <= j < |m| && j != 24 :: t[j] == m[j]
  {
  }

  lemma SetExtraKeeps(m: seq<byte>, n: uint32)
    requires |m| >= STRUCT_SIZE
    ensures var r := SetExtraPtr(m, n);
      && ReadLE32(r, 56) == n && forall j | 0 <= j < |m| && !(56 <= j < 60) :: r[j] == m[j]
  {
    Digits32(n);
    hide ByteOf;
  }

  /** The message a structure of an older file stands for, byte by byte. */
  lemma {:induction false} ResolvedBytes(l: Layout, payloads: seq<seq<byte>>, s: seq<byte>)
    requires ShortPayloads(payloads) && |s| == STRUCT_SIZE && ExtraSize(s) <= |payloads|
    ensures var m := Resolved(l, payloads, s);
      && m[STRUCT_SIZE..] == (if ExtraSize(s) == 0 then [] else payloads[ExtraSize(s) - 1])
      && ReadLE32(m, 56) == |m| - STRUCT_SIZE
      && m[30] == (if ExtraSize(s) == 0 then 0 else s[30])
      && m[24] == (if l.Plain? then s[24] else IdInMemory(s[24]))
      && forall j | 0 <= j < STRUCT_SIZE && j != 24 && !IsAnnouncement(j) :: m[j] == s[j]
  {
    hide Toggle, SetExtraPtr, Normalize, ReadLE32, ExtraSize;
    var m := Resolved(Plain, payloads, s);
    if ExtraSize(s) == 0 {
      NormalizeKeeps(s);
      ZeroWord(m);
    } else {
      var data := payloads[ExtraSize(s) - 1];
      var t := SetExtraPtr(s, |data|);
      SetExtraKeeps(s, |data|);
      assert m == t + data && m[..STRUCT_SIZE] == t;
      WordOfFront(m, t);
    }
    ToggleKeeps(m);
    if l.Commented? {
      var r := Toggle(m);
      assert r[STRUCT_SIZE..] == m[STRUCT_SIZE..];
      SameWord(r, m);
    }
  }

  lemma WordOfFront(m: seq<byte>, t: seq<byte>)
    requires |t| == STRUCT_SIZE && t <= m
    ensures ReadLE32(m, 56) == ReadLE32(t, 56)
  {
  }

  lemma SameWord(a: seq<byte>, b: seq<byte>)
    requires |a| == |b| >= STRUCT_SIZE && forall j | 56 <= j < 60 :: a[j] == b[j]
    ensures ReadLE32(a, 56) == ReadLE32(b, 56)
  {
  }

  // ----- version 0x101 -----

  /** A 0x101 file: a setup block to be skipped, structures, and what is left of a time stamp. */
  function SetupFile(setup: seq<byte>, structs: Msgs, stamp: seq<byte>): seq<byte>
    requires |setup| < TWO_32
  {
    MAGIC + LE32(0x101) + (LE32(|setup|) + (setup + (Flatten(structs) + stamp)))
  }

  ghost predicate AllStructs(structs: Msgs)
  {
    forall i | 0 <= i < |structs| :: |structs[i]| == STRUCT_SIZE
  }

  /** A structure with the hardware id it has in memory. */
  function WithIdInMemory(s: seq<byte>): seq<byte>
    requires |s| == STRUCT_SIZE
  {
    s[..24] + [IdInMemory(s[24])] + s[25..]
  }

  ghost function AllWithIdInMemory(structs: Msgs): Msgs
    requires AllStructs(structs)
  {
    if structs == [] then [] else [WithIdInMemory(structs[0])] + AllWithIdInMemory(structs[1..])
  }

  lemma SetupFileOpens(setup: seq<byte>, structs: Msgs, stamp: seq<byte>)
    requires |setup| < TWO_32
    ensures var file := SetupFile(setup, structs, stamp); var loc := 14 + |setup|;
      && FirstPlace(file) == Some(Place(V101, None, loc))
      && loc <= |file| && file[loc..] == Flatten(structs) + stamp
  {
    hide LE32, Flatten, WordAt;
    var file := SetupFile(setup, structs, stamp);
    var rest := setup + (Flatten(structs) + stamp);
    FrontOf(file, MAGIC + LE32(0x101), LE32(|setup|) + rest);
    HoldsParts(file, 0, MAGIC, LE32(0x101));
    HoldsParts(file, 10, LE32(|setup|), rest);
    HoldsWord(file, 6, 0x101);
    HoldsWord(file, 10, |setup|);
    assert file[10..] == LE32(|setup|) + rest;
    assert file[14..] == rest;
    assert file[14 + |setup|..] == rest[|setup|..];
  }

  lemma ReadSetupStruct(file: seq<byte>, p: Place, s: seq<byte>, rest: seq<byte>, buffer: seq<byte>)
    requires p.version == V101 && |s| == STRUCT_SIZE && |buffer| >= STRUCT_SIZE
    requires p.loc <= |file| && file[p.loc..] == s + rest
    ensures StructAt(file, p.loc, buffer) == s && KnownAt(file, p, s)
    ensures ReadWhole(file, p, s) == Message(WithIdInMemory(s), p.loc + STRUCT_SIZE)
    ensures p.loc + STRUCT_SIZE <= |file| && file[p.loc + STRUCT_SIZE..] == rest
    ensures |file| == p.loc + STRUCT_SIZE + |rest|
  {
    hide StructAt, Toggle;
    StructHere(file, p.loc, s, rest, buffer);
    ToggleKeeps(s);
    assert Toggle(s) == WithIdInMemory(s);
  }

  lemma {:induction false} ScanSetup(
      file: seq<byte>, timeSize: nat, p: Place, structs: Msgs, stamp: seq<byte>, buffer: seq<byte>, first: bool)
    requires |stamp| <= timeSize < STRUCT_SIZE && |buffer| >= STRUCT_SIZE && p.version == V101 && AllStructs(structs)
    requires p.loc <= |file| && file[p.loc..] == Flatten(structs) + stamp
    requires first ==> structs != []
    ensures Scan(file, timeSize, p, buffer, first) == Some(AllWithIdInMemory(structs))
    decreases |structs|
  {
    hide Scan, ReadWhole, StructAt, WithIdInMemory, KnownAt;
    if structs == [] {
      EndOfLegacy(file, timeSize, p, buffer);
    } else {
      var s, rest := structs[0], structs[1..];
      assert file[p.loc..] == s + (Flatten(rest) + stamp);
      ReadSetupStruct(file, p, s, Flatten(rest) + stamp, buffer);
      var next, m := p.(loc := p.loc + STRUCT_SIZE), WithIdInMemory(s);
      IdInMemorySize(s);
      ScanSetup(file, timeSize, next, rest, stamp, m, false);
      ScanContinues(file, timeSize, p, buffer, first, m, next.loc, AllWithIdInMemory(rest));
    }
  }

  lemma IdInMemorySize(s: seq<byte>)
    requires |s| == STRUCT_SIZE
    ensures |WithIdInMemory(s)| == STRUCT_SIZE
  {
  }

  /** Reading a 0x101 file delivers every structure behind the setup block, with the hardware id it has in memory. */
  method ReadSetupFile(setup: seq<byte>, structs: Msgs, stamp: seq<byte>, timeSize: nat) returns (msgs: Msgs)
    requires (timeSize == 24 || timeSize == 48) && |stamp| <= timeSize
    requires |setup| < TWO_32 && AllStructs(structs) && structs != []
    ensures msgs == AllWithIdInMemory(structs)
  {
    hide FirstPlace, SetupFile, Scan, AllWithIdInMemory, Flatten;
    var file := SetupFile(setup, structs, stamp);
    SetupFileOpens(setup, structs, stamp);
    ScanSetup(file, timeSize, Place(V101, None, 14 + |setup|), structs, stamp, Zeros(STRUCT_SIZE), true);
    var reader := new VSBIORead(file, timeSize);
    msgs := reader.ReadAll();
  }
}
