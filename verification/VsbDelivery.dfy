/** What the reader hands out is fit for the merger, the splitters and the writer. */
module VsbDelivery {
  import opened Bytes
  import opened VsbStruct
  import opened VsbFormat
  import opened VsbReader
  import opened VsbReading

  /** Size of a message as the merger computes it, from the announced extra length alone. */
  function MessageSize(m: seq<byte>): nat
    requires |m| >= STRUCT_SIZE
  {
    STRUCT_SIZE + ReadLE32(m, EXTRA_PTR_OFFSET)
  }

  ghost predicate Fit(m: seq<byte>)
  {
    WellSized(m) && MessageSize(m) == |m|
  }

  ghost predicate EachFit(msgs: Msgs)
  {
    forall i | 0 <= i < |msgs| :: Fit(msgs[i])
  }

  lemma FitWithExtra(s: seq<byte>, data: seq<byte>)
    requires |s| == STRUCT_SIZE && s[EXTRA_ENABLED_OFFSET] != 0 && ReadLE32(s, EXTRA_PTR_OFFSET) == |data|
    ensures Fit(s + data)
  {
    var m := s + data;
    assert m[..STRUCT_SIZE] == s;
    SameHeader(m, s);
  }

  lemma FitWithEntry(s: seq<byte>, data: seq<byte>)
    requires |s| == STRUCT_SIZE && s[EXTRA_ENABLED_OFFSET] != 0 && |data| < TWO_32
    ensures Fit(SetExtraPtr(s, |data|) + data)
  {
    var t := SetExtraPtr(s, |data|);
    Digits32(|data|);
    assert ReadLE32(t, EXTRA_PTR_OFFSET) == |data|;
    FitWithExtra(t, data);
  }

  lemma FitWithoutExtra(s: seq<byte>)
    requires |s| == STRUCT_SIZE && ExtraSize(s) == 0
    ensures Fit(Normalize(s))
  {
  }

  lemma FitToggled(m: seq<byte>)
    requires Fit(m)
    ensures Fit(Toggle(m))
  {
  }

  lemma ReadIsFit(file: seq<byte>, p: Place, s: seq<byte>)
    requires UsesSection(p.version) || p.version == V104
    requires |s| == STRUCT_SIZE && KnownAt(file, p, s)
    ensures var a := ReadWhole(file, p, s); a.Message? ==> Fit(a.bytes)
  {
    hide Fit, Toggle, SetExtraPtr, Normalize, EntryOffset, WordAt;
    if ExtraSize(s) == 0 {
      FitWithoutExtra(s);
      FitToggled(Normalize(s));
    } else if p.version == V104 {
      var data := Got(file, p.loc + STRUCT_SIZE, ExtraSize(s));
      if p.loc + STRUCT_SIZE + STRUCT_SIZE + ExtraSize(s) <= |file| {
        FitWithExtra(s, data);
      }
    } else {
      var data := EntryData(file, p.section.value, ExtraSize(s));
      FitWithEntry(s, data);
      FitToggled(SetExtraPtr(s, |data|) + data);
    }
  }

  /** Versions 0x102 to 0x104: every message delivered carries exactly the extra data it announces. */
  lemma {:induction false} ScanIsFit(file: seq<byte>, timeSize: nat, p: Place, buffer: seq<byte>, first: bool)
    requires UsesSection(p.version) || p.version == V104
    requires |buffer| >= STRUCT_SIZE
    ensures var scan := Scan(file, timeSize, p, buffer, first);
      scan.Some? ==> EachFit(scan.value)
    decreases first, if p.loc < |file| then |file| - p.loc else 0
  {
    hide Fit, ReadWhole, KnownAt, StructAt;
    if first || p.loc + timeSize < |file| {
      var s := StructAt(file, p.loc, buffer);
      if KnownAt(file, p, s) {
        ReadIsFit(file, p, s);
        var a := ReadWhole(file, p, s);
        if a.Message? {
          ScanIsFit(file, timeSize, p.(loc := a.next), a.bytes, false);
          assert Fit(a.bytes);
        }
      }
    }
  }

  /** The same for what reading a whole file delivers. */
  lemma AllOfIsFit(file: seq<byte>, timeSize: nat)
    requires FirstPlace(file).Some? && FirstPlace(file).value.version != V101 && AllOf(file, timeSize).Some?
    ensures EachFit(AllOf(file, timeSize).value)
  {
    hide Scan, FirstPlace;
    ScanIsFit(file, timeSize, FirstPlace(file).value, Zeros(STRUCT_SIZE), true);
  }

  /** A log file whose messages are determined and carry exactly the extra data they announce. */
  ghost predicate Readable(file: seq<byte>, timeSize: nat)
  {
    AllOf(file, timeSize).Some? && EachFit(AllOf(file, timeSize).value)
  }

  /** The messages of such a file. */
  ghost function Messages(file: seq<byte>, timeSize: nat): (msgs: Msgs)
    requires Readable(file, timeSize)
    ensures EachFit(msgs)
  {
    AllOf(file, timeSize).value
  }

  /** From version 0x102 on the extra data is no condition. */
  lemma {:induction false} ReadableIff(file: seq<byte>, timeSize: nat)
    requires FirstPlace(file).Some? && FirstPlace(file).value.version != V101
    ensures Readable(file, timeSize) <==> AllOf(file, timeSize).Some?
  {
    hide AllOf, FirstPlace;
    if AllOf(file, timeSize).Some? {
      AllOfIsFit(file, timeSize);
    }
  }
}
