/** Files of versions 0x102 and 0x103: structures that refer by index to a section of extra data in front of them. */
module VsbLegacy {
  import opened Bytes
  import opened VsbStruct
  import opened VsbFormat
  import opened VsbReader

  /** A 0x103 file also has a comment of 16-bit characters, 16 bytes more, and a time stamp behind its last message. */
  datatype Layout = Plain | Commented(comment: seq<byte>, times: seq<byte>, stamp: seq<byte>) {
    predicate Valid(timeSize: nat) {
      Commented? ==>
        |comment| % 2 == 0 && 20 + |comment| < TWO_32 && |times| == 16 && |stamp| <= timeSize
    }

    function Number(): uint32 { if Plain? then 0x102 else 0x103 }

    function Version(): Version { if Plain? then V102 else V103 }

    function Preamble(timeSize: nat): seq<byte>
      requires Valid(timeSize)
    {
      if Plain? then [] else LE32(|comment| / 2) + (comment + times)
    }

    function Trailer(): seq<byte> { if Plain? then [] else stamp }
  }

  function SectionBytes(payloads: seq<seq<byte>>): seq<byte>
    requires Describable(payloads)
  {
    LE32(EDP_MARK_SIZE + |EdpBytes(payloads)|) + EDP_MARK + EdpBytes(payloads)
  }

  /** A file with the given extra data and message structures. */
  function LegacyFile(l: Layout, timeSize: nat, payloads: seq<seq<byte>>, structs: seq<seq<byte>>): seq<byte>
    requires l.Valid(timeSize) && Describable(payloads)
  {
    MAGIC + LE32(l.Number()) + SectionBytes(payloads) + (l.Preamble(timeSize) + (Flatten(structs) + l.Trailer()))
  }

  predicate Describable(payloads: seq<seq<byte>>)
  {
    ShortPayloads(payloads) && EDP_MARK_SIZE + |EdpBytes(payloads)| < TWO_32
  }

  /** Structures whose indices are all in the section, in any order and as often as they like. */
  ghost predicate RefersTo(payloads: seq<seq<byte>>, structs: seq<seq<byte>>)
  {
    && |payloads| < TWO_32 - 1
    && forall i | 0 <= i < |structs| :: |structs[i]| == STRUCT_SIZE && ExtraSize(structs[i]) <= |payloads|
  }

  /** The message a structure stands for. */
  function Resolved(l: Layout, payloads: seq<seq<byte>>, s: seq<byte>): (m: seq<byte>)
    requires ShortPayloads(payloads) && |s| == STRUCT_SIZE && ExtraSize(s) <= |payloads|
    ensures |m| >= STRUCT_SIZE
  {
    var m :=
      if ExtraSize(s) == 0 then Normalize(s)
      else SetExtraPtr(s, |payloads[ExtraSize(s) - 1]|) + payloads[ExtraSize(s) - 1];
    if l.Plain? then m else Toggle(m)
  }

  /** A message is delivered when the bytes behind its structure make up for its extra data and one structure more. */
  predicate RoomBehind(payloads: seq<seq<byte>>, s: seq<byte>, behind: nat)
    requires |s| == STRUCT_SIZE && ExtraSize(s) <= |payloads|
  {
    ExtraSize(s) == 0 || STRUCT_SIZE + |payloads[ExtraSize(s) - 1]| <= behind
  }

  /** The messages up to the first one that is taken for corrupted. */
  ghost function ReadsLegacy(l: Layout, payloads: seq<seq<byte>>, structs: seq<seq<byte>>): seq<seq<byte>>
    requires ShortPayloads(payloads) && RefersTo(payloads, structs)
  {
    if structs == [] || !RoomBehind(payloads, structs[0], STRUCT_SIZE * (|structs| - 1) + |l.Trailer()|) then []
    else [Resolved(l, payloads, structs[0])] + ReadsLegacy(l, payloads, structs[1..])
  }

  lemma {:induction false} FlattenStructs(structs: seq<seq<byte>>)
    requires forall i | 0 <= i < |structs| :: |structs[i]| == STRUCT_SIZE
    ensures |Flatten(structs)| == STRUCT_SIZE * |structs|
  {
    if structs != [] {
      FlattenStructs(structs[1..]);
    }
  }

  lemma SectionParts(file: seq<byte>, payloads: seq<seq<byte>>)
    requires Describable(payloads) && Holds(file, SECTION_SIZE_OFFSET, SectionBytes(payloads))
    ensures var size := EDP_MARK_SIZE + |EdpBytes(payloads)|;
      && Holds(file, 10, LE32(size)) && Holds(file, 14, EDP_MARK) && Holds(file, 26, EdpBytes(payloads))
      && |SectionBytes(payloads)| == 4 + size
  {
    hide LE32, EdpBytes, Holds;
    var head := LE32(EDP_MARK_SIZE + |EdpBytes(payloads)|);
    HoldsParts(file, 10, head + EDP_MARK, EdpBytes(payloads));
    HoldsParts(file, 10, head, EDP_MARK);
  }

  lemma FrontOf(file: seq<byte>, a: seq<byte>, b: seq<byte>)
    requires file == a + b
    ensures Holds(file, 0, a) && Holds(file, |a|, b) && file[|a|..] == b
  {
  }

  lemma LegacyFileParts(l: Layout, timeSize: nat, payloads: seq<seq<byte>>, structs: seq<seq<byte>>)
    requires l.Valid(timeSize) && Describable(payloads)
    ensures var file := LegacyFile(l, timeSize, payloads, structs); var end := 26 + |EdpBytes(payloads)|;
      && Holds(file, 0, MAGIC) && Holds(file, 6, LE32(l.Number()))
      && Holds(file, SECTION_SIZE_OFFSET, SectionBytes(payloads))
      && end <= |file| && file[end..] == l.Preamble(timeSize) + (Flatten(structs) + l.Trailer())
  {
    hide LE32, EdpBytes, Holds, LegacyFile, Flatten;
    var file, front := LegacyFile(l, timeSize, payloads, structs), MAGIC + LE32(l.Number());
    var rest := l.Preamble(timeSize) + (Flatten(structs) + l.Trailer());
    LegacyFileFront(l, timeSize, payloads, structs);
    FrontOf(file, front + SectionBytes(payloads), rest);
    HoldsParts(file, 0, front, SectionBytes(payloads));
    HoldsParts(file, 0, MAGIC, LE32(l.Number()));
  }

  lemma LegacyFileFront(l: Layout, timeSize: nat, payloads: seq<seq<byte>>, structs: seq<seq<byte>>)
    requires l.Valid(timeSize) && Describable(payloads)
    ensures LegacyFile(l, timeSize, payloads, structs)
         == (MAGIC + LE32(l.Number()) + SectionBytes(payloads))
            + (l.Preamble(timeSize) + (Flatten(structs) + l.Trailer()))
  {
  }

  /** Behind the section a 0x102 file has its messages, a 0x103 file first what the length in front of it says. */
  lemma MessagesStart(l: Layout, timeSize: nat, file: seq<byte>, end: nat, rest: seq<byte>)
    requires l.Valid(timeSize) && end <= |file| && file[end..] == l.Preamble(timeSize) + rest
    ensures l.Commented? ==> end + 4 <= |file| && 2 * WordAt(file, end) == |l.comment|
    ensures var loc := end + |l.Preamble(timeSize)|;
      loc <= |file| && file[loc..] == rest
  {
    var pre := l.Preamble(timeSize);
    assert file[end..][|pre|..] == rest;
    if l.Commented? {
      var head := LE32(|l.comment| / 2);
      assert file[end..end + 4] == (pre + rest)[..4] == head;
      HoldsWord(file, end, |l.comment| / 2);
    }
  }

  lemma VersionFound(l: Layout, file: seq<byte>)
    requires Holds(file, 0, MAGIC) && Holds(file, 6, LE32(l.Number()))
    ensures VersionOf(file) == l.Version()
  {
    hide LE32, WordAt;
    HoldsWord(file, 6, l.Number());
  }

  lemma SectionFound(file: seq<byte>, payloads: seq<seq<byte>>)
    requires Describable(payloads) && Holds(file, SECTION_SIZE_OFFSET, SectionBytes(payloads))
    ensures HasSection(file) && EntriesStart(file) == 26 && MessageStart102(file) == 26 + |EdpBytes(payloads)|
    ensures Holds(file, 26, EdpBytes(payloads))
  {
    hide LE32, WordAt, EdpBytes, SectionBytes;
    SectionParts(file, payloads);
    HoldsWord(file, 10, EDP_MARK_SIZE + |EdpBytes(payloads)|);
    assert Got(file, SECTION_OFFSET, EDP_MARK_SIZE) == EDP_MARK;
    assert Overlay(EDP_MARK, Zeros(EDP_MARK_SIZE)) == EDP_MARK;
  }

  lemma PlaceFound(l: Layout, timeSize: nat, file: seq<byte>, end: nat, rest: seq<byte>) returns (p: Place)
    requires l.Valid(timeSize) && 26 <= end <= |file| && VersionOf(file) == l.Version()
    requires HasSection(file) && EntriesStart(file) == 26 && MessageStart102(file) == end
    requires file[end..] == l.Preamble(timeSize) + rest
    ensures FirstPlace(file) == Some(p) && p.version == l.Version() && p.section == Some(26)
    ensures p.loc <= |file| && file[p.loc..] == rest
  {
    hide VersionOf, HasSection, EntriesStart, MessageStart102, WordAt, LE32;
    MessagesStart(l, timeSize, file, end, rest);
    p := Place(l.Version(), Some(26), end + |l.Preamble(timeSize)|);
  }

  /** Opening such a file ends at its first entry and at its first message. */
  lemma LegacyFileOpens(l: Layout, timeSize: nat, payloads: seq<seq<byte>>, structs: seq<seq<byte>>)
    returns (p: Place)
    requires l.Valid(timeSize) && Describable(payloads)
    ensures var file := LegacyFile(l, timeSize, payloads, structs);
      && FirstPlace(file) == Some(p) && p.version == l.Version() && p.section.Some?
      && Holds(file, p.section.value, EdpBytes(payloads))
      && p.loc <= |file| && file[p.loc..] == Flatten(structs) + l.Trailer()
  {
    assert ShortPayloads(payloads);
    hide *;
    var file := LegacyFile(l, timeSize, payloads, structs);
    LegacyFileParts(l, timeSize, payloads, structs);
    VersionFound(l, file);
    SectionFound(file, payloads);
    p := PlaceFound(l, timeSize, file, 26 + |EdpBytes(payloads)|, Flatten(structs) + l.Trailer());
  }

  lemma StructHere(file: seq<byte>, loc: nat, s: seq<byte>, rest: seq<byte>, buffer: seq<byte>)
    requires |s| == STRUCT_SIZE && |buffer| >= STRUCT_SIZE && loc <= |file| && file[loc..] == s + rest
    ensures StructAt(file, loc, buffer) == s
    ensures |file| == loc + STRUCT_SIZE + |rest| && file[loc + STRUCT_SIZE..] == rest
  {
    assert file[loc..loc + STRUCT_SIZE] == file[loc..][..STRUCT_SIZE] == s;
    assert file[loc + STRUCT_SIZE..] == file[loc..][STRUCT_SIZE..] == rest;
  }

  lemma ReadFirstLegacy(
      l: Layout, file: seq<byte>, p: Place, payloads: seq<seq<byte>>, s: seq<byte>, rest: seq<byte>, buffer: seq<byte>)
    requires p.version == l.Version() && p.section.Some? && |s| == STRUCT_SIZE && |buffer| >= STRUCT_SIZE
    requires ShortPayloads(payloads) && ExtraSize(s) <= |payloads| < TWO_32 - 1
    requires Holds(file, p.section.value, EdpBytes(payloads))
    requires p.loc <= |file| && file[p.loc..] == s + rest
    ensures StructAt(file, p.loc, buffer) == s && KnownAt(file, p, s)
    ensures ReadWhole(file, p, s) ==
      (if RoomBehind(payloads, s, |rest|) then Message(Resolved(l, payloads, s), p.loc + STRUCT_SIZE) else Bad)
    ensures p.loc + STRUCT_SIZE <= |file| && file[p.loc + STRUCT_SIZE..] == rest
  {
    hide SetExtraPtr, EntryOffset, EntrySize, StructAt, Normalize, Holds, EdpBytes, ExtraSize, Toggle;
    StructHere(file, p.loc, s, rest, buffer);
    if ExtraSize(s) > 0 {
      WalkFindsPayload(file, p.section.value, payloads, ExtraSize(s));
    }
  }

  lemma {:induction false} ScanLegacy(
      l: Layout, file: seq<byte>, timeSize: nat, p: Place, payloads: seq<seq<byte>>, structs: seq<seq<byte>>,
      buffer: seq<byte>, first: bool)
    requires l.Valid(timeSize) && timeSize < STRUCT_SIZE && |buffer| >= STRUCT_SIZE
    requires p.version == l.Version() && p.section.Some? && ShortPayloads(payloads) && RefersTo(payloads, structs)
    requires Holds(file, p.section.value, EdpBytes(payloads))
    requires p.loc <= |file| && file[p.loc..] == Flatten(structs) + l.Trailer()
    requires first ==> structs != []
    ensures Scan(file, timeSize, p, buffer, first) == Some(ReadsLegacy(l, payloads, structs))
    decreases |structs|
  {
    hide Scan, ReadWhole, StructAt, Resolved, RoomBehind, Holds, EdpBytes;
    if structs == [] {
      EndOfLegacy(file, timeSize, p, buffer);
    } else {
      var s, rest := structs[0], structs[1..];
      var behind := Flatten(rest) + l.Trailer();
      FlattenStructs(rest);
      assert file[p.loc..] == s + behind;
      ReadFirstLegacy(l, file, p, payloads, s, behind, buffer);
      hide Flatten;
      if RoomBehind(payloads, s, |behind|) {
        var next := p.(loc := p.loc + STRUCT_SIZE);
        var m := Resolved(l, payloads, s);
        ScanLegacy(l, file, timeSize, next, payloads, rest, m, false);
        ScanContinues(file, timeSize, p, buffer, first, m, next.loc, ReadsLegacy(l, payloads, rest));
      } else {
        ScanEnds(file, timeSize, p, buffer, first);
      }
    }
  }

  lemma EndOfLegacy(file: seq<byte>, timeSize: nat, p: Place, buffer: seq<byte>)
    requires |buffer| >= STRUCT_SIZE && p.version != Closed && p.loc + timeSize >= |file|
    ensures Scan(file, timeSize, p, buffer, false) == Some([])
  {
  }

  /** Reading such a file: every index gets its own payload, whatever the order of the indices. */
  method ReadLegacyFile(l: Layout, payloads: seq<seq<byte>>, structs: seq<seq<byte>>, timeSize: nat)
    returns (msgs: seq<seq<byte>>)
    requires timeSize == 24 || timeSize == 48
    requires l.Valid(timeSize) && Describable(payloads) && RefersTo(payloads, structs) && structs != []
    ensures msgs == ReadsLegacy(l, payloads, structs)
  {
    hide FirstPlace, LegacyFile, Scan, ReadsLegacy, Holds, EdpBytes, Flatten;
    var file := LegacyFile(l, timeSize, payloads, structs);
    ghost var p := LegacyFileOpens(l, timeSize, payloads, structs);
    ScanLegacy(l, file, timeSize, p, payloads, structs, Zeros(STRUCT_SIZE), true);
    var reader := new VSBIORead(file, timeSize);
    msgs := reader.ReadAll();
  }

  /** Every structure has room for its payload behind it. */
  ghost predicate AllHaveRoom(payloads: seq<seq<byte>>, structs: seq<seq<byte>>, trailer: nat)
    requires RefersTo(payloads, structs)
  {
    forall i | 0 <= i < |structs| :: RoomBehind(payloads, structs[i], STRUCT_SIZE * (|structs| - 1 - i) + trailer)
  }

  /** When every message is far enough from the end of the file, all of them come back. */
  lemma {:induction false} AllDelivered(l: Layout, payloads: seq<seq<byte>>, structs: seq<seq<byte>>)
    requires ShortPayloads(payloads) && RefersTo(payloads, structs)
    ensures var msgs := ReadsLegacy(l, payloads, structs);
      && |msgs| <= |structs|
      && (|msgs| == |structs| <==> AllHaveRoom(payloads, structs, |l.Trailer()|))
      && (forall i | 0 <= i < |msgs| :: msgs[i] == Resolved(l, payloads, structs[i]))
  {
    hide RoomBehind, Resolved;
    if structs != [] {
      var rest := structs[1..];
      AllDelivered(l, payloads, rest);
      RoomOfRest(payloads, structs, |l.Trailer()|);
    }
  }

  lemma RoomOfRest(payloads: seq<seq<byte>>, structs: seq<seq<byte>>, trailer: nat)
    requires RefersTo(payloads, structs) && structs != []
    ensures RefersTo(payloads, structs[1..])
    ensures AllHaveRoom(payloads, structs, trailer)
       <==> && RoomBehind(payloads, structs[0], STRUCT_SIZE * (|structs| - 1) + trailer)
            && AllHaveRoom(payloads, structs[1..], trailer)
  {
    hide RoomBehind;
    var rest := structs[1..];
    if AllHaveRoom(payloads, rest, trailer) {
      assert forall i | 1 <= i < |structs| :: structs[i] == rest[i - 1];
    }
    if AllHaveRoom(payloads, structs, trailer) {
      assert forall i | 0 <= i < |rest| :: rest[i] == structs[i + 1];
    }
  }
}
