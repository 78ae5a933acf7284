/**
  * The VSB file formats as layouts of bytes: what stands at a message location, and what the side section of
  * extra data (EDP) of the older formats holds. These definitions scan from the start and keep no state.
  */
module VsbFormat {
  import opened Bytes
  import opened VsbStruct

  const MAGIC: seq<byte> := [0x69, 0x63, 0x73, 0x62, 0x69, 0x6E]  // "icsbin"
  const HEADER_SIZE: nat := 10
  const EDP_MARK: seq<byte> := [0x45, 0x44, 0x50, 0x5F, 0x53, 0x45, 0x43, 0x54, 0x49, 0x4F, 0x4E, 0]  // "EDP_SECTION"
  const EDP_MARK_SIZE: nat := 12

  datatype Version = Closed | V101 | V102 | V103 | V104

  /** The bytes a read of n bytes at a position gets; fewer near the end of the file. */
  function Got(file: seq<byte>, at: nat, n: nat): (r: seq<byte>)
    ensures |r| <= n
    ensures at + n <= |file| ==> r == file[at..at + n]
    ensures |r| == n || at + |r| >= |file|
  {
    if at >= |file| then [] else if at + n <= |file| then file[at..at + n] else file[at..]
  }

  /** A buffer after such a read: bytes that were not read keep what they held. */
  function Overlay(got: seq<byte>, buffer: seq<byte>): (r: seq<byte>)
    requires |got| <= |buffer|
    ensures |r| == |buffer|
  {
    got + buffer[|got|..]
  }

  /** The structure read at a location into a buffer. */
  function StructAt(file: seq<byte>, loc: nat, stale: seq<byte>): (r: seq<byte>)
    requires |stale| >= STRUCT_SIZE
    ensures |r| == STRUCT_SIZE
  {
    Overlay(Got(file, loc, STRUCT_SIZE), stale[..STRUCT_SIZE])
  }

  // ----- the EDP section: entries of a 32-bit size and that many bytes -----

  function WordAt(file: seq<byte>, at: nat): uint32
  {
    if at + 4 <= |file| then ReadLE32(file, at) else 0
  }

  /** Offset of entry k, counted from 1, found by walking all entries before it. */
  function EntryOffset(file: seq<byte>, start: nat, k: nat): (o: nat)
    ensures o >= start
  {
    if k <= 1 then start
    else
      var p := EntryOffset(file, start, k - 1);
      p + 4 + WordAt(file, p)
  }

  function EntrySize(file: seq<byte>, start: nat, k: nat): uint32
  {
    WordAt(file, EntryOffset(file, start, k))
  }

  predicate HasEntry(file: seq<byte>, start: nat, k: nat)
  {
    k >= 1 && EntryOffset(file, start, k) + 4 + EntrySize(file, start, k) <= |file|
  }

  function EntryData(file: seq<byte>, start: nat, k: nat): seq<byte>
    requires HasEntry(file, start, k)
  {
    var o := EntryOffset(file, start, k);
    file[o + 4..o + 4 + EntrySize(file, start, k)]
  }

  lemma {:induction false} EarlierEntries(file: seq<byte>, start: nat, j: nat, k: nat)
    requires 1 <= j <= k && HasEntry(file, start, k)
    ensures HasEntry(file, start, j)
    decreases k - j
  {
    if j < k {
      EarlierEntries(file, start, j + 1, k);
    }
  }

  /** The file holds these bytes at this place. */
  predicate Holds(file: seq<byte>, at: nat, bytes: seq<byte>)
  {
    at + |bytes| <= |file| && file[at..at + |bytes|] == bytes
  }

  lemma HoldsParts(file: seq<byte>, at: nat, a: seq<byte>, b: seq<byte>)
    requires Holds(file, at, a + b)
    ensures Holds(file, at, a) && Holds(file, at + |a|, b)
  {
    var all := file[at..at + |a + b|];
    assert file[at..at + |a|] == all[..|a|] && file[at + |a|..at + |a| + |b|] == all[|a|..];
  }

  predicate ShortPayloads(payloads: seq<seq<byte>>)
  {
    forall i | 0 <= i < |payloads| :: |payloads[i]| < TWO_32
  }

  /** An EDP section as a list of payloads. */
  function EdpBytes(payloads: seq<seq<byte>>): seq<byte>
    requires ShortPayloads(payloads)
  {
    if payloads == [] then []
    else LE32(|payloads[0]|) + (payloads[0] + EdpBytes(payloads[1..]))
  }

  lemma EntryOffsetShift(file: seq<byte>, start: nat, k: nat)
    requires k >= 1
    ensures EntryOffset(file, start, k + 1) == EntryOffset(file, start + 4 + WordAt(file, start), k)
    decreases k
  {
    if k > 1 {
      EntryOffsetShift(file, start, k - 1);
    }
  }

  lemma SectionHead(file: seq<byte>, start: nat, payloads: seq<seq<byte>>)
    requires ShortPayloads(payloads) && payloads != [] && Holds(file, start, EdpBytes(payloads))
    ensures WordAt(file, start) == |payloads[0]|
    ensures Holds(file, start + 4, payloads[0])
    ensures Holds(file, start + 4 + |payloads[0]|, EdpBytes(payloads[1..]))
  {
    hide EdpBytes, LE32, Holds, WordAt;
    var size := |payloads[0]|;
    EdpHead(payloads);
    HoldsParts(file, start, LE32(size), payloads[0] + EdpBytes(payloads[1..]));
    HoldsParts(file, start + 4, payloads[0], EdpBytes(payloads[1..]));
    HoldsWord(file, start, size);
  }

  lemma EdpHead(payloads: seq<seq<byte>>)
    requires ShortPayloads(payloads) && payloads != []
    ensures EdpBytes(payloads) == LE32(|payloads[0]|) + (payloads[0] + EdpBytes(payloads[1..]))
  {
  }

  lemma HoldsWord(file: seq<byte>, at: nat, x: uint32)
    requires Holds(file, at, LE32(x))
    ensures WordAt(file, at) == x
  {
    hide LE32;
    ReadLE32Of(file, at, x);
  }

  /** Walking a section finds payload k at entry k. */
  lemma {:induction false} WalkFindsPayload(file: seq<byte>, start: nat, payloads: seq<seq<byte>>, k: nat)
    requires ShortPayloads(payloads) && Holds(file, start, EdpBytes(payloads))
    requires 1 <= k <= |payloads|
    ensures HasEntry(file, start, k) && EntryData(file, start, k) == payloads[k - 1]
    decreases k
  {
    hide WordAt, EdpBytes;
    SectionHead(file, start, payloads);
    if k > 1 {
      WalkFindsPayload(file, start + 4 + |payloads[0]|, payloads[1..], k - 1);
      ShiftedEntry(file, start, k - 1);
    }
  }

  lemma ShiftedEntry(file: seq<byte>, start: nat, k: nat)
    requires k >= 1 && HasEntry(file, start + 4 + WordAt(file, start), k)
    ensures HasEntry(file, start, k + 1)
    ensures EntryData(file, start, k + 1) == EntryData(file, start + 4 + WordAt(file, start), k)
  {
    hide WordAt;
    EntryOffsetShift(file, start, k);
  }

  // ----- one read of a message -----

  datatype Attempt = Bad | TooSmall(size: nat) | Message(bytes: seq<byte>, next: nat)

  /** The 0x101 and 0x103 stamps: with the high bit the low bits are the kind, without it they are an index. */
  function Toggle(b: seq<byte>): (r: seq<byte>)
    requires |b| >= STRUCT_SIZE
    ensures |r| == |b|
  {
    var id := b[HARDWARE_ID_OFFSET];
    b[HARDWARE_ID_OFFSET := if id >= 0x80 then id - 0x80 else 7]
  }

  /** Where a reader stands: version, first entry of the EDP section if there is one, and message location. */
  datatype Place = Place(version: Version, section: Option<nat>, loc: nat)

  predicate UsesSection(v: Version)
  {
    v == V102 || v == V103
  }

  /** The extra data a structure refers to exists; the last 32-bit index is one the reader's cursor cannot step past. */
  predicate KnownAt(file: seq<byte>, p: Place, s: seq<byte>)
    requires |s| >= STRUCT_SIZE
  {
    UsesSection(p.version) && ExtraSize(s) > 0 ==>
      p.section.Some? && HasEntry(file, p.section.value, ExtraSize(s)) && ExtraSize(s) < TWO_32 - 1
  }

  /** Reading the message at a place, whose structure is s, into a buffer of the given size. */
  function ReadAt(file: seq<byte>, p: Place, s: seq<byte>, size: nat): (a: Attempt)
    requires p.version != Closed && |s| == STRUCT_SIZE && KnownAt(file, p, s)
    ensures a.Message? ==> |a.bytes| >= STRUCT_SIZE && a.next >= p.loc + STRUCT_SIZE
    ensures a.TooSmall? ==> size < a.size < STRUCT_SIZE + 0x1_0000_0000 && p.loc + STRUCT_SIZE < |file|
  {
    match p.version
    case V101 => Message(Toggle(s), p.loc + STRUCT_SIZE)
    case V102 => ReadAt102(file, p, s, size)
    case V103 => ToggledAttempt(ReadAt102(file, p, s, size))
    case V104 => ReadAt104(file, p.loc, s, size)
  }

  /** Extra data in line, behind its structure. */
  function ReadAt104(file: seq<byte>, loc: nat, s: seq<byte>, size: nat): (a: Attempt)
    requires |s| == STRUCT_SIZE
    ensures a.Message? ==> |a.bytes| >= STRUCT_SIZE && a.next >= loc + STRUCT_SIZE
    ensures a.TooSmall? ==> size < a.size < STRUCT_SIZE + 0x1_0000_0000
  {
    var extra := ExtraSize(s);
    if extra == 0 then Message(Normalize(s), loc + STRUCT_SIZE)
    else if loc + STRUCT_SIZE + STRUCT_SIZE + extra > |file| then Bad
    else if STRUCT_SIZE + extra > size then TooSmall(STRUCT_SIZE + extra)
    else Message(s + Got(file, loc + STRUCT_SIZE, extra), loc + STRUCT_SIZE + extra)
  }

  /** Extra data by index into the EDP section; the length in the structure becomes that of the entry. */
  function ReadAt102(file: seq<byte>, p: Place, s: seq<byte>, size: nat): (a: Attempt)
    requires UsesSection(p.version) && |s| == STRUCT_SIZE && KnownAt(file, p, s)
    ensures a.Message? ==> |a.bytes| >= STRUCT_SIZE && a.next >= p.loc + STRUCT_SIZE
    ensures a.TooSmall? ==> size < a.size < STRUCT_SIZE + 0x1_0000_0000
  {
    if ExtraSize(s) == 0 then Message(Normalize(s), p.loc + STRUCT_SIZE)
    else
      var data := EntryData(file, p.section.value, ExtraSize(s));
      if p.loc + STRUCT_SIZE + STRUCT_SIZE + |data| > |file| then Bad
      else if STRUCT_SIZE + |data| > size then TooSmall(STRUCT_SIZE + |data|)
      else Message(SetExtraPtr(s, |data|) + data, p.loc + STRUCT_SIZE)
  }

  function ToggledAttempt(a: Attempt): Attempt
    requires a.Message? ==> |a.bytes| >= STRUCT_SIZE
  {
    if a.Message? then Message(Toggle(a.bytes), a.next) else a
  }

  /** With the size asked for, a second attempt succeeds and fills that size exactly. */
  lemma RetrySucceeds(file: seq<byte>, p: Place, s: seq<byte>, size: nat, bigger: nat)
    requires p.version != Closed && |s| == STRUCT_SIZE && KnownAt(file, p, s)
    requires ReadAt(file, p, s, size).TooSmall?
    requires bigger >= ReadAt(file, p, s, size).size
    ensures ReadAt(file, p, s, bigger).Message?
    ensures |ReadAt(file, p, s, bigger).bytes| == ReadAt(file, p, s, size).size > size
  {
  }

  /** Size of a buffer that holds any message. */
  const AMPLE: nat := STRUCT_SIZE + 0x1_0000_0000

  /** The attempt that is left when the buffer is no limit. */
  function ReadWhole(file: seq<byte>, p: Place, s: seq<byte>): (a: Attempt)
    requires p.version != Closed && |s| == STRUCT_SIZE && KnownAt(file, p, s)
    ensures !a.TooSmall?
    ensures a.Message? ==> |a.bytes| >= STRUCT_SIZE && a.next >= p.loc + STRUCT_SIZE
  {
    ReadAt(file, p, s, AMPLE)
  }

  /** Short of the wish for a bigger buffer, the buffer plays no part. */
  lemma BufferPlaysNoPart(file: seq<byte>, p: Place, s: seq<byte>, size: nat)
    requires p.version != Closed && |s| == STRUCT_SIZE && KnownAt(file, p, s)
    ensures !ReadAt(file, p, s, size).TooSmall? ==> ReadAt(file, p, s, size) == ReadWhole(file, p, s)
  {
  }
}
