/** The reader of VSB files: a cursor over the messages and a second, cached one over the EDP section. */
module VsbReader {
  import opened Bytes
  import opened VsbStruct
  import opened VsbFormat

  datatype Condition = Success | EndOfFile | Error | BufferTooSmall | InvalidPayloadSize

  /** File size assumed until the file is open. */
  const INITIAL_FILE_SIZE: nat := 50000

  function Resized(b: seq<byte>, n: nat): (r: seq<byte>)
    ensures |r| == n
  {
    if n <= |b| then b[..n] else b + Zeros(n - |b|)
  }

  // ----- where the messages of a file begin -----

  function VersionOf(file: seq<byte>): Version
  {
    if !Holds(file, 0, MAGIC) || |file| < HEADER_SIZE then Closed
    else if WordAt(file, 6) == 0x101 then V101
    else if WordAt(file, 6) == 0x102 then V102
    else if WordAt(file, 6) == 0x103 then V103
    else if WordAt(file, 6) == 0x104 then V104
    else Closed
  }

  const SECTION_SIZE_OFFSET: nat := HEADER_SIZE
  const SECTION_OFFSET: nat := HEADER_SIZE + 4

  predicate HasSection(file: seq<byte>)
  {
    && WordAt(file, SECTION_SIZE_OFFSET) >= EDP_MARK_SIZE
    && Overlay(Got(file, SECTION_OFFSET, EDP_MARK_SIZE), Zeros(EDP_MARK_SIZE)) == EDP_MARK
  }

  /** Offset of the first EDP entry. */
  function EntriesStart(file: seq<byte>): nat
  {
    SECTION_OFFSET + |Got(file, SECTION_OFFSET, EDP_MARK_SIZE)|
  }

  function MessageStart102(file: seq<byte>): nat
  {
    if WordAt(file, SECTION_SIZE_OFFSET) == 0 then SECTION_OFFSET
    else if HasSection(file) then EntriesStart(file) + WordAt(file, SECTION_SIZE_OFFSET) - EDP_MARK_SIZE
    else SECTION_SIZE_OFFSET
  }

  function MessageStart(v: Version, file: seq<byte>): nat
    requires v != Closed
  {
    match v
    case V101 => SECTION_OFFSET + WordAt(file, HEADER_SIZE)
    case V102 => MessageStart102(file)
    case V103 => MessageStart102(file) + 20 + 2 * WordAt(file, MessageStart102(file))
    case V104 => HEADER_SIZE
  }

  /** The fields in front of the messages are all in the file, and the comment length does not wrap in 32 bits. */
  predicate Openable(v: Version, file: seq<byte>)
  {
    match v
    case Closed => false
    case V101 | V102 => |file| >= SECTION_OFFSET
    case V103 =>
      && |file| >= SECTION_OFFSET && MessageStart102(file) + 4 <= |file|
      && 20 + 2 * WordAt(file, MessageStart102(file)) < TWO_32
    case V104 => true
  }

  /** The place of the first message. */
  function FirstPlace(file: seq<byte>): (p: Option<Place>)
    ensures p.Some? ==> p.value.version != Closed
  {
    var v := VersionOf(file);
    if !Openable(v, file) then None
    else
      var section := if UsesSection(v) && HasSection(file) then Some(EntriesStart(file)) else None;
      Some(Place(v, section, MessageStart(v, file)))
  }

  class VSBIORead {
    const file: seq<byte>
    const timeSize: nat  // sizeof(VSBSpyMsgTime): 24 or 48, by platform
    var filePtr: nat
    var fileType: Version
    var msgStart: nat
    var msgLocation: nat
    var fileSize: nat
    var edpStart: nat
    var edpLocation: nat
    var edpIndex: uint32
    var bufferSizeRequired: nat
    var message: seq<byte>
    ghost var sectionFound: bool

    constructor (file: seq<byte>, timeSize: nat)
      requires timeSize == 24 || timeSize == 48
      ensures this.file == file && this.timeSize == timeSize
      ensures Valid() && IsNew()
    {
      this.file, this.timeSize := file, timeSize;
      filePtr, fileType, msgLocation, fileSize := 0, Closed, 0, INITIAL_FILE_SIZE;
      msgStart, edpStart, edpLocation, edpIndex, bufferSizeRequired := *, *, *, *, *;
      message, sectionFound := [], false;
    }

    ghost predicate IsNew()
      reads this
    {
      fileType == Closed && msgLocation == 0 && fileSize == INITIAL_FILE_SIZE && filePtr == 0 && !sectionFound
    }

    /** The file pointer stands at the next message, or both are past the end. */
    ghost predicate Synced()
      reads this
    {
      filePtr == msgLocation || (filePtr >= |file| && msgLocation >= |file|)
    }

    /** The cached position is the one a walk from the start of the section finds. */
    ghost predicate CursorAgrees()
      reads this
    {
      sectionFound ==> 1 <= edpIndex && edpLocation == EntryOffset(file, edpStart, edpIndex)
    }

    ghost predicate Ready()
      reads this
    {
      fileType != Closed && fileSize == |file| && Synced() && CursorAgrees()
    }

    ghost function Here(): Place
      reads this
    {
      Place(fileType, if UsesSection(fileType) && sectionFound then Some(edpStart) else None, msgLocation)
    }

    ghost predicate Valid()
      reads this
    {
      timeSize < STRUCT_SIZE && (fileType == Closed ==> IsNew())
    }

    /** Where the next message is read: for a file not yet open, the place its header tells. */
    ghost function Where(): Option<Place>
      reads this
    {
      if IsNew() then FirstPlace(file) else if Ready() then Some(Here()) else None
    }

    /** The state and buffer after a read at place p agree with the file. */
    ghost predicate Follows(a: Attempt, r: Condition, s: seq<byte>, p: Place)
      reads this
    {
      match a
      case Bad => r == InvalidPayloadSize
      case TooSmall(n) =>
        r == BufferTooSmall && bufferSizeRequired == n && s <= message && Ready() && Here() == p
      case Message(b, next) =>
        r == Success && bufferSizeRequired == |b| && b <= message && Ready() && Here() == p.(loc := next)
    }

    method Read(at: nat, count: nat)
      requires at + count <= |message|
      modifies `message, `filePtr
      ensures filePtr == old(filePtr) + |Got(file, old(filePtr), count)|
      ensures |message| == old(|message|)
      ensures message[at..] == Overlay(Got(file, old(filePtr), count), old(message)[at..])
      ensures message[..at] == old(message)[..at]
    {
      var got := Got(file, filePtr, count);
      message := message[..at] + got + message[at + |got|..];
      filePtr := filePtr + |got|;
    }

    /** A 32-bit read into a variable that held something else. */
    method ReadWord(stale: uint32) returns (v: uint32)
      modifies `filePtr
      ensures filePtr == old(filePtr) + |Got(file, old(filePtr), 4)|
      ensures old(filePtr) + 4 <= |file| ==> v == WordAt(file, old(filePtr))
    {
      var got := Got(file, filePtr, 4);
      v := ReadLE32(Overlay(got, LE32(stale)), 0);
      filePtr := filePtr + |got|;
    }

    /** The entry asked for is in the section; the last index a 32-bit cursor can step past is left out. */
    ghost predicate Reachable(requested: uint32)
      reads this
    {
      sectionFound && HasEntry(file, edpStart, requested) && requested < TWO_32 - 1
    }

    /** Moves the cursor to an entry: on from where it is, or from the start when the entry lies behind. */
    method SeekEntry(requested: uint32)
      modifies `filePtr, `edpLocation, `edpIndex
      ensures old(CursorAgrees()) && Reachable(requested) ==>
        edpIndex == requested && edpLocation == filePtr == EntryOffset(file, edpStart, requested)
    {
      hide EntryOffset, ReadLE32, WordAt;
      ghost var good := CursorAgrees() && Reachable(requested);
      WalkStart(file, edpStart);
      filePtr := edpLocation;
      if requested < edpIndex {
        filePtr := edpStart;
        edpLocation := filePtr;
        edpIndex := 1;
      }
      if requested > edpIndex {
        var edpSize: uint32 := *;
        while requested != edpIndex
          invariant edpIndex <= requested
          invariant good ==> Reachable(requested) && 1 <= edpIndex
          invariant good ==> edpLocation == filePtr == EntryOffset(file, edpStart, edpIndex)
          decreases requested - edpIndex
        {
          if good {
            EarlierEntries(file, edpStart, edpIndex, requested);
            WalkStep(file, edpStart, edpIndex);
          }
          edpSize := ReadWord(edpSize);
          filePtr := filePtr + edpSize;
          edpLocation := filePtr;
          edpIndex := edpIndex + 1;
        }
      }
    }

    /** The cached cursor delivers what a walk from the start would, for indices in any order. */
    method GetEDP(requested: uint32) returns (r: Condition)
      requires |message| >= STRUCT_SIZE
      modifies `message, `filePtr, `edpLocation, `edpIndex, `bufferSizeRequired
      ensures |message| == old(|message|) && bufferSizeRequired >= STRUCT_SIZE
      ensures r == BufferTooSmall ==> |message| < bufferSizeRequired < AMPLE
      ensures old(CursorAgrees()) && Reachable(requested) ==>
        CursorAgrees() && Served(EntryData(file, edpStart, requested), requested, r, old(message))
    {
      hide EntryOffset, EntryData, EntrySize, HasEntry, WordAt, Got, Overlay, ReadLE32, SetExtraPtr;
      ghost var good := CursorAgrees() && Reachable(requested);
      SeekEntry(requested);
      if good {
        EntryHere(file, edpStart, requested);
      }
      var edpSize: uint32 := *;
      edpSize := ReadWord(edpSize);
      bufferSizeRequired := STRUCT_SIZE + edpSize;
      if msgLocation + bufferSizeRequired > fileSize {
        return InvalidPayloadSize;
      }
      if STRUCT_SIZE + edpSize > |message| {
        filePtr := edpLocation;
        return BufferTooSmall;
      }
      ExtraPtrInStruct(message, edpSize);
      message := SetExtraPtr(message, edpSize);
      ghost var withPtr, got := message, Got(file, filePtr, edpSize);
      Read(STRUCT_SIZE, edpSize);
      Filled(withPtr, message, got);
      edpLocation := edpLocation + edpSize + 4;
      edpIndex := (edpIndex + 1) % 0x1_0000_0000;
      filePtr := msgLocation;
      r := Success;
    }

    /** Outcome of a request: the cursor stands at the entry, or behind it once its data has been handed out. */
    ghost predicate Served(data: seq<byte>, requested: uint32, r: Condition, before: seq<byte>)
      requires |before| >= STRUCT_SIZE && |data| < 0x1_0000_0000
      reads this
    {
      var need := STRUCT_SIZE + |data|;
      && bufferSizeRequired == need
      && if msgLocation + need > fileSize then r == InvalidPayloadSize && edpIndex == requested
         else if need > |message| then r == BufferTooSmall && edpIndex == requested && message == before
         else
           && r == Success && edpIndex == requested + 1 && filePtr == msgLocation
           && SetExtraPtr(before[..STRUCT_SIZE], |data|) + data <= message
    }

    // ----- opening -----

    method Init101()
      requires |file| >= HEADER_SIZE ==> filePtr == HEADER_SIZE
      modifies `filePtr, `fileType, `msgStart, `msgLocation
      ensures fileType == V101
      ensures Openable(V101, file) ==> filePtr == msgLocation == MessageStart(V101, file)
    {
      fileType := V101;
      var vs3size: uint32 := *;
      vs3size := ReadWord(vs3size);
      filePtr := filePtr + vs3size;
      msgLocation := filePtr;
      msgStart := msgLocation;
    }

    method Init102()
      requires (|file| >= HEADER_SIZE ==> filePtr == HEADER_SIZE) && !sectionFound
      modifies `filePtr, `fileType, `msgStart, `msgLocation, `edpStart, `edpLocation, `edpIndex, `sectionFound
      ensures fileType == V102 && CursorAgrees()
      ensures Openable(V102, file) ==>
        && filePtr == msgLocation == MessageStart102(file)
        && sectionFound == HasSection(file)
        && (sectionFound ==> edpStart == EntriesStart(file))
    {
      fileType := V102;
      edpIndex := 1;
      var locationBefore := filePtr;
      var edpSize: uint32 := *;
      edpSize := ReadWord(edpSize);
      if edpSize > 0 {
        var got := Got(file, filePtr, EDP_MARK_SIZE);
        filePtr := filePtr + |got|;
        if edpSize >= EDP_MARK_SIZE && Overlay(got, Zeros(EDP_MARK_SIZE)) == EDP_MARK {
          edpLocation := filePtr;
          edpStart := edpLocation;
          sectionFound := true;
          filePtr := filePtr + (edpSize - EDP_MARK_SIZE);
        } else {
          filePtr := locationBefore;
        }
      }
      msgLocation := filePtr;
      msgStart := msgLocation;
    }

    method Init103()
      requires (|file| >= HEADER_SIZE ==> filePtr == HEADER_SIZE) && !sectionFound
      modifies `filePtr, `fileType, `msgStart, `msgLocation, `edpStart, `edpLocation, `edpIndex, `sectionFound
      ensures fileType == V103 && CursorAgrees()
      ensures Openable(V103, file) ==>
        && filePtr == msgLocation == MessageStart(V103, file)
        && sectionFound == HasSection(file)
        && (sectionFound ==> edpStart == EntriesStart(file))
    {
      hide HasSection, EntriesStart, MessageStart102, EntryOffset, WordAt;
      Init102();
      fileType := V103;
      var commentLength: uint32 := *;
      commentLength := ReadWord(commentLength);
      if commentLength > 0 {
        filePtr := filePtr + commentLength * 2;
      }
      filePtr := filePtr + 16;
      msgLocation := msgLocation + (20 + commentLength * 2 % 0x1_0000_0000) % 0x1_0000_0000;
      msgStart := msgLocation;
    }

    method Init104()
      requires |file| >= HEADER_SIZE ==> filePtr == HEADER_SIZE
      modifies `fileType, `msgStart, `msgLocation
      ensures fileType == V104 && filePtr == msgLocation
      ensures |file| >= HEADER_SIZE ==> msgLocation == MessageStart(V104, file)
    {
      fileType := V104;
      msgLocation := filePtr;
      msgStart := msgLocation;
    }

    method Open() returns (ok: bool)
      requires IsNew()
      modifies this
      ensures message == old(message)
      ensures !ok ==> IsNew()
      ensures !Holds(file, 0, MAGIC) ==> !ok
      ensures |file| >= HEADER_SIZE && VersionOf(file) == Closed ==> !ok
      ensures VersionOf(file) != Closed ==> ok
      ensures ok ==> fileType != Closed
      ensures FirstPlace(file).Some? ==> Ready() && FirstPlace(file) == Some(Here())
    {
      var id := Got(file, filePtr, 6);
      filePtr := filePtr + |id|;
      if |id| != 6 || id != MAGIC {
        filePtr := 0;
        return false;
      }
      var fileVersion: uint32 := *;
      fileVersion := ReadWord(fileVersion);
      if fileVersion == 0x101 {
        Init101();
      } else if fileVersion == 0x102 {
        Init102();
      } else if fileVersion == 0x103 {
        Init103();
      } else if fileVersion == 0x104 {
        Init104();
      } else {
        filePtr := 0;
        return false;
      }
      fileSize := |file|;
      ok := true;
    }

    // ----- reading -----

    /** For any file: a success moves on by a structure at least, and a wish for room exceeds the room there is. */
    ghost predicate Advances(r: Condition, loc: nat)
      reads this
    {
      && bufferSizeRequired >= STRUCT_SIZE
      && (r == Success ==> msgLocation >= loc + STRUCT_SIZE)
      && (r == BufferTooSmall ==> |message| < bufferSizeRequired < AMPLE && msgLocation == loc)
    }

    /** Progress through an open file that was at loc and is size bytes long. */
    ghost predicate Moved(r: Condition, wasOpen: bool, loc: nat, size: nat)
      reads this
    {
      && (r == Success || r == BufferTooSmall ==> fileType != Closed)
      && (wasOpen ==>
            && fileSize == size
            && (r == Success ==> loc < size && msgLocation >= loc + STRUCT_SIZE)
            && (r == BufferTooSmall ==> msgLocation >= loc))
    }

    /** Reads the structure at the message location. */
    method ReadStruct()
      requires |message| >= STRUCT_SIZE
      modifies `message, `filePtr
      ensures |message| == old(|message|)
      ensures old(Synced()) ==> message[..STRUCT_SIZE] == StructAt(file, msgLocation, old(message))
      ensures filePtr == old(filePtr) + |Got(file, old(filePtr), STRUCT_SIZE)|
    {
      ghost var buffer := message;
      Read(0, STRUCT_SIZE);
      assert message == message[0..];
      assert buffer[0..] == buffer;
    }

    method Read101() returns (r: Condition)
      requires |message| >= STRUCT_SIZE && bufferSizeRequired == STRUCT_SIZE && fileType == V101
      modifies `message, `filePtr, `msgLocation
      ensures |message| == old(|message|)
      ensures Advances(r, old(msgLocation))
      ensures old(Ready()) ==>
        var p, s := old(Here()), StructAt(file, old(msgLocation), old(message));
        Follows(ReadAt(file, p, s, |message|), r, s, p)
    {
      ghost var s := StructAt(file, msgLocation, message);
      ghost var good := Ready();
      ReadStruct();
      if good {
        TogglePrefix(s, message);
      }
      message := Toggle(message);
      msgLocation := msgLocation + STRUCT_SIZE;
      r := Success;
    }

    method Read104() returns (r: Condition)
      requires |message| >= STRUCT_SIZE && bufferSizeRequired == STRUCT_SIZE && fileType == V104
      modifies `message, `filePtr, `msgLocation, `bufferSizeRequired
      ensures |message| == old(|message|)
      ensures Advances(r, old(msgLocation))
      ensures old(Ready()) ==>
        var p, s := old(Here()), StructAt(file, old(msgLocation), old(message));
        Follows(ReadAt(file, p, s, |message|), r, s, p)
    {
      hide Normalize, ClearExtra, SetExtraPtr, ReadLE32, EntryOffset, StructAt;
      hide HasEntry, EntryData, EntrySize, ReadAt102, Toggle, Got, Overlay;
      ghost var s, loc, good := StructAt(file, msgLocation, message), msgLocation, Ready();
      ReadStruct();
      msgLocation := msgLocation + STRUCT_SIZE;
      if good {
        SameHeader(message, s);
      }
      if message[EXTRA_ENABLED_OFFSET] != 0 && ReadLE32(message, EXTRA_PTR_OFFSET) != 0 {
        var extra := ReadLE32(message, EXTRA_PTR_OFFSET);
        bufferSizeRequired := extra + STRUCT_SIZE;
        if msgLocation + bufferSizeRequired > fileSize {
          return InvalidPayloadSize;
        }
        if extra + STRUCT_SIZE > |message| {
          msgLocation := msgLocation - STRUCT_SIZE;
          filePtr := msgLocation;
          return BufferTooSmall;
        }
        msgLocation := msgLocation + extra;
        ghost var before, got := message, Got(file, filePtr, extra);
        Read(STRUCT_SIZE, extra);
        Filled(before, message, got);
      } else {
        if good {
          ClearIsNormalize(message, s);
        }
        message := ClearExtra(message);
      }
      r := Success;
    }

    method Read102() returns (r: Condition)
      requires |message| >= STRUCT_SIZE && bufferSizeRequired == STRUCT_SIZE && UsesSection(fileType)
      modifies `message, `filePtr, `msgLocation, `bufferSizeRequired, `edpLocation, `edpIndex
      ensures |message| == old(|message|)
      ensures Advances(r, old(msgLocation))
      ensures old(Ready()) ==>
        var p, s := old(Here()), StructAt(file, old(msgLocation), old(message));
        KnownAt(file, p, s) ==> Follows(ReadAt102(file, p, s, |message|), r, s, p)
    {
      hide Normalize, ClearExtra, SetExtraPtr, ReadLE32, EntryOffset, StructAt, EntrySize, EntryData;
      ghost var p, s, good := Here(), StructAt(file, msgLocation, message), Ready();
      good := good && KnownAt(file, p, s);
      ReadStruct();
      msgLocation := msgLocation + STRUCT_SIZE;
      if good {
        SameHeader(message, s);
      }
      if message[EXTRA_ENABLED_OFFSET] != 0 && ReadLE32(message, EXTRA_PTR_OFFSET) != 0 {
        r := GetEDP(ReadLE32(message, EXTRA_PTR_OFFSET));
        if r == BufferTooSmall {
          msgLocation := msgLocation - STRUCT_SIZE;
          filePtr := msgLocation;
        }
      } else {
        if good {
          ClearIsNormalize(message, s);
        }
        message := ClearExtra(message);
        r := Success;
      }
    }

    method Read103() returns (r: Condition)
      requires |message| >= STRUCT_SIZE && bufferSizeRequired == STRUCT_SIZE && fileType == V103
      modifies `message, `filePtr, `msgLocation, `bufferSizeRequired, `edpLocation, `edpIndex
      ensures |message| == old(|message|)
      ensures Advances(r, old(msgLocation))
      ensures old(Ready()) ==>
        var p, s := old(Here()), StructAt(file, old(msgLocation), old(message));
        KnownAt(file, p, s) ==> Follows(ReadAt(file, p, s, |message|), r, s, p)
    {
      hide ReadAt102, Toggle;
      ghost var p, s, good := Here(), StructAt(file, msgLocation, message), Ready();
      r := Read102();
      if r != Success {
        return;
      }
      if good && KnownAt(file, p, s) {
        TogglePrefix(ReadAt102(file, p, s, |message|).bytes, message);
      }
      message := Toggle(message);
    }

    /** The read of the version the file has. */
    method ReadVersion() returns (r: Condition)
      requires |message| >= STRUCT_SIZE && bufferSizeRequired == STRUCT_SIZE && fileType != Closed
      modifies `message, `filePtr, `msgLocation, `bufferSizeRequired, `edpLocation, `edpIndex
      ensures |message| == old(|message|)
      ensures Advances(r, old(msgLocation))
      ensures old(Ready()) ==>
        var p, s := old(Here()), StructAt(file, old(msgLocation), old(message));
        KnownAt(file, p, s) ==> Follows(ReadAt(file, p, s, |message|), r, s, p)
    {
      match fileType {
        case V101 => r := Read101();
        case V102 => r := Read102();
        case V103 => r := Read103();
        case V104 => r := Read104();
      }
    }

    /** One attempt with the buffer as it is; a file not yet open is opened first, without a look at its size. */
    method TryReadNextMessage() returns (r: Condition, returnLength: nat)
      requires Valid() && |message| >= STRUCT_SIZE
      modifies this
      ensures Valid() && |message| == old(|message|) && returnLength >= STRUCT_SIZE
      ensures r == BufferTooSmall ==> |message| < returnLength < AMPLE
      ensures Moved(r, old(fileType) != Closed, old(msgLocation), old(fileSize))
      ensures old(Ready()) && old(msgLocation) + timeSize >= |file| ==> r == EndOfFile
      ensures old(Where()).Some? && !(old(Ready()) && old(msgLocation) + timeSize >= |file|) ==>
        var p := old(Where()).value; var s := StructAt(file, p.loc, old(message));
        && returnLength == bufferSizeRequired
        && (KnownAt(file, p, s) ==> Follows(ReadAt(file, p, s, |message|), r, s, p))
      ensures old(IsNew()) && |file| >= HEADER_SIZE && VersionOf(file) == Closed ==> r == Error && IsNew()
    {
      hide ReadAt, KnownAt, StructAt, EntryOffset, HasSection, MessageStart, VersionOf, Openable;
      bufferSizeRequired := STRUCT_SIZE;
      returnLength := bufferSizeRequired;
      if msgLocation + timeSize >= fileSize {
        return EndOfFile, returnLength;
      }
      if fileType == Closed {
        var ok := Open();
        if !ok {
          return Error, returnLength;
        }
      }
      bufferSizeRequired := STRUCT_SIZE;
      r := ReadVersion();
      returnLength := bufferSizeRequired;
    }

    /** Repeats the read while the buffer is too small for it, in a buffer grown as asked. */
    method ReadIntoBuffer() returns (r: Condition, retval: nat, ghost tries: nat)
      requires Valid() && |message| >= STRUCT_SIZE
      modifies this
      ensures Valid() && r != BufferTooSmall && retval >= STRUCT_SIZE
      ensures Moved(r, old(fileType) != Closed, old(msgLocation), old(fileSize))
      ensures old(Ready()) && old(msgLocation) + timeSize >= |file| ==> r == EndOfFile
      ensures old(Where()).Some? && !(old(Ready()) && old(msgLocation) + timeSize >= |file|) ==>
        var p := old(Where()).value; var s := StructAt(file, p.loc, old(message));
        KnownAt(file, p, s) ==>
          tries <= 2 && Follows(ReadWhole(file, p, s), r, s, p) && retval == bufferSizeRequired
    {
      hide ReadAt, ReadWhole, Toggle, StructAt, FirstPlace, KnownAt, EntryOffset;
      ghost var where, atEnd, first := Where(), Ready() && msgLocation + timeSize >= |file|, message;
      ghost var p := if where.Some? then where.value else Place(Closed, None, 0);
      ghost var s := StructAt(file, p.loc, message);
      ghost var good := where.Some? && !atEnd && KnownAt(file, p, s);
      r, retval := TryReadNextMessage();
      tries := 1;
      while r == BufferTooSmall
        invariant Valid() && |message| >= STRUCT_SIZE && retval >= STRUCT_SIZE
        invariant r == BufferTooSmall ==> |message| < retval < AMPLE
        invariant Moved(r, old(fileType) != Closed, old(msgLocation), old(fileSize))
        invariant atEnd ==> r == EndOfFile
        invariant good ==> Follows(ReadAt(file, p, s, |message|), r, s, p) && retval == bufferSizeRequired
        invariant good ==> tries == 1 || (tries == 2 && r != BufferTooSmall)
        decreases AMPLE - |message|
      {
        if good {
          RetrySucceeds(file, p, s, |message|, retval);
          StructAgain(file, p.loc, first, Resized(message, retval));
        }
        message := Resized(message, retval);
        r, retval := TryReadNextMessage();
        tries := tries + 1;
      }
      if good {
        BufferPlaysNoPart(file, p, s, |message|);
      }
    }

    /** Reads into a vector, which is grown and the read repeated while it is too small. */
    method ReadNextMessage(msg: seq<byte>) returns (r: Condition, out: seq<byte>, ghost tries: nat)
      requires Valid()
      modifies this
      ensures Valid() && (r == Success ==> |out| >= STRUCT_SIZE)
      ensures Moved(r, old(fileType) != Closed, old(msgLocation), old(fileSize))
      ensures old(Ready()) && old(msgLocation) + timeSize >= |file| ==> r == EndOfFile
      ensures old(Where()).Some? && !(old(Ready()) && old(msgLocation) + timeSize >= |file|) ==>
        var p := old(Where()).value; var s := StructAt(file, p.loc, AtLeastStruct(msg));
        KnownAt(file, p, s) ==>
          && tries <= 2
          && match ReadWhole(file, p, s)
             case Bad => r == InvalidPayloadSize
             case Message(b, next) => r == Success && out == b && Ready() && Here() == p.(loc := next)
    {
      hide ReadWhole, Toggle, StructAt, FirstPlace, KnownAt, EntryOffset;
      message := AtLeastStruct(msg);
      var retval;
      r, retval, tries := ReadIntoBuffer();
      out := if r == Success then Resized(message, retval) else message;
    }

    /** Reads until the first outcome that is not a success, as every caller in this library does. */
    method ReadAll() returns (msgs: seq<seq<byte>>)
      requires Valid() && IsNew()
      modifies this
      ensures FirstPlace(file).Some? ==>
        var scan := Scan(file, timeSize, FirstPlace(file).value, Zeros(STRUCT_SIZE), true);
        scan.Some? ==> msgs == scan.value
    {
      hide FirstPlace, ReadWhole, KnownAt, StructAt, EntryOffset;
      msgs := [];
      ghost var p := Where();
      ghost var scan := if p.Some? then Scan(file, timeSize, p.value, Zeros(STRUCT_SIZE), true) else None;
      var msg: seq<byte> := [];
      var r;
      ghost var tries;
      assert AtLeastStruct(msg) == Zeros(STRUCT_SIZE);
      r, msg, tries := ReadNextMessage(msg);
      while r == Success
        invariant Valid() && (r == Success ==> fileType != Closed)
        invariant scan.Some? && r == Success ==>
          && Ready() && |msg| >= STRUCT_SIZE
          && var rest := Scan(file, timeSize, Here(), msg, false);
            rest.Some? && scan.value == msgs + [msg] + rest.value
        invariant scan.Some? && r != Success ==> scan.value == msgs
        decreases if r == Success && msgLocation < fileSize then fileSize - msgLocation else 0, r == Success
      {
        msgs := msgs + [msg];
        r, msg, tries := ReadNextMessage(msg);
      }
    }
  }

  /**
    * The messages that reading from a place delivers; None when some structure refers to extra data that is not
    * in the file. Only the very first read is made without a look at the file size.
    */
  ghost function Scan(file: seq<byte>, timeSize: nat, p: Place, buffer: seq<byte>, first: bool): Option<seq<seq<byte>>>
    requires |buffer| >= STRUCT_SIZE && p.version != Closed
    decreases first, if p.loc < |file| then |file| - p.loc else 0
  {
    if !first && p.loc + timeSize >= |file| then Some([])
    else
      var s := StructAt(file, p.loc, buffer);
      if !KnownAt(file, p, s) then None
      else
        match ReadWhole(file, p, s)
        case Bad => Some([])
        case Message(b, next) =>
          match Scan(file, timeSize, p.(loc := next), b, false)
          case None => None
          case Some(rest) => Some([b] + rest)
  }

  lemma ScanContinues(
      file: seq<byte>, timeSize: nat, p: Place, buffer: seq<byte>, first: bool, b: seq<byte>, next: nat,
      rest: seq<seq<byte>>)
    requires |buffer| >= STRUCT_SIZE && p.version != Closed && |b| >= STRUCT_SIZE
    requires first || p.loc + timeSize < |file|
    requires KnownAt(file, p, StructAt(file, p.loc, buffer))
    requires ReadWhole(file, p, StructAt(file, p.loc, buffer)) == Message(b, next)
    requires Scan(file, timeSize, p.(loc := next), b, false) == Some(rest)
    ensures Scan(file, timeSize, p, buffer, first) == Some([b] + rest)
  {
  }

  lemma ScanEnds(file: seq<byte>, timeSize: nat, p: Place, buffer: seq<byte>, first: bool)
    requires |buffer| >= STRUCT_SIZE && p.version != Closed
    requires KnownAt(file, p, StructAt(file, p.loc, buffer))
    requires (!first && p.loc + timeSize >= |file|) || ReadWhole(file, p, StructAt(file, p.loc, buffer)).Bad?
    ensures Scan(file, timeSize, p, buffer, first) == Some([])
  {
  }

  /** Bytes read behind the structure of a buffer. */
  lemma Filled(before: seq<byte>, after: seq<byte>, got: seq<byte>)
    requires |before| == |after| >= STRUCT_SIZE + |got| && after[..STRUCT_SIZE] == before[..STRUCT_SIZE]
    requires after[STRUCT_SIZE..] == Overlay(got, before[STRUCT_SIZE..])
    ensures before[..STRUCT_SIZE] + got <= after
  {
    assert after == after[..STRUCT_SIZE] + after[STRUCT_SIZE..];
  }

  function AtLeastStruct(msg: seq<byte>): (r: seq<byte>)
    ensures |r| >= STRUCT_SIZE
  {
    if |msg| < STRUCT_SIZE then Resized(msg, STRUCT_SIZE) else msg
  }

  /** Reading a structure again into a buffer that begins with it gives the same structure. */
  lemma StructAgain(file: seq<byte>, loc: nat, stale: seq<byte>, buffer: seq<byte>)
    requires |stale| >= STRUCT_SIZE && StructAt(file, loc, stale) <= buffer
    ensures StructAt(file, loc, buffer) == StructAt(file, loc, stale)
  {
    var s := StructAt(file, loc, stale);
    assert buffer[..STRUCT_SIZE] == s;
  }

  lemma TogglePrefix(b: seq<byte>, buffer: seq<byte>)
    requires STRUCT_SIZE <= |b| && b <= buffer
    ensures Toggle(b) <= Toggle(buffer)
  {
  }

  function ClearExtra(b: seq<byte>): (r: seq<byte>)
    requires |b| >= STRUCT_SIZE
    ensures |r| == |b|
  {
    SetExtraPtr(b[EXTRA_ENABLED_OFFSET := 0], 0)
  }

  lemma ClearIsNormalize(buffer: seq<byte>, s: seq<byte>)
    requires |s| == STRUCT_SIZE && s <= buffer && ExtraSize(s) == 0
    ensures Normalize(s) <= ClearExtra(buffer)
  {
  }

  /** What the structure says can be read from the buffer that holds it. */
  lemma SameHeader(buffer: seq<byte>, s: seq<byte>)
    requires |s| == STRUCT_SIZE <= |buffer| && buffer[..STRUCT_SIZE] == s
    ensures buffer[EXTRA_ENABLED_OFFSET] == s[EXTRA_ENABLED_OFFSET]
    ensures ReadLE32(buffer, EXTRA_PTR_OFFSET) == ReadLE32(s, EXTRA_PTR_OFFSET)
    ensures ExtraSize(buffer) == ExtraSize(s)
  {
    ReadLE32Slice(buffer, 0, STRUCT_SIZE, EXTRA_PTR_OFFSET);
    assert buffer[0..STRUCT_SIZE] == s;
  }

  lemma WalkStart(file: seq<byte>, start: nat)
    ensures EntryOffset(file, start, 1) == start
  {
  }

  lemma WalkStep(file: seq<byte>, start: nat, k: nat)
    requires k >= 1
    ensures var p := EntryOffset(file, start, k); EntryOffset(file, start, k + 1) == p + 4 + WordAt(file, p)
  {
  }

  lemma ExtraPtrInStruct(buffer: seq<byte>, n: uint32)
    requires |buffer| >= STRUCT_SIZE
    ensures SetExtraPtr(buffer, n)[..STRUCT_SIZE] == SetExtraPtr(buffer[..STRUCT_SIZE], n)
  {
  }

  /** What a reader standing at an entry gets, and where the next entry is. */
  lemma EntryHere(file: seq<byte>, start: nat, k: nat)
    requires HasEntry(file, start, k)
    ensures var o, data := EntryOffset(file, start, k), EntryData(file, start, k);
      && k >= 1 && o + 4 <= |file| && WordAt(file, o) == |data|
      && |Got(file, o, 4)| == 4 && Got(file, o + 4, |data|) == data
      && EntryOffset(file, start, k + 1) == o + 4 + |data|
  {
  }
}
