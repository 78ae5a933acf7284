/** The writer of 0x104 files. */
module VsbWriter {
  import opened Bytes
  import opened VsbFormat

  const FILE_VERSION: uint32 := 0x104

  function FileOf(msgs: seq<seq<byte>>): seq<byte>
  {
    MAGIC + LE32(FILE_VERSION) + Flatten(msgs)
  }

  class VSBIOWrite {
    var file: seq<byte>
    ghost var written: seq<seq<byte>>

    ghost predicate Valid()
      reads this
    {
      file == FileOf(written)
    }

    constructor Init()
      ensures Valid() && written == []
    {
      file := MAGIC + LE32(FILE_VERSION);
      written := [];
      new;
      assert file + Flatten<byte>([]) == file;
    }

    method WriteMessage(message: seq<byte>)
      requires Valid()
      modifies this
      ensures Valid() && written == old(written) + [message]
    {
      FlattenSnoc(written, message);
      file := file + message;
      written := written + [message];
    }
  }

  /** Writes a file of these messages. */
  method WriteFile(msgs: seq<seq<byte>>) returns (writer: VSBIOWrite)
    ensures fresh(writer) && writer.Valid() && writer.written == msgs && writer.file == FileOf(msgs)
  {
    writer := new VSBIOWrite.Init();
    for i := 0 to |msgs|
      invariant fresh(writer) && writer.Valid() && writer.written == msgs[..i]
    {
      writer.WriteMessage(msgs[i]);
    }
    assert msgs[..|msgs|] == msgs;
  }
}
