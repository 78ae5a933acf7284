/** Reading a file that the library wrote. */
module OutputFiles {
  import opened VsbStruct
  import opened VsbReader
  import opened VsbReading
  import opened VsbDelivery
  import opened VsbWriter
  import opened VsbRoundTrip

  /** Reading a written file, from its very beginning. */
  lemma {:induction false} WrittenFileDelivers(msgs: Msgs, timeSize: nat)
    requires timeSize < STRUCT_SIZE && AllWellSized(msgs)
    ensures Readable(FileOf(msgs), timeSize) && Messages(FileOf(msgs), timeSize) == ReadsBack(msgs)
  {
    hide Scan, ReadsBack, EachFit, FileOf, WellSized;
    WrittenFileOpens(msgs);
    WrittenFileReadsBack(msgs, timeSize);
    AllOfIsFit(FileOf(msgs), timeSize);
  }

  lemma {:induction false} WrittenFileIsWhole(msgs: Msgs, timeSize: nat)
    requires timeSize < STRUCT_SIZE && AllWellSized(msgs)
    ensures Readable(FileOf(msgs), timeSize)
    ensures Messages(FileOf(msgs), timeSize) == NormalizeAll(msgs) <==> msgs != [] && ExtraSize(msgs[|msgs| - 1]) == 0
  {
    hide Messages, ReadsBack, Readable, WellSized, FileOf, ExtraSize;
    WrittenFileDelivers(msgs, timeSize);
    RoundTripIff(msgs);
  }
}
