/** Messages of a log as a structure and the extra bytes behind it, told apart by their fields and bytes alone. */
module LoggedMessages {
  import opened Bytes
  import opened VsbStruct

  datatype LoggedMessage = LoggedMessage(structure: SpyMessage, extra: seq<byte>) {
    /** Flag and length in the structure are those of the extra bytes. */
    predicate Announced() {
      |extra| == if structure.extraEnabled != 0 then structure.extraPtr else 0
    }

    function Message(): (m: seq<byte>)
      ensures |m| == STRUCT_SIZE + |extra|
    {
      Pack(structure) + extra
    }
  }

  function LogOf(xs: seq<LoggedMessage>): (log: seq<seq<byte>>)
    ensures |log| == |xs|
  {
    seq(|xs|, i requires 0 <= i < |xs| => xs[i].Message())
  }

  ghost predicate AllAnnounced(xs: seq<LoggedMessage>)
  {
    forall i | 0 <= i < |xs| :: xs[i].Announced()
  }

  lemma PartsOfMessage(x: LoggedMessage)
    ensures Unpack(x.Message()) == x.structure && x.Message()[STRUCT_SIZE..] == x.extra
  {
    hide Pack, Unpack;
    UnpackPack(x.structure, x.extra);
  }

  lemma FlagAndLength(b: seq<byte>)
    requires |b| >= STRUCT_SIZE
    ensures var m := Unpack(b); ExtraSize(b) == if m.extraEnabled != 0 then m.extraPtr else 0
  {
  }

  lemma ExtraOfMessage(x: LoggedMessage)
    requires x.Announced()
    ensures ExtraSize(x.Message()) == |x.extra| && WellSized(x.Message())
  {
    hide Pack, Unpack, ExtraSize;
    PartsOfMessage(x);
    FlagAndLength(x.Message());
  }

  lemma LogOfNone()
    ensures LogOf([]) == []
  {
  }

  lemma LogOfInit(xs: seq<LoggedMessage>)
    requires xs != []
    ensures LogOf(xs)[..|xs| - 1] == LogOf(xs[..|xs| - 1]) && LogOf(xs)[|xs| - 1] == xs[|xs| - 1].Message()
  {
  }

  lemma LogOfTail(xs: seq<LoggedMessage>)
    requires xs != []
    ensures LogOf(xs)[1..] == LogOf(xs[1..]) && LogOf(xs)[0] == xs[0].Message()
  {
  }
}
