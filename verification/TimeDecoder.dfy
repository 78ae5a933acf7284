/** Hardware time stamps: conversion to and from nanoseconds since 1970. */
module TimeDecoder {
  import opened Bytes
  import opened VsbStruct

  /** Reading of a stamp stored as an IEEE double, the one conversion left to the caller. */
  type DoubleClock = (uint32, uint32) -> uint64

  const ID_NEOVI: int := 4
  const ID_VCAN: int := 6
  const ID_DOUBLE_SEC: int := 7
  const ID_RED_10US: int := 8
  const ID_RED_25NS: int := 9
  const ID_RED_10NS: int := 10

  const EPOCH_2007: int := 1167609600000000000

  function SpyTimeType(m: SpyMessage): int
  {
    if m.hardwareId >= 0x80 then -1 else m.hardwareId
  }

  /** Nanoseconds since 2007 of a stamp made of two counters, before any wrap-around. */
  function Elapsed(id: int, low: uint32, high: uint32): nat
  {
    if id == ID_RED_10NS then high * 429496729600 + low * 10
    else if id == ID_RED_25NS then high * 107374182400 + low * 25
    else if id == ID_RED_10US then high * 42949672960000 + low * 10000
    else if id == ID_VCAN then high * 65536000 + low * 1000
    else high * 104857600 + low * 1600
  }

  predicate TwoCounter(id: int)
  {
    id in {ID_NEOVI, ID_VCAN, ID_RED_10US, ID_RED_25NS, ID_RED_10NS}
  }

  function CalcEpoch64(m: SpyMessage, clock: DoubleClock): uint64
  {
    var id := SpyTimeType(m);
    if TwoCounter(id) then (Elapsed(id, m.timeHardware, m.timeHardware2) + EPOCH_2007) % TWO_64
    else if id == ID_DOUBLE_SEC then clock(m.timeHardware, m.timeHardware2)
    else m.timeSystem * 1000000
  }

  /** Ticks of 25 ns since 2007, computed in wrapping 64-bit arithmetic. */
  function Ticks(t: uint64): uint64
  {
    (t - EPOCH_2007) % TWO_64 / 25
  }

  function SetMessageTime(m: SpyMessage, t: uint64): SpyMessage
  {
    var ticks := Ticks(t);
    m.(hardwareId := 9, timeHardware2 := HighWord(ticks), timeHardware := LowWord(ticks),
       systemId := 0, timeSystem := 0, timeSystem2 := 0)
  }

  /** The sort key of the unwrapper: high word, then low word. */
  function TimeKey(m: SpyMessage): uint64
  {
    m.timeHardware2 * TWO_32 + m.timeHardware
  }

  /** What a 64-bit time becomes when it is stored in a message and read back. */
  function Rounded(t: uint64): uint64
  {
    (t - (t - EPOCH_2007) % TWO_64 % 25) % TWO_64
  }

  /** Storing a time and reading it back rounds it down to the 25 ns grid that starts in 2007. */
  lemma TimeRoundTrip(m: SpyMessage, t: uint64, clock: DoubleClock)
    ensures CalcEpoch64(SetMessageTime(m, t), clock) == Rounded(t)
    ensures t >= EPOCH_2007 ==> Rounded(t) <= t < Rounded(t) + 25
  {
    StoredElapsed(t);
    RoundedIsClose(t);
  }

  lemma StoredElapsed(t: uint64)
    ensures var q := Ticks(t); var u := (t - EPOCH_2007) % TWO_64;
      Elapsed(ID_RED_25NS, LowWord(q), HighWord(q)) == u - u % 25
  {
    var u := (t - EPOCH_2007) % TWO_64;
    var q := Ticks(t);
    assert q == q / TWO_32 * TWO_32 + q % TWO_32;
    assert 25 * q == u - u % 25;
  }

  lemma RoundedIsClose(t: uint64)
    ensures var u := (t - EPOCH_2007) % TWO_64; (u - u % 25 + EPOCH_2007) % TWO_64 == Rounded(t)
    ensures t >= EPOCH_2007 ==> Rounded(t) <= t < Rounded(t) + 25
  {
    var u := (t - EPOCH_2007) % TWO_64;
    if t >= EPOCH_2007 {
      assert u == t - EPOCH_2007;
    } else {
      assert u == t - EPOCH_2007 + TWO_64;
    }
  }

  lemma RoundedOffset(t: uint64)
    ensures var u := (t - EPOCH_2007) % TWO_64;
      (Rounded(t) - EPOCH_2007) % TWO_64 == u - u % 25
  {
    var u := (t - EPOCH_2007) % TWO_64;
    var k := if t >= EPOCH_2007 then 0 else 1;
    assert u == t - EPOCH_2007 + k * TWO_64;
    var j := if t - u % 25 >= 0 then 0 else 1;
    assert Rounded(t) == t - u % 25 + j * TWO_64;
    assert 0 <= u - u % 25 < TWO_64;
    assert Rounded(t) - EPOCH_2007 == u - u % 25 + (j - k) * TWO_64;
  }

  /** A time already on the grid survives unchanged: the second trip changes nothing, for every 64-bit time. */
  lemma {:induction false} TimeFixedPoint(m: SpyMessage, t: uint64)
    ensures Ticks(Rounded(t)) == Ticks(t)
    ensures SetMessageTime(m, Rounded(t)) == SetMessageTime(m, t)
    ensures Rounded(Rounded(t)) == Rounded(t)
  {
    RoundedOffset(t);
    var u := (t - EPOCH_2007) % TWO_64;
    assert (u - u % 25) / 25 == u / 25 && (u - u % 25) % 25 == 0;
  }

  /** The low counter of a stamp never reaches one unit of its high counter. */
  predicate LowWordInRange(m: SpyMessage)
  {
    var id := SpyTimeType(m);
    id in {ID_RED_10US, ID_RED_25NS, ID_RED_10NS} || (id in {ID_VCAN, ID_NEOVI} && m.timeHardware < 0x1_0000)
  }

  predicate NoOverflow(m: SpyMessage)
  {
    Elapsed(SpyTimeType(m), m.timeHardware, m.timeHardware2) + EPOCH_2007 < TWO_64
  }

  /** Sorting by the unwrapper's key is sorting by time, for stamps of one kind. */
  lemma {:induction false} KeyOrderIsEpochOrder(a: SpyMessage, b: SpyMessage, clock: DoubleClock)
    requires SpyTimeType(a) == SpyTimeType(b)
    requires LowWordInRange(a) && LowWordInRange(b)
    requires NoOverflow(a) && NoOverflow(b)
    ensures TimeKey(a) < TimeKey(b) <==> CalcEpoch64(a, clock) < CalcEpoch64(b, clock)
    ensures TimeKey(a) == TimeKey(b) <==> CalcEpoch64(a, clock) == CalcEpoch64(b, clock)
  {
    var id := SpyTimeType(a);
    assert CalcEpoch64(a, clock) == Elapsed(id, a.timeHardware, a.timeHardware2) + EPOCH_2007;
    assert CalcEpoch64(b, clock) == Elapsed(id, b.timeHardware, b.timeHardware2) + EPOCH_2007;
    if a.timeHardware2 < b.timeHardware2 {
      assert b.timeHardware2 >= a.timeHardware2 + 1;
    } else if b.timeHardware2 < a.timeHardware2 {
      assert a.timeHardware2 >= b.timeHardware2 + 1;
    }
  }

  /** A stamp of this kind, its low counter below a bound, that decodes without overflow. */
  predicate Below(m: SpyMessage, id: int, bound: nat)
  {
    SpyTimeType(m) == id && m.timeHardware < bound && NoOverflow(m)
  }

  predicate SameOrder(a: SpyMessage, b: SpyMessage, clock: DoubleClock)
  {
    TimeKey(a) < TimeKey(b) <==> CalcEpoch64(a, clock) < CalcEpoch64(b, clock)
  }

  /**
    * The key sorts the radix-2^16 stamps below a bound by time exactly when the bound is at most one unit of the
    * high counter.
    */
  lemma {:induction false} KeyOrderIffBound(id: byte, bound: nat, clock: DoubleClock)
    requires id == ID_VCAN || id == ID_NEOVI
    ensures (forall a, b | Below(a, id, bound) && Below(b, id, bound) :: SameOrder(a, b, clock)) <==> bound <= 0x1_0000
  {
    if bound <= 0x1_0000 {
      forall a, b | Below(a, id, bound) && Below(b, id, bound)
        ensures SameOrder(a, b, clock)
      {
        KeyOrderIsEpochOrder(a, b, clock);
      }
    } else {
      var a := ZERO.(hardwareId := id, timeHardware := 0x1_0000);
      var b := ZERO.(hardwareId := id, timeHardware2 := 1);
      assert Below(a, id, bound) && Below(b, id, bound) && !SameOrder(a, b, clock);
    }
  }

  /** Nanoseconds of one low count, and low counts of one high count, as the names of the constants say. */
  function Unit(id: int): nat
  {
    if id == ID_RED_10NS then 10 else if id == ID_RED_25NS then 25 else if id == ID_RED_10US then 10000
    else if id == ID_VCAN then 1000 else 1600
  }

  function Radix(id: int): nat
  {
    if id == ID_VCAN || id == ID_NEOVI then 0x1_0000 else TWO_32
  }

  /**
    * The two counters are digits of one number of ticks for every kind but one: of the 10 ns stamps, whose high word
    * weighs ten times too much, only those with a high word of 0 are.
    */
  lemma {:induction false} PositionalIff(id: int, low: uint32, high: uint32)
    requires TwoCounter(id)
    ensures Elapsed(id, low, high) == Unit(id) * (high * Radix(id) + low) <==> id != ID_RED_10NS || high == 0
  {
  }

  /** From 1970 to 2007 there are 13514 days. */
  const NS_UNTIL_2007: int := 13514 * 86400 * 1000000000

  /**
    * Every kind of stamp: ticks since 2007, where there are two counters; the double, where there is one; and for all
    * other kinds, those with the high bit among them, the milliseconds of the computer's clock.
    */
  lemma {:induction false} EpochByKind(m: SpyMessage, clock: DoubleClock)
    ensures var id, low, high, t := m.hardwareId, m.timeHardware, m.timeHardware2, CalcEpoch64(m, clock);
      && (id == 9 ==> t == (25 * (high * TWO_32 + low) + NS_UNTIL_2007) % TWO_64)
      && (id == 8 ==> t == (10000 * (high * TWO_32 + low) + NS_UNTIL_2007) % TWO_64)
      && (id == 10 ==> t == (10 * (10 * high * TWO_32 + low) + NS_UNTIL_2007) % TWO_64)
      && (id == 6 ==> t == (1000 * (high * 0x1_0000 + low) + NS_UNTIL_2007) % TWO_64)
      && (id == 4 ==> t == (1600 * (high * 0x1_0000 + low) + NS_UNTIL_2007) % TWO_64)
      && (id == 7 ==> t == clock(low, high))
      && (id !in {4, 6, 7, 8, 9, 10} ==> t == m.timeSystem * 1000000)
  {
    assert NS_UNTIL_2007 == EPOCH_2007;
  }
}
