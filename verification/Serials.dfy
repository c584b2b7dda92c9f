/** SOA serials: the controller's date-based counter and the agent's wrap-around comparison. */
module Serials {

  const MAX_UINT32: int := 0xFFFF_FFFF
  const TWO_31: int := 0x8000_0000
  const TWO_32: int := 0x1_0000_0000

  type uint32 = x: int | 0 <= x <= 0xFFFF_FFFF

  datatype Date = Date(year: nat, month: nat, day: nat) {
    predicate Valid() {
      year <= 9999 && 1 <= month <= 12 && 1 <= day <= 31
    }
  }

  function Today(d: Date): uint32 {
    (d.year * 10000 + d.month * 100 + d.day) % TWO_32
  }

  /** The first serial of a day, YYYYMMDD01, in 32-bit arithmetic. */
  function TodayFirst(d: Date): uint32 {
    (Today(d) * 100 + 1) % TWO_32
  }

  function GenerateSerial(d: Date, current: uint32): uint32 {
    var today := Today(d);
    var todayFirst := TodayFirst(d);
    if current == 0 then todayFirst
    else if current / 100 == today && current % 100 < 99 then (current + 1) % TWO_32
    else if current / 100 < today && todayFirst > current then todayFirst
    else if current < MAX_UINT32 then (current + 1) % TWO_32
    else current
  }

  function UpdateSoaSerial(d: Date, current: uint32, prepared: uint32): uint32 {
    if prepared > current then prepared else GenerateSerial(d, current)
  }

  lemma GeneratedSerialIncreases(d: Date, current: uint32)
    requires d.Valid()
    ensures current < MAX_UINT32 ==> GenerateSerial(d, current) > current
    ensures current == MAX_UINT32 ==> GenerateSerial(d, current) == current
  {
    if current == MAX_UINT32 {
      // 42949672 is not a date: its month field would be 96.
      assert current / 100 == 42949672 && Today(d) != 42949672 by {
        assert Today(d) == d.year * 10000 + d.month * 100 + d.day;
      }
    } else if current == 0 {
      assert TodayFirst(d) != 0;
    }
  }

  /** Every update moves the serial forward, and stops only at the largest 32-bit value. */
  lemma UpdateIncreasesSerial(d: Date, current: uint32, prepared: uint32)
    requires d.Valid()
    ensures UpdateSoaSerial(d, current, prepared) > current
            <==> current < MAX_UINT32
    ensures UpdateSoaSerial(d, current, prepared) >= current
  {
    GeneratedSerialIncreases(d, current);
  }

  /** While YYYYMMDD01 fits 32 bits, all the branches come to this: the larger of today's first serial
      and the next number. */
  lemma GeneratedSerialIsMax(d: Date, current: uint32)
    requires d.Valid() && d.year <= 4294 && current < MAX_UINT32
    ensures TodayFirst(d) == d.year * 100_0000 + d.month * 1_0000 + d.day * 100 + 1
    ensures GenerateSerial(d, current) == if TodayFirst(d) > current + 1 then TodayFirst(d) else current + 1
  {
    assert Today(d) == d.year * 10000 + d.month * 100 + d.day;
    assert TodayFirst(d) == Today(d) * 100 + 1;
  }

  /** A generated serial lies at or above today's first serial and at most one above the larger of the two. */
  lemma GeneratedSerialBracket(d: Date, current: uint32)
    requires d.Valid()
    ensures GenerateSerial(d, current) <= (if current > TodayFirst(d) then current else TodayFirst(d)) + 1
    ensures d.year <= 4294 && current < MAX_UINT32 ==> GenerateSerial(d, current) >= TodayFirst(d)
  {
    assert Today(d) == d.year * 10000 + d.month * 100 + d.day;
    GeneratedSerialIncreases(d, current);
    if d.year <= 4294 {
      assert TodayFirst(d) == Today(d) * 100 + 1;
      assert current / 100 >= Today(d) ==> current + 1 >= TodayFirst(d);
    }
  }

  /** The stored serial after one generated update per date. */
  function GenerateRun(dates: seq<Date>, s0: uint32): uint32 {
    if dates == [] then s0
    else GenerateSerial(dates[|dates| - 1], GenerateRun(dates[..|dates| - 1], s0))
  }

  ghost predicate DatesUpTo(dates: seq<Date>, first: int) {
    forall d <- dates :: d.Valid() && TodayFirst(d) <= first
  }

  lemma {:induction false} RunBound(dates: seq<Date>, s0: uint32, first: int)
    requires DatesUpTo(dates, first)
    ensures s0 <= GenerateRun(dates, s0) <= (if s0 > first then s0 else first) + |dates|
  {
    if dates != [] {
      var before := dates[..|dates| - 1];
      var last := dates[|dates| - 1];
      assert last in dates;
      RunBound(before, s0, first);
      GeneratedSerialIncreases(last, GenerateRun(before, s0));
      GeneratedSerialBracket(last, GenerateRun(before, s0));
    }
  }

  /** The agent's test for a stale artifact. */
  predicate ZoneSerialBefore(candidate: uint32, current: uint32) {
    candidate != current && (current - candidate) % TWO_32 < TWO_31
  }

  /** Exactly which serials the agent calls older: behind by less than half the circle, or ahead by more. */
  lemma SerialBeforeMeaning(candidate: uint32, current: uint32)
    ensures ZoneSerialBefore(candidate, current)
            <==> (candidate < current && current - candidate < TWO_31)
                 || (candidate > current && candidate - current > TWO_31)
  {
    if candidate > current {
      assert (current - candidate) % TWO_32 == current - candidate + TWO_32;
    } else {
      assert (current - candidate) % TWO_32 == current - candidate;
    }
  }

  /** An agent that missed every one of these updates still accepts the last artifact. */
  lemma MissedUpdatesAreAccepted(dates: seq<Date>, s0: uint32, first: int)
    requires DatesUpTo(dates, first)
    requires 0 <= first && first + |dates| <= TWO_31
    ensures !ZoneSerialBefore(GenerateRun(dates, s0), s0)
  {
    RunBound(dates, s0, first);
    SerialBeforeMeaning(GenerateRun(dates, s0), s0);
  }

  /** A serial chosen by the caller carries no such promise: the agent rejects it exactly when it
      jumps more than half the circle, although the controller stored it as newer. */
  lemma PreparedSerialRejection(d: Date, current: uint32, prepared: uint32)
    requires prepared > current
    ensures UpdateSoaSerial(d, current, prepared) == prepared
    ensures ZoneSerialBefore(prepared, current) <==> prepared - current > TWO_31
    ensures ZoneSerialBefore(0x8000_0002, 1)
  {
    SerialBeforeMeaning(prepared, current);
  }
}
