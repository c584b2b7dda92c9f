/** Exponential backoff of the signature-freshness scheduler. */
module Backoff {

  /** time.Duration; Dafny checks that no operation below leaves 64 bits. */
  newtype int64 = x: int | -0x8000_0000_0000_0000 <= x < 0x8000_0000_0000_0000

  datatype Config = Config(minDelay: int64, maxDelay: int64)

  function Pow2(n: nat): nat {
    if n == 0 then 1 else 2 * Pow2(n - 1)
  }

  function Min(a: int, b: int): int {
    if a <= b then a else b
  }

  /** The delay after a number of consecutive failures, in closed form. */
  function Delay(cfg: Config, failures: nat): int {
    var lo, hi := cfg.minDelay as int, cfg.maxDelay as int;
    if failures == 0 || lo <= 0 then 0
    else if hi <= 0 then lo
    else Min(hi, lo * Pow2(failures))
  }

  lemma {:induction false} Pow2Grows(i: nat, n: nat)
    requires i <= n
    ensures 1 <= Pow2(i) <= Pow2(n)
    decreases n
  {
    if i < n {
      Pow2Grows(i, n - 1);
    } else if n > 0 {
      Pow2Grows(i - 1, n - 1);
    }
  }

  lemma TimesGrows(lo: nat, x: nat, y: nat)
    requires x <= y
    ensures lo * x <= lo * y
  {
  }

  lemma DoublingCapped(lo: nat, hi: int, i: nat, n: nat)
    requires i <= n && lo * Pow2(i) > hi
    ensures Min(hi, lo * Pow2(n)) == hi
  {
    Pow2Grows(i, n);
    TimesGrows(lo, Pow2(i), Pow2(n));
  }

  /** The doubling loop. */
  method FailureBackoffDelay(minDelay: int64, maxDelay: int64, failures: nat) returns (delay: int64)
    ensures delay as int == Delay(Config(minDelay, maxDelay), failures)
  {
    if failures <= 0 || minDelay <= 0 {
      return 0;
    }
    if maxDelay <= 0 {
      return minDelay;
    }
    ghost var lo, hi := minDelay as int, maxDelay as int;
    if minDelay >= maxDelay {
      assert lo * Pow2(0) == lo;
      if minDelay > maxDelay {
        DoublingCapped(lo, hi, 0, failures);
      } else {
        Pow2Grows(1, failures);
        assert lo * Pow2(1) > hi;
        DoublingCapped(lo, hi, 1, failures);
      }
      return maxDelay;
    }
    delay := minDelay;
    for i := 0 to failures
      invariant 0 < delay <= maxDelay
      invariant delay as int == lo * Pow2(i)
    {
      if delay > maxDelay - delay {
        assert lo * Pow2(i + 1) == 2 * (lo * Pow2(i));
        DoublingCapped(lo, hi, i + 1, failures);
        return maxDelay;
      }
      assert lo * Pow2(i + 1) == 2 * (lo * Pow2(i));
      delay := delay * 2;
    }
  }

  /** Up to a tenth more, never past the maximum; draw is what the random source returned. */
  function Jittered(cfg: Config, delay: int, draw: nat): int {
    var hi := cfg.maxDelay as int;
    if delay >= 10 && delay < hi then delay + draw % Min(delay / 10, hi - delay) else delay
  }

  lemma JitterBounds(cfg: Config, delay: int, draw: nat)
    ensures delay <= Jittered(cfg, delay, draw)
    ensures delay <= cfg.maxDelay as int ==> Jittered(cfg, delay, draw) <= cfg.maxDelay as int
    ensures delay >= 0 ==> Jittered(cfg, delay, draw) <= delay + delay / 10
  {
  }

  // ----- runs of the scheduler -----

  datatype Entry = Entry(failures: nat, nextAllowed: int)

  type State = map<string, Entry>

  /** A zone found due for signing at time now; ok is what signing would answer. */
  datatype Event = Event(zone: string, now: int, ok: bool, draw: nat)

  predicate BackedOff(s: State, zone: string, now: int) {
    zone in s && now < s[zone].nextAllowed
  }

  function Failures(s: State, zone: string): nat {
    if zone in s then s[zone].failures else 0
  }

  function Step(cfg: Config, s: State, e: Event): State {
    if BackedOff(s, e.zone, e.now) then s
    else if e.ok then s - {e.zone}
    else
      var k := Failures(s, e.zone) + 1;
      s[e.zone := Entry(k, e.now + Jittered(cfg, Delay(cfg, k), e.draw))]
  }

  function After(cfg: Config, es: seq<Event>): State {
    if es == [] then map[] else Step(cfg, After(cfg, es[..|es| - 1]), es[|es| - 1])
  }

  /** Event i was really tried, not skipped. */
  predicate Attempted(cfg: Config, es: seq<Event>, i: nat)
    requires i < |es|
  {
    !BackedOff(After(cfg, es[..i]), es[i].zone, es[i].now)
  }

  /** Failed attempts on the zone since its last success, read off the history. */
  ghost function ConsecutiveFailures(cfg: Config, es: seq<Event>, zone: string): nat {
    if es == [] then 0
    else
      var before := ConsecutiveFailures(cfg, es[..|es| - 1], zone);
      var e := es[|es| - 1];
      if e.zone != zone || !Attempted(cfg, es, |es| - 1) then before
      else if e.ok then 0
      else before + 1
  }

  lemma {:induction false} FailuresAreConsecutive(cfg: Config, es: seq<Event>, zone: string)
    ensures Failures(After(cfg, es), zone) == ConsecutiveFailures(cfg, es, zone)
  {
    if es != [] {
      FailuresAreConsecutive(cfg, es[..|es| - 1], zone);
    }
  }

  ghost predicate ClockNonDecreasing(es: seq<Event>) {
    forall i, j :: 0 <= i < j < |es| ==> es[i].now <= es[j].now
  }

  /** Once it is too early for a zone, every later attempt comes at the set time or after. */
  lemma {:induction false} GateHolds(cfg: Config, es: seq<Event>, i: nat, j: nat, gate: int)
    requires ClockNonDecreasing(es) && i < j < |es|
    requires es[i].zone in After(cfg, es[..i + 1]) && After(cfg, es[..i + 1])[es[i].zone].nextAllowed >= gate
    requires es[j].zone == es[i].zone && Attempted(cfg, es, j)
    ensures es[j].now >= gate
  {
    var z := es[i].zone;
    var k := i + 1;
    while k < j
      invariant i < k <= j
      invariant es[j].now >= gate || (z in After(cfg, es[..k]) && After(cfg, es[..k])[z].nextAllowed >= gate)
    {
      assert es[..k + 1][..k] == es[..k];
      if es[k].zone == z && es[k].now >= gate {
        assert es[j].now >= es[k].now;
      }
      k := k + 1;
    }
  }

  /** In every run, after the k-th consecutive failure of a zone no attempt on it comes before the
      k-th backoff delay has passed. */
  lemma BackoffIsRespected(cfg: Config, es: seq<Event>, i: nat, j: nat)
    requires ClockNonDecreasing(es) && i < j < |es|
    requires Attempted(cfg, es, i) && !es[i].ok
    requires es[j].zone == es[i].zone && Attempted(cfg, es, j)
    ensures es[j].now >= es[i].now + Delay(cfg, ConsecutiveFailures(cfg, es[..i + 1], es[i].zone))
  {
    var z := es[i].zone;
    FailuresAreConsecutive(cfg, es[..i + 1], z);
    assert es[..i + 1][..i] == es[..i];
    var k := Failures(After(cfg, es[..i]), z) + 1;
    JitterBounds(cfg, Delay(cfg, k), es[i].draw);
    GateHolds(cfg, es, i, j, es[i].now + Delay(cfg, k));
  }

  /** The delay doubles with each failure until it reaches the maximum. */
  lemma DelayDoubles(cfg: Config, failures: nat)
    requires cfg.minDelay > 0
    ensures Delay(cfg, 0) == 0
    ensures cfg.maxDelay > 0 ==> Delay(cfg, 1) == Min(cfg.maxDelay as int, 2 * cfg.minDelay as int)
    ensures cfg.maxDelay > 0 && failures > 0 ==> Delay(cfg, failures + 1) == Min(cfg.maxDelay as int, 2 * Delay(cfg, failures))
    ensures cfg.maxDelay <= 0 && failures > 0 ==> Delay(cfg, failures) == cfg.minDelay as int
  {
    var lo := cfg.minDelay as int;
    assert Pow2(1) == 2 * Pow2(0);
    assert lo * Pow2(failures + 1) == 2 * (lo * Pow2(failures));
  }

  /** The first attempt at or after the time set by a failure is made: nothing but the delay holds it back. */
  lemma DueIsAttempted(cfg: Config, es: seq<Event>, i: nat, j: nat)
    requires i < j < |es| && Attempted(cfg, es, i) && !es[i].ok && es[j].zone == es[i].zone
    requires forall k :: i < k < j && es[k].zone == es[i].zone ==> !Attempted(cfg, es, k)
    ensures var delay := Jittered(cfg, Delay(cfg, ConsecutiveFailures(cfg, es[..i + 1], es[i].zone)), es[i].draw);
            Attempted(cfg, es, j) <==> es[j].now >= es[i].now + delay
  {
    var z := es[i].zone;
    FailuresAreConsecutive(cfg, es[..i + 1], z);
    assert es[..i + 1][..i] == es[..i];
    var k := i + 1;
    while k < j
      invariant i < k <= j
      invariant z in After(cfg, es[..k]) && After(cfg, es[..k])[z] == After(cfg, es[..i + 1])[z]
    {
      assert es[..k + 1][..k] == es[..k];
      k := k + 1;
    }
  }

  /** A zone without a failure on record is always attempted. */
  lemma CleanZoneIsAttempted(cfg: Config, es: seq<Event>, j: nat)
    requires j < |es| && ConsecutiveFailures(cfg, es[..j], es[j].zone) == 0
    ensures Attempted(cfg, es, j)
  {
    FailuresAreConsecutive(cfg, es[..j], es[j].zone);
    EntriesHaveFailures(cfg, es[..j], es[j].zone);
  }

  lemma {:induction false} EntriesHaveFailures(cfg: Config, es: seq<Event>, zone: string)
    ensures zone in After(cfg, es) ==> After(cfg, es)[zone].failures > 0
  {
    if es != [] {
      EntriesHaveFailures(cfg, es[..|es| - 1], zone);
    }
  }

  class Scheduler {
    const cfg: Config
    var backoff: State

    constructor (cfg: Config)
      ensures this.cfg == cfg && backoff == map[]
    {
      this.cfg := cfg;
      backoff := map[];
    }

    method AttemptResign(zone: string, now: int, ok: bool, draw: nat) returns (resigned: bool, skipped: bool)
      modifies this
      ensures backoff == Step(cfg, old(backoff), Event(zone, now, ok, draw))
      ensures skipped <==> BackedOff(old(backoff), zone, now)
      ensures resigned <==> !skipped && ok
    {
      if zone in backoff && now < backoff[zone].nextAllowed {
        return false, true;
      }
      if !ok {
        RecordFailure(zone, now, draw);
        return false, false;
      }
      backoff := backoff - {zone};
      return true, false;
    }

    method RecordFailure(zone: string, now: int, draw: nat)
      modifies this
      ensures var k := Failures(old(backoff), zone) + 1;
              backoff == old(backoff)[zone := Entry(k, now + Jittered(cfg, Delay(cfg, k), draw))]
    {
      var failures := (if zone in backoff then backoff[zone].failures else 0) + 1;
      var delay := FailureBackoffDelay(cfg.minDelay, cfg.maxDelay, failures);
      DelayIsNonNegative(cfg, failures);
      ghost var base := delay as int;
      var jitterLimit := delay / 10;
      if jitterLimit > 0 && delay < cfg.maxDelay {
        var remaining := cfg.maxDelay - delay;
        if jitterLimit > remaining {
          jitterLimit := remaining;
        }
        var jitter := draw % (jitterLimit as int);
        delay := delay + jitter as int64;
      }
      assert delay as int == Jittered(cfg, base, draw);
      backoff := backoff[zone := Entry(failures, now + delay as int)];
    }
  }

  lemma DelayIsNonNegative(cfg: Config, failures: nat)
    ensures Delay(cfg, failures) >= 0
  {
    Pow2Grows(0, failures);
    if cfg.minDelay > 0 {
      assert cfg.minDelay as int * Pow2(failures) >= 0;
    }
  }
}
