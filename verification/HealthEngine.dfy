/** The engine that turns one round of health checks into one signal. */
module HealthEngine {
  import opened HealthMachine

  datatype CheckType = Query | FullPath | Latency | Sync | Custom(name: string)

  /** A round of checks: the overall verdict and whether each check succeeded. */
  datatype Status = Status(healthy: bool, checks: map<CheckType, bool>)

  predicate LatencyFailed(st: Status) {
    Latency in st.checks && !st.checks[Latency]
  }

  ghost predicate OtherFailed(st: Status) {
    exists c :: c in st.checks && c != Latency && !st.checks[c]
  }

  /** A failed check other than latency, or an unhealthy verdict that no check explains. */
  ghost predicate HardFailure(st: Status) {
    OtherFailed(st) || (!st.healthy && !LatencyFailed(st))
  }

  ghost function SignalOf(st: Status): Signal {
    Signal(HardFailure(st), !HardFailure(st) && LatencyFailed(st))
  }

  /** The signal of a status, case by case: a failed check other than latency is a hard failure; failed
      latency alone is a degradation, also of an unhealthy verdict; without a failed check the verdict decides. */
  lemma SignalMeaning(st: Status, c: CheckType)
    ensures c in st.checks && !st.checks[c] && c != Latency ==> SignalOf(st) == Signal(true, false)
    ensures (forall d :: d in st.checks && d != Latency ==> st.checks[d]) && Latency in st.checks && !st.checks[Latency]
            ==> SignalOf(st) == Signal(false, true)
    ensures (forall d :: d in st.checks ==> st.checks[d]) ==> SignalOf(st) == Signal(!st.healthy, false)
  {
  }

  // ----- which signals are passed on -----

  /** The last signal of a history is passed on: a hard failure or a success only once it completes a
      run of the configured length, a latency report always. */
  ghost predicate Passes(failureThreshold: int, recoveryThreshold: int, h: seq<Signal>)
    requires h != []
  {
    && (h[|h| - 1].hardFail ==> TrailingRun(h, Hard()) >= failureThreshold)
    && (h[|h| - 1].Ok() ==> TrailingRun(h, Ok()) >= recoveryThreshold)
  }

  /** The signals of a history, from position start on, that are passed on. */
  ghost function Forwarded(failureThreshold: int, recoveryThreshold: int, h: seq<Signal>, start: nat): seq<Signal> {
    if |h| <= start then []
    else Forwarded(failureThreshold, recoveryThreshold, h[..|h| - 1], start)
         + (if Passes(failureThreshold, recoveryThreshold, h) then [h[|h| - 1]] else [])
  }

  /** With the recommended thresholds every signal is passed on, in order. */
  lemma {:induction false} PassThrough(failureThreshold: int, recoveryThreshold: int, h: seq<Signal>, start: nat)
    requires failureThreshold <= 1 && recoveryThreshold <= 1 && start <= |h|
    ensures Forwarded(failureThreshold, recoveryThreshold, h, start) == h[start..]
  {
    if start < |h| {
      PassThrough(failureThreshold, recoveryThreshold, h[..|h| - 1], start);
      assert h[start..] == h[..|h| - 1][start..] + [h[|h| - 1]];
    }
  }

  class Engine {
    const failureThreshold: int
    const recoveryThreshold: int
    var consecutiveFails: nat
    var consecutiveOKs: nat
    /** The signal of every status processed. */
    ghost var seen: seq<Signal>

    ghost predicate Valid()
      reads this
    {
      consecutiveFails == TrailingRun(seen, Hard()) && consecutiveOKs == TrailingRun(seen, Ok())
    }

    constructor (failureThreshold: int, recoveryThreshold: int)
      ensures this.failureThreshold == failureThreshold && this.recoveryThreshold == recoveryThreshold
      ensures Valid() && seen == []
    {
      this.failureThreshold := failureThreshold;
      this.recoveryThreshold := recoveryThreshold;
      consecutiveFails := 0;
      consecutiveOKs := 0;
      seen := [];
    }

    /** The checks are visited in any order and the visit stops at the first hard failure; neither
        changes the signal. */
    method Classify(status: Status) returns (hard: bool, latency: bool)
      ensures hard <==> HardFailure(status)
      ensures !hard ==> (latency <==> LatencyFailed(status))
    {
      hard, latency := false, false;
      var rest := status.checks.Keys;
      while rest != {}
        invariant rest <= status.checks.Keys && !hard
        invariant latency <==> Latency !in rest && LatencyFailed(status)
        invariant forall c :: c in status.checks && c != Latency && c !in rest ==> status.checks[c]
        decreases rest
      {
        var c :| c in rest;
        rest := rest - {c};
        if !status.checks[c] {
          if c == Latency {
            latency := true;
          } else {
            hard := true;
            break;
          }
        }
      }
      if !status.healthy && !hard && !latency {
        hard := true;
      }
    }

    method ProcessHealthStatus(status: Status) returns (signal: Signal, shouldSend: bool)
      requires Valid()
      modifies this
      ensures Valid() && seen == old(seen) + [SignalOf(status)]
      ensures shouldSend <==> Passes(failureThreshold, recoveryThreshold, seen)
      ensures shouldSend ==> signal == SignalOf(status)
    {
      var hard, latency := Classify(status);
      signal := Signal(false, false);
      shouldSend := false;
      seen := seen + [SignalOf(status)];
      assert seen[..|seen| - 1] == old(seen);
      if hard {
        consecutiveFails := consecutiveFails + 1;
        consecutiveOKs := 0;
        if consecutiveFails >= failureThreshold {
          signal := signal.(hardFail := true);
          shouldSend := true;
        }
      } else if latency {
        consecutiveFails := 0;
        consecutiveOKs := 0;
        signal := signal.(latencyDegraded := true);
        shouldSend := true;
      } else {
        consecutiveFails := 0;
        consecutiveOKs := consecutiveOKs + 1;
        if consecutiveOKs >= recoveryThreshold {
          shouldSend := true;
        }
      }
    }

    /** A stream of statuses: exactly the signals that pass are sent, in order. */
    method RunWithStatus(statuses: seq<Status>) returns (signals: seq<Signal>)
      requires Valid()
      modifies this
      ensures Valid() && |seen| == |old(seen)| + |statuses| && seen[..|old(seen)|] == old(seen)
      ensures forall i :: 0 <= i < |statuses| ==> seen[|old(seen)| + i] == SignalOf(statuses[i])
      ensures signals == Forwarded(failureThreshold, recoveryThreshold, seen, |old(seen)|)
    {
      signals := [];
      for i := 0 to |statuses|
        invariant Valid() && |seen| == |old(seen)| + i && seen[..|old(seen)|] == old(seen)
        invariant forall j :: 0 <= j < i ==> seen[|old(seen)| + j] == SignalOf(statuses[j])
        invariant signals == Forwarded(failureThreshold, recoveryThreshold, seen, |old(seen)|)
      {
        ghost var before := seen;
        var signal, shouldSend := ProcessHealthStatus(statuses[i]);
        assert seen[..|seen| - 1] == before;
        if shouldSend {
          signals := signals + [signal];
        }
      }
    }
  }
}
