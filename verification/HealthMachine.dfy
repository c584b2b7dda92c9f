/** The four-state health machine that decides when routes are announced or withdrawn. */
module HealthMachine {
  import opened ZoneModel

  datatype Health = Healthy | Degraded | Unhealthy | Recovering

  datatype Signal = Signal(hardFail: bool, latencyDegraded: bool) {
    predicate Ok() {
      !hardFail && !latencyDegraded
    }
  }

  datatype Config = Config(failureThreshold: nat, recoveryThreshold: nat, minStateDuration: nat) {
    predicate Valid() {
      failureThreshold >= 1 && recoveryThreshold >= 1
    }
  }

  predicate Serving(h: Health) {
    h == Healthy || h == Degraded
  }

  /** State and counters; the route-change clock is kept apart because no transition reads it. */
  datatype Core = Core(state: Health, fails: nat, oks: nat)

  const START := Core(Healthy, 0, 0)

  function OnHardFailure(cfg: Config, state: Health, fails: nat): Health {
    match state
    case Healthy => if fails >= cfg.failureThreshold then Unhealthy else Healthy
    case Degraded => if fails >= cfg.failureThreshold then Unhealthy else Degraded
    case Recovering => Unhealthy
    case Unhealthy => Unhealthy
  }

  function OnLatency(state: Health): Health {
    if state == Healthy then Degraded else state
  }

  function OnSuccess(cfg: Config, state: Health, oks: nat): Health {
    match state
    case Degraded => Healthy
    case Unhealthy => if oks >= 1 then Recovering else Unhealthy
    case Recovering => if oks >= cfg.recoveryThreshold then Healthy else Recovering
    case Healthy => Healthy
  }

  function Step(cfg: Config, c: Core, s: Signal): Core {
    if s.hardFail then Core(OnHardFailure(cfg, c.state, c.fails + 1), c.fails + 1, 0)
    else if s.latencyDegraded then Core(OnLatency(c.state), 0, 0)
    else Core(OnSuccess(cfg, c.state, c.oks + 1), 0, c.oks + 1)
  }

  predicate Debounced(cfg: Config, lastRouteChange: Option<int>, now: int) {
    lastRouteChange.Some? && now - lastRouteChange.value < cfg.minStateDuration
  }

  /** (announce, withdraw) as advised after a signal. */
  function Advice(cfg: Config, c: Core, s: Signal, lastRouteChange: Option<int>, now: int): (bool, bool) {
    if s.hardFail && Serving(c.state) then (false, false)
    else if Debounced(cfg, lastRouteChange, now) then (false, false)
    else (Serving(c.state), !Serving(c.state))
  }

  // ----- whole histories -----

  function After(cfg: Config, h: seq<Signal>): Core {
    if h == [] then START else Step(cfg, After(cfg, h[..|h| - 1]), h[|h| - 1])
  }

  lemma AfterAppend(cfg: Config, h: seq<Signal>, s: Signal)
    ensures After(cfg, h + [s]) == Step(cfg, After(cfg, h), s)
  {
    assert (h + [s])[..|h|] == h;
  }

  /** Length of the longest run of signals satisfying p at the end of the history. */
  ghost function TrailingRun(h: seq<Signal>, p: Signal -> bool): nat {
    if h == [] || !p(h[|h| - 1]) then 0 else 1 + TrailingRun(h[..|h| - 1], p)
  }

  ghost predicate IsTrailingRun(h: seq<Signal>, p: Signal -> bool, n: nat) {
    && n <= |h|
    && (forall i :: |h| - n <= i < |h| ==> p(h[i]))
    && (n < |h| ==> !p(h[|h| - n - 1]))
  }

  lemma {:induction false} TrailingRunMeaning(h: seq<Signal>, p: Signal -> bool)
    ensures IsTrailingRun(h, p, TrailingRun(h, p))
  {
    if h != [] && p(h[|h| - 1]) {
      TrailingRunMeaning(h[..|h| - 1], p);
    }
  }

  ghost function Hard(): Signal -> bool {
    (s: Signal) => s.hardFail
  }

  ghost function Ok(): Signal -> bool {
    (s: Signal) => s.Ok()
  }

  /** A success was seen after the last hard failure. */
  ghost predicate SuccessSinceHardFail(h: seq<Signal>) {
    exists i :: 0 <= i < |h| && h[i].Ok() && forall j :: i < j < |h| ==> !h[j].hardFail
  }

  lemma SuccessSinceStep(h: seq<Signal>, s: Signal)
    ensures SuccessSinceHardFail(h + [s]) <==> s.Ok() || (SuccessSinceHardFail(h) && !s.hardFail)
  {
    var g := h + [s];
    if s.Ok() {
      assert g[|h|].Ok();
    } else if SuccessSinceHardFail(h) && !s.hardFail {
      var i :| 0 <= i < |h| && h[i].Ok() && forall j :: i < j < |h| ==> !h[j].hardFail;
      assert g[i].Ok() && forall j :: i < j < |g| ==> !g[j].hardFail;
    }
    if SuccessSinceHardFail(g) {
      var i :| 0 <= i < |g| && g[i].Ok() && forall j :: i < j < |g| ==> !g[j].hardFail;
      if i < |h| {
        assert !g[|h|].hardFail;
        assert h[i].Ok() && forall j :: i < j < |h| ==> h[j] == g[j];
      }
    }
  }

  /** Over every signal history the counters are the lengths of the trailing runs, and outside
      service the machine is Recovering exactly when a success followed the last hard failure. */
  lemma {:induction false} HistoryMeaning(cfg: Config, h: seq<Signal>)
    requires cfg.Valid()
    ensures After(cfg, h).fails == TrailingRun(h, Hard())
    ensures After(cfg, h).oks == TrailingRun(h, Ok())
    ensures !Serving(After(cfg, h).state) ==>
              (After(cfg, h).state == Recovering <==> SuccessSinceHardFail(h))
  {
    if h != [] {
      var g := h[..|h| - 1];
      HistoryMeaning(cfg, g);
      SuccessSinceStep(g, h[|h| - 1]);
      assert g + [h[|h| - 1]] == h;
    }
  }

  /** The last signal that was not a hard failure. */
  ghost function LastSoft(h: seq<Signal>): Option<Signal> {
    if h == [] then None
    else if h[|h| - 1].hardFail then LastSoft(h[..|h| - 1])
    else Some(h[|h| - 1])
  }

  /** While in service, Degraded means exactly that the last signal other than a hard failure
      reported latency. */
  lemma {:induction false} ServiceGrade(cfg: Config, h: seq<Signal>)
    requires cfg.Valid() && Serving(After(cfg, h).state)
    ensures After(cfg, h).state == Degraded <==> LastSoft(h).Some? && LastSoft(h).value.latencyDegraded
  {
    if h != [] {
      var g := h[..|h| - 1];
      if Serving(After(cfg, g).state) {
        ServiceGrade(cfg, g);
      }
    }
  }

  /** Service is left at a signal exactly when the last failureThreshold signals were hard failures. */
  lemma LeavesServiceIff(cfg: Config, h: seq<Signal>, s: Signal)
    requires cfg.Valid() && Serving(After(cfg, h).state)
    ensures !Serving(After(cfg, h + [s]).state) <==> TrailingRun(h + [s], Hard()) >= cfg.failureThreshold
    ensures !Serving(After(cfg, h + [s]).state) ==> After(cfg, h + [s]).state == Unhealthy
  {
    HistoryMeaning(cfg, h + [s]);
    assert (h + [s])[..|h|] == h;
  }

  /** Service resumes at a signal exactly when it completes recoveryThreshold successes in a row
      and an earlier success had already followed the last hard failure. */
  lemma ReturnsToServiceIff(cfg: Config, h: seq<Signal>, s: Signal)
    requires cfg.Valid() && !Serving(After(cfg, h).state)
    ensures Serving(After(cfg, h + [s]).state)
            <==> SuccessSinceHardFail(h) && TrailingRun(h + [s], Ok()) >= cfg.recoveryThreshold
    ensures Serving(After(cfg, h + [s]).state) ==> After(cfg, h + [s]).state == Healthy
  {
    HistoryMeaning(cfg, h);
    HistoryMeaning(cfg, h + [s]);
    assert (h + [s])[..|h|] == h;
    if !s.Ok() {
      assert TrailingRun(h + [s], Ok()) == 0;
    }
  }

  /** So even a recovery threshold of 1 needs two successes after an outage. */
  lemma OneSuccessIsNotEnough(cfg: Config, h: seq<Signal>, s: Signal)
    requires cfg.Valid() && After(cfg, h).state == Unhealthy
    ensures !Serving(After(cfg, h + [s]).state)
  {
    HistoryMeaning(cfg, h);
    ReturnsToServiceIff(cfg, h, s);
  }

  /** Advice is never contradictory: announcing needs a serving state and no hard failure,
      withdrawing a non-serving one, and the debounce window silences both. */
  lemma AdviceIsSafe(cfg: Config, h: seq<Signal>, s: Signal, last: Option<int>, now: int)
    requires cfg.Valid()
    ensures var c := After(cfg, h + [s]);
            var (announce, withdraw) := Advice(cfg, c, s, last, now);
            && !(announce && withdraw)
            && (announce <==> Serving(c.state) && TrailingRun(h + [s], Hard()) == 0 && !Debounced(cfg, last, now))
            && (withdraw <==> !Serving(c.state) && !Debounced(cfg, last, now))
  {
    HistoryMeaning(cfg, h + [s]);
    assert (h + [s])[..|h|] == h;
  }

  /** When advice is given, without the notions above: once no change is marked or the last mark is at least
      minStateDuration old, Unhealthy and Recovering withdraw, Healthy and Degraded announce unless the
      signal is a hard failure; before that there is silence. */
  lemma AdviceWhen(cfg: Config, c: Core, s: Signal, last: Option<int>, now: int)
    ensures var (announce, withdraw) := Advice(cfg, c, s, last, now);
            if last.None? || now >= last.value + cfg.minStateDuration
            then && (withdraw <==> c.state == Unhealthy || c.state == Recovering)
                 && (announce <==> (c.state == Healthy || c.state == Degraded) && !s.hardFail)
            else !announce && !withdraw
  {
  }

  /** A new machine serves: its first success is advised to announce. */
  lemma FirstSuccessAnnounces(cfg: Config, s: Signal, now: int)
    requires cfg.Valid() && !s.hardFail && !s.latencyDegraded
    ensures After(cfg, [s]).state == Healthy && Advice(cfg, After(cfg, [s]), s, None, now) == (true, false)
  {
    assert [s] == [] + [s];
    AfterAppend(cfg, [], s);
  }

  /** The machine object. */
  class StateMachine {
    const config: Config
    var state: Health
    var consecutiveFails: nat
    var consecutiveOKs: nat
    var lastRouteChange: Option<int>

    ghost function View(): Core
      reads this
    {
      Core(state, consecutiveFails, consecutiveOKs)
    }

    constructor (config: Config)
      requires config.Valid()
      ensures this.config == config && View() == START && lastRouteChange == None
    {
      this.config := config;
      state := Healthy;
      consecutiveFails := 0;
      consecutiveOKs := 0;
      lastRouteChange := None;
    }

    method ProcessSignal(signal: Signal, now: int) returns (shouldAnnounce: bool, shouldWithdraw: bool)
      modifies this`state, this`consecutiveFails, this`consecutiveOKs
      ensures View() == Step(config, old(View()), signal)
      ensures (shouldAnnounce, shouldWithdraw) == Advice(config, View(), signal, lastRouteChange, now)
    {
      if signal.hardFail {
        consecutiveFails := consecutiveFails + 1;
        consecutiveOKs := 0;
        HandleHardFailure();
      } else if signal.latencyDegraded {
        consecutiveFails := 0;
        consecutiveOKs := 0;
        HandleLatencyDegradation();
      } else {
        consecutiveFails := 0;
        consecutiveOKs := consecutiveOKs + 1;
        HandleSuccess();
      }
      if signal.hardFail && (state == Healthy || state == Degraded) {
        return false, false;
      }
      shouldAnnounce, shouldWithdraw := DetermineRouteAction(now);
    }

    method HandleHardFailure()
      modifies this`state
      ensures state == OnHardFailure(config, old(state), consecutiveFails)
    {
      match state
      case Healthy =>
        if consecutiveFails >= config.failureThreshold {
          state := Unhealthy;
        }
      case Degraded =>
        if consecutiveFails >= config.failureThreshold {
          state := Unhealthy;
        }
      case Recovering => state := Unhealthy;
      case Unhealthy =>
    }

    method HandleLatencyDegradation()
      modifies this`state
      ensures state == OnLatency(old(state))
    {
      if state == Healthy {
        state := Degraded;
      }
    }

    method HandleSuccess()
      modifies this`state
      ensures state == OnSuccess(config, old(state), consecutiveOKs)
    {
      match state
      case Degraded => state := Healthy;
      case Unhealthy =>
        if consecutiveOKs >= 1 {
          state := Recovering;
        }
      case Recovering =>
        if consecutiveOKs >= config.recoveryThreshold {
          state := Healthy;
        }
      case Healthy =>
    }

    method DetermineRouteAction(now: int) returns (shouldAnnounce: bool, shouldWithdraw: bool)
      ensures shouldAnnounce <==> (state == Healthy || state == Degraded)
                                  && (lastRouteChange.None? || now >= lastRouteChange.value + config.minStateDuration)
      ensures shouldWithdraw <==> (state == Unhealthy || state == Recovering)
                                  && (lastRouteChange.None? || now >= lastRouteChange.value + config.minStateDuration)
    {
      if lastRouteChange.Some? {
        var since := now - lastRouteChange.value;
        if since < config.minStateDuration {
          return false, false;
        }
      }
      match state
      case Healthy => return true, false;
      case Degraded => return true, false;
      case Unhealthy => return false, true;
      case Recovering => return false, true;
    }

    method MarkRouteChanged(now: int)
      modifies this`lastRouteChange
      ensures lastRouteChange == Some(now)
    {
      lastRouteChange := Some(now);
    }
  }
}
