/** The route manager, which caches what BIRD is doing, and the loop that drives it from health signals. */
module RouteControl {
  import opened ZoneModel
  import opened HealthMachine
  import opened Text

  // ----- reading BIRD's answer -----

  predicate Blank(c: char) {
    c == ' ' || c == '\t'
  }

  /** word occurs in s at i, bounded by blanks or the ends of s. */
  predicate WordAt(s: string, word: string, i: nat) {
    && i < |s| && i + |word| <= |s|
    && s[i..i + |word|] == word
    && (i == 0 || Blank(s[i - 1]))
    && (i + |word| == |s| || Blank(s[i + |word|]))
  }

  ghost predicate Surrounded(s: string, word: string, p: string, q: string) {
    && s == p + word + q
    && (p == "" || p[|p| - 1] == ' ' || p[|p| - 1] == '\t')
    && (q == "" || q[0] == ' ' || q[0] == '\t')
  }

  /** A word is found exactly if the text is the word with text around it that ends and begins at blanks. */
  lemma WordMeaning(s: string, word: string)
    requires word != ""
    ensures (exists i: nat :: WordAt(s, word, i)) <==> exists p, q :: Surrounded(s, word, p, q)
  {
    if i: nat :| WordAt(s, word, i) {
      assert s == s[..i] + s[i..i + |word|] + s[i + |word|..];
      assert Surrounded(s, word, s[..i], s[i + |word|..]);
    }
    if p, q :| Surrounded(s, word, p, q) {
      assert s[|p|..|p| + |word|] == word;
      assert WordAt(s, word, |p|);
    }
  }

  method ContainsWord(s: string, word: string) returns (found: bool)
    ensures found <==> exists i: nat :: WordAt(s, word, i)
  {
    var i := 0;
    while i < |s|
      invariant 0 <= i <= |s|
      invariant forall j: nat :: j < i ==> !WordAt(s, word, j)
    {
      if i + |word| > |s| {
        break;
      }
      if s[i..i + |word|] == word {
        var beforeOK := i == 0 || s[i - 1] == ' ' || s[i - 1] == '\t';
        var afterOK := i + |word| == |s| || s[i + |word|] == ' ' || s[i + |word|] == '\t';
        if beforeOK && afterOK {
          assert WordAt(s, word, i);
          return true;
        }
      }
      i := i + 1;
    }
    return false;
  }

  ghost predicate SaysDisabled(line: string) {
    var t := TrimSpace(line);
    exists i: nat :: WordAt(t, "Disabled", i) || WordAt(t, "disabled", i)
  }

  /** A "show protocols" answer reports a disabled protocol when some line says so. */
  ghost predicate ReportsDisabled(output: string) {
    exists line <- Lines(output) :: SaysDisabled(line)
  }

  method ProtocolEnabledFromShowProtocols(output: string) returns (enabled: bool)
    ensures enabled <==> !ReportsDisabled(output)
  {
    var lines := Lines(output);
    for k := 0 to |lines|
      invariant forall j :: 0 <= j < k ==> !SaysDisabled(lines[j])
    {
      var line := TrimSpace(lines[k]);
      if line == "" {
        continue;
      }
      var upper := ContainsWord(line, "Disabled");
      var lower := ContainsWord(line, "disabled");
      if upper || lower {
        assert SaysDisabled(lines[k]);
        return false;
      }
    }
    return true;
  }

  lemma DisabledLine()
    ensures ReportsDisabled("Disabled")
  {
    assert WordAt("Disabled", "Disabled", 0);
    assert TrimSpace("Disabled") == "Disabled";
    OneLine("Disabled");
    assert SaysDisabled("Disabled");
  }

  datatype Request = Enable(name: string) | Disable(name: string) | Show(name: string)

  /** A request and whether BIRD confirmed it. */
  datatype Exchange = Exchange(request: Request, ok: bool)

  ghost predicate AllOk(log: seq<Exchange>) {
    forall i :: 0 <= i < |log| ==> log[i].ok
  }

  /** The log holds exactly these requests, in this order. */
  ghost predicate Requests(log: seq<Exchange>, requests: seq<Request>) {
    |log| == |requests| && forall i :: 0 <= i < |log| ==> log[i].request == requests[i]
  }

  ghost function Enables(ps: seq<string>): (r: seq<Request>)
    ensures |r| == |ps| && forall i :: 0 <= i < |ps| ==> r[i] == Enable(ps[i])
  {
    seq(|ps|, i requires 0 <= i < |ps| => Enable(ps[i]))
  }

  ghost function Disables(ps: seq<string>): (r: seq<Request>)
    ensures |r| == |ps| && forall i :: 0 <= i < |ps| ==> r[i] == Disable(ps[i])
  {
    seq(|ps|, i requires 0 <= i < |ps| => Disable(ps[i]))
  }

  ghost function Shows(ps: seq<string>): (r: seq<Request>)
    ensures |r| == |ps| && forall i :: 0 <= i < |ps| ==> r[i] == Show(ps[i])
  {
    seq(|ps|, i requires 0 <= i < |ps| => Show(ps[i]))
  }

  /** The first k enables succeeded, the next one failed, and then every protocol was told to stop; a
      withdraw stays due exactly when one of those requests failed too. */
  ghost predicate BackedOut(ps: seq<string>, sent: seq<Exchange>, k: nat, withdrawDue: bool) {
    && k < |ps| && k < |sent|
    && Requests(sent[..k + 1], Enables(ps[..k + 1]))
    && AllOk(sent[..k]) && !sent[k].ok
    && Requests(sent[k + 1..], Disables(ps))
    && (withdrawDue <==> !AllOk(sent[k + 1..]))
  }

  /** Enables up to the first failure, which is request k. */
  ghost predicate StoppedAt(ps: seq<string>, sent: seq<Exchange>, k: nat) {
    k < |ps| && |sent| == k + 1 && forall j :: 0 <= j <= k ==> sent[j] == Exchange(Enable(ps[j]), j < k)
  }

  lemma BackedOutParts(ps: seq<string>, tried: seq<Exchange>, stop: seq<Exchange>, k: nat, withdrawDue: bool)
    requires StoppedAt(ps, tried, k)
    requires Requests(stop, Disables(ps)) && (withdrawDue <==> !AllOk(stop))
    ensures BackedOut(ps, tried + stop, k, withdrawDue)
  {
    var sent := tried + stop;
    assert sent[..k + 1] == tried && sent[k + 1..] == stop && sent[..k] == tried[..k];
  }

  /** The BIRD daemon and everything it was ever asked. A request that fails may or may not have
      taken effect. */
  class Bird {
    var enabled: set<string>
    ghost var log: seq<Exchange>

    method EnableProtocol(name: string) returns (ok: bool)
      modifies this
      ensures enabled == old(enabled) + {name} || (!ok && enabled == old(enabled))
      ensures log == old(log) + [Exchange(Enable(name), ok)]
    {
      ok := *;
      var applied: bool := *;
      if ok || applied {
        enabled := enabled + {name};
      }
      log := log + [Exchange(Enable(name), ok)];
    }

    method DisableProtocol(name: string) returns (ok: bool)
      modifies this
      ensures enabled == old(enabled) - {name} || (!ok && enabled == old(enabled))
      ensures log == old(log) + [Exchange(Disable(name), ok)]
    {
      ok := *;
      var applied: bool := *;
      if ok || applied {
        enabled := enabled - {name};
      }
      log := log + [Exchange(Disable(name), ok)];
    }

    method ShowProtocols(name: string) returns (answer: Option<string>)
      modifies this`log
      ensures answer.Some? ==> (ReportsDisabled(answer.value) <==> name !in enabled)
      ensures log == old(log) + [Exchange(Show(name), answer.Some?)]
    {
      var answered: bool := *;
      log := log + [Exchange(Show(name), answered)];
      if !answered {
        return None;
      }
      if name in enabled {
        assert Lines("") == [""];
        return Some("");
      }
      DisabledLine();
      return Some("Disabled");
    }
  }

  // ----- the route manager -----

  class RouteManager {
    const bird: Bird
    const protocols: seq<string>
    var announced: bool
    var needsWithdraw: bool
    var lastChange: int

    ghost predicate AllEnabled()
      reads bird
    {
      forall p <- protocols :: p in bird.enabled
    }

    ghost predicate AllDisabled()
      reads bird
    {
      forall p <- protocols :: p !in bird.enabled
    }

    /** The cached state never claims more than BIRD is doing. */
    ghost predicate Sound()
      reads this, bird
    {
      (announced ==> AllEnabled()) && (!announced && !needsWithdraw ==> AllDisabled())
    }

    /** Protocols configured elsewhere are never touched, and no request is forgotten. */
    twostate predicate OthersUntouched()
      reads bird
    {
      && old(bird.log) <= bird.log
      && forall p :: p !in protocols ==> (p in bird.enabled <==> p in old(bird.enabled))
    }

    /** The requests sent since, with their outcomes. */
    twostate function Sent(): seq<Exchange>
      reads bird
    {
      if |old(bird.log)| <= |bird.log| then bird.log[|old(bird.log)|..] else []
    }

    constructor (bird: Bird, protocols: seq<string>)
      ensures this.bird == bird && this.protocols == protocols
      ensures !announced && needsWithdraw && Sound()
    {
      this.bird := bird;
      this.protocols := protocols;
      announced := false;
      needsWithdraw := true;
      lastChange := 0;
    }

    /** Adopts BIRD's real state, whatever the cache said before; on error, which needs an unanswered
        request or an empty configuration, it keeps the cache. */
    method Reconcile() returns (ok: bool)
      modifies this`announced, this`needsWithdraw, bird`log
      ensures ok ==> Sound()
      ensures ok ==> (announced <==> AllEnabled()) && (needsWithdraw <==> !AllEnabled() && !AllDisabled())
      ensures !ok ==> announced == old(announced) && needsWithdraw == old(needsWithdraw)
      ensures OthersUntouched() && bird.enabled == old(bird.enabled)
      ensures ok <==> protocols != [] && AllOk(Sent())
      ensures ok ==> Requests(Sent(), Shows(protocols))
    {
      if |protocols| == 0 {
        return false;
      }
      var allEnabled, anyEnabled := true, false;
      ghost var sent: seq<Exchange> := [];
      for i := 0 to |protocols|
        invariant announced == old(announced) && needsWithdraw == old(needsWithdraw)
        invariant bird.log == old(bird.log) + sent
        invariant AllOk(sent) && |sent| == i && forall j :: 0 <= j < i ==> sent[j].request == Show(protocols[j])
        invariant allEnabled <==> forall j :: 0 <= j < i ==> protocols[j] in bird.enabled
        invariant anyEnabled <==> exists j :: 0 <= j < i && protocols[j] in bird.enabled
      {
        var answer := bird.ShowProtocols(protocols[i]);
        sent := sent + [Exchange(Show(protocols[i]), answer.Some?)];
        assert bird.log == old(bird.log) + sent;
        if answer.None? {
          assert Sent() == sent && !Sent()[i].ok;
          return false;
        }
        var on := ProtocolEnabledFromShowProtocols(answer.value);
        if on {
          anyEnabled := true;
        } else {
          allEnabled := false;
        }
      }
      assert Sent() == sent;
      announced := allEnabled;
      needsWithdraw := anyEnabled && !allEnabled;
      return true;
    }

    /** Enables every protocol in turn; at the first failure it disables all of them again. */
    method AnnounceRoutesChanged(now: int) returns (changed: bool, ok: bool)
      requires Sound()
      modifies this, bird
      ensures Sound() && OthersUntouched()
      ensures ok <==> announced
      ensures changed <==> ok && !old(announced)
      ensures changed ==> lastChange == now && !needsWithdraw && Requests(Sent(), Enables(protocols))
      ensures ok && !changed ==> lastChange == old(lastChange) && bird.enabled == old(bird.enabled) && Sent() == []
      ensures ok ==> AllEnabled()
      ensures AllOk(Sent()) ==> ok
      ensures !ok ==> exists k :: BackedOut(protocols, Sent(), k, needsWithdraw)
      ensures !ok && !needsWithdraw ==> AllDisabled() && lastChange == now
      ensures !ok && needsWithdraw ==> lastChange == old(lastChange)
    {
      if announced {
        return false, true;
      }
      var enabled, k := EnableAll();
      if !enabled {
        ghost var tried, mid := Sent(), bird.log;
        RollbackAnnounceFailure(now);
        ghost var stop := bird.log[|mid|..];
        BackedOutParts(protocols, tried, stop, k, needsWithdraw);
        assert Sent() == tried + stop;
        return false, false;
      }
      announced := true;
      needsWithdraw := false;
      lastChange := now;
      return true, true;
    }

    /** Stops at the first failure, which is request k. */
    method EnableAll() returns (ok: bool, ghost k: nat)
      modifies bird
      ensures OthersUntouched()
      ensures ok ==> AllEnabled() && |Sent()| == |protocols|
                     && forall j :: 0 <= j < |protocols| ==> Sent()[j] == Exchange(Enable(protocols[j]), true)
      ensures !ok ==> StoppedAt(protocols, Sent(), k)
    {
      ghost var sent: seq<Exchange> := [];
      k := 0;
      for i := 0 to |protocols|
        invariant bird.log == old(bird.log) + sent
        invariant forall p :: p !in protocols ==> (p in bird.enabled <==> p in old(bird.enabled))
        invariant |sent| == i && forall j :: 0 <= j < i ==> sent[j] == Exchange(Enable(protocols[j]), true)
        invariant forall j :: 0 <= j < i ==> protocols[j] in bird.enabled
      {
        var done := bird.EnableProtocol(protocols[i]);
        sent := sent + [Exchange(Enable(protocols[i]), done)];
        assert bird.log == old(bird.log) + sent;
        if !done {
          k := i;
          assert Sent() == sent;
          return false, k;
        }
      }
      assert Sent() == sent;
      return true, k;
    }

    method RollbackAnnounceFailure(now: int)
      modifies this, bird
      ensures !announced && Sound() && OthersUntouched()
      ensures Requests(Sent(), Disables(protocols)) && (needsWithdraw <==> !AllOk(Sent()))
      ensures lastChange == if needsWithdraw then old(lastChange) else now
    {
      announced := false;
      var ok := WithdrawRoutesLocked();
      if !ok {
        needsWithdraw := true;
        return;
      }
      needsWithdraw := false;
      lastChange := now;
    }

    /** Issues every disable even after one fails: a protocol is still enabled only if its own request
        failed, and the call succeeds exactly when none did. */
    method WithdrawRoutesLocked() returns (ok: bool)
      modifies bird
      ensures OthersUntouched()
      ensures Requests(Sent(), Disables(protocols))
      ensures ok <==> AllOk(Sent())
      ensures forall p <- protocols :: p in bird.enabled ==> Exchange(Disable(p), false) in Sent()
      ensures bird.enabled <= old(bird.enabled)
      ensures ok ==> AllDisabled()
    {
      ok := true;
      ghost var sent: seq<Exchange> := [];
      for i := 0 to |protocols|
        invariant bird.log == old(bird.log) + sent
        invariant forall p :: p !in protocols ==> (p in bird.enabled <==> p in old(bird.enabled))
        invariant bird.enabled <= old(bird.enabled)
        invariant |sent| == i && forall j :: 0 <= j < i ==> sent[j].request == Disable(protocols[j])
        invariant ok <==> AllOk(sent)
        invariant forall j :: 0 <= j < i ==>
                    (protocols[j] in bird.enabled ==> Exchange(Disable(protocols[j]), false) in sent)
      {
        var done := bird.DisableProtocol(protocols[i]);
        sent := sent + [Exchange(Disable(protocols[i]), done)];
        assert bird.log == old(bird.log) + sent;
        assert sent[i].ok == done;
        if !done {
          ok := false;
        }
      }
      assert Sent() == sent;
    }

    /** Disables everything whatever the cache says; succeeds exactly when no request failed. */
    method ForceWithdrawRoutes(now: int) returns (ok: bool)
      modifies this, bird
      ensures Sound() && OthersUntouched()
      ensures Requests(Sent(), Disables(protocols)) && (ok <==> AllOk(Sent()))
      ensures ok ==> AllDisabled() && !needsWithdraw && lastChange == now
      ensures !announced && (!ok ==> needsWithdraw && lastChange == old(lastChange))
    {
      ok := WithdrawRoutesLocked();
      announced := false;
      if !ok {
        needsWithdraw := true;
        return;
      }
      needsWithdraw := false;
      lastChange := now;
    }

    /** Disables everything if the cache says there is something to withdraw; succeeds exactly when no
        request failed. */
    method WithdrawRoutesChanged(now: int) returns (changed: bool, ok: bool)
      requires Sound()
      modifies this, bird
      ensures Sound() && OthersUntouched()
      ensures !announced && (ok <==> !needsWithdraw)
      ensures ok ==> AllDisabled()
      ensures ok <==> AllOk(Sent())
      ensures Requests(Sent(), if old(announced || needsWithdraw) then Disables(protocols) else [])
      ensures changed <==> ok && (old(announced) || old(needsWithdraw))
      ensures lastChange == if changed then now else old(lastChange)
      ensures ok && !changed ==> bird.enabled == old(bird.enabled)
    {
      if !announced && !needsWithdraw {
        return false, true;
      }
      ok := WithdrawRoutesLocked();
      announced := false;
      if !ok {
        needsWithdraw := true;
        return false, false;
      }
      needsWithdraw := false;
      lastChange := now;
      return true, true;
    }
  }

  datatype Call = Reconcile | Announce | Withdraw | ForceWithdraw

  /** Any sequence of calls, whatever BIRD answers, leaves the cache sound after each of them. */
  method AnyCalls(rm: RouteManager, calls: seq<Call>, now: int)
    requires rm.Sound()
    modifies rm, rm.bird
    ensures rm.Sound() && rm.OthersUntouched()
  {
    for i := 0 to |calls|
      invariant rm.Sound() && rm.OthersUntouched()
    {
      match calls[i]
      case Reconcile => var _ := rm.Reconcile();
      case Announce => var _, _ := rm.AnnounceRoutesChanged(now);
      case Withdraw => var _, _ := rm.WithdrawRoutesChanged(now);
      case ForceWithdraw => var _ := rm.ForceWithdrawRoutes(now);
    }
  }

  // ----- the control loop -----

  /** One health signal and the clock at the decision and at the route-change mark. */
  datatype Tick = Tick(signal: Signal, decideAt: int, markAt: int)

  ghost predicate ClockAdvances(ticks: seq<Tick>) {
    forall i :: 0 <= i < |ticks| ==> ticks[i].decideAt <= ticks[i].markAt
  }

  ghost predicate SpacedBy(marks: seq<int>, gap: nat) {
    forall i, j :: 0 <= i < j < |marks| ==> marks[i] + gap <= marks[j]
  }

  class ControlLoop {
    const sm: StateMachine
    const rm: RouteManager
    /** Every signal processed and every marked route change, in order. */
    ghost var history: seq<Signal>
    ghost var marks: seq<int>

    ghost predicate Valid()
      reads this, sm, rm, rm.bird
    {
      && sm.config.Valid() && rm.Sound()
      && sm.View() == After(sm.config, history)
      && sm.lastRouteChange == (if marks == [] then None else Some(marks[|marks| - 1]))
      && SpacedBy(marks, sm.config.minStateDuration)
    }

    constructor (sm: StateMachine, rm: RouteManager)
      requires sm.config.Valid() && sm.View() == START && sm.lastRouteChange == None && rm.Sound()
      ensures Valid() && this.sm == sm && this.rm == rm && history == [] && marks == []
    {
      this.sm := sm;
      this.rm := rm;
      history := [];
      marks := [];
    }

    /** No route change is marked, or the last mark is at least minStateDuration old. */
    ghost predicate Due(marks: seq<int>, now: int) {
      marks == [] || now >= marks[|marks| - 1] + sm.config.minStateDuration
    }

    /** One signal. Unless debounced, and if BIRD confirms every request, a machine out of service leaves
        every protocol disabled and a serving one leaves every protocol enabled, except that a hard
        failure short of the threshold changes nothing. */
    method ProcessSignal(tick: Tick) returns (ok: bool)
      requires Valid() && tick.decideAt <= tick.markAt
      modifies this, sm, rm, rm.bird
      ensures Valid() && history == old(history) + [tick.signal]
      ensures marks == old(marks) || marks == old(marks) + [tick.markAt]
      ensures rm.OthersUntouched() && (AllOk(rm.Sent()) ==> ok)
      ensures Due(old(marks), tick.decideAt) && ok ==>
                && (sm.state == Unhealthy || sm.state == Recovering ==> rm.AllDisabled())
                && ((sm.state == Healthy || sm.state == Degraded) && !tick.signal.hardFail ==> rm.AllEnabled())
      ensures !Due(old(marks), tick.decideAt) || ((sm.state == Healthy || sm.state == Degraded) && tick.signal.hardFail) ==>
                ok && rm.Sent() == [] && rm.bird.enabled == old(rm.bird.enabled) && marks == old(marks)
    {
      ok := true;
      var shouldAnnounce, shouldWithdraw := Observe(tick);
      AdviceWhen(sm.config, sm.View(), tick.signal, sm.lastRouteChange, tick.decideAt);
      if shouldAnnounce {
        ok := Announce(tick);
      }
      if shouldWithdraw {
        ok := Withdraw(tick);
      }
    }

    method Observe(tick: Tick) returns (shouldAnnounce: bool, shouldWithdraw: bool)
      requires Valid()
      modifies this`history, sm`state, sm`consecutiveFails, sm`consecutiveOKs
      ensures Valid() && history == old(history) + [tick.signal]
      ensures (shouldAnnounce, shouldWithdraw)
              == Advice(sm.config, sm.View(), tick.signal, sm.lastRouteChange, tick.decideAt)
    {
      shouldAnnounce, shouldWithdraw := sm.ProcessSignal(tick.signal, tick.decideAt);
      AfterAppend(sm.config, history, tick.signal);
      history := history + [tick.signal];
    }

    method Announce(tick: Tick) returns (ok: bool)
      requires Valid() && tick.decideAt <= tick.markAt
      requires !Debounced(sm.config, sm.lastRouteChange, tick.decideAt)
      modifies this`marks, sm`lastRouteChange, rm, rm.bird
      ensures Valid() && (marks == old(marks) || marks == old(marks) + [tick.markAt])
      ensures rm.OthersUntouched() && (AllOk(rm.Sent()) ==> ok)
      ensures ok ==> rm.AllEnabled()
    {
      var changed, done := rm.AnnounceRoutesChanged(tick.markAt);
      if done && changed {
        Mark(tick);
      }
      return done;
    }

    method Withdraw(tick: Tick) returns (ok: bool)
      requires Valid() && tick.decideAt <= tick.markAt
      requires !Debounced(sm.config, sm.lastRouteChange, tick.decideAt)
      modifies this`marks, sm`lastRouteChange, rm, rm.bird
      ensures Valid() && (marks == old(marks) || marks == old(marks) + [tick.markAt])
      ensures rm.OthersUntouched() && (AllOk(rm.Sent()) ==> ok)
      ensures ok ==> rm.AllDisabled()
    {
      var changed, done := rm.WithdrawRoutesChanged(tick.markAt);
      if done && changed {
        Mark(tick);
      }
      return done;
    }

    method Mark(tick: Tick)
      requires Valid() && tick.decideAt <= tick.markAt
      requires !Debounced(sm.config, sm.lastRouteChange, tick.decideAt)
      modifies this`marks, sm`lastRouteChange
      ensures Valid() && marks == old(marks) + [tick.markAt]
    {
      sm.MarkRouteChanged(tick.markAt);
      ExtendSpaced(marks, tick.markAt, sm.config.minStateDuration);
      marks := marks + [tick.markAt];
    }

    /** The shutdown withdrawal. */
    method Shutdown(now: int) returns (ok: bool)
      requires Valid()
      modifies rm, rm.bird
      ensures Valid() && rm.OthersUntouched()
      ensures ok <==> AllOk(rm.Sent())
      ensures rm.Sent() == [] || Requests(rm.Sent(), Disables(rm.protocols))
      ensures ok ==> rm.AllDisabled()
    {
      var changed, done := rm.WithdrawRoutesChanged(now);
      return done;
    }

    /** The loop over a whole stream of signals until the channel closes, then shutdown, whose requests
        are the log from position last on. If BIRD confirms those, every protocol ends up disabled. */
    method Run(ticks: seq<Tick>, end: int) returns (ok: bool, ghost last: nat)
      requires Valid() && ClockAdvances(ticks)
      modifies this, sm, rm, rm.bird
      ensures Valid() && rm.OthersUntouched()
      ensures |history| == |old(history)| + |ticks|
      ensures forall i :: 0 <= i < |ticks| ==> history[|old(history)| + i] == ticks[i].signal
      ensures SpacedBy(marks, sm.config.minStateDuration)
      ensures |old(rm.bird.log)| <= last <= |rm.bird.log|
      ensures ok <==> AllOk(rm.bird.log[last..])
      ensures ok ==> rm.AllDisabled()
      ensures rm.bird.log[last..] == [] || Requests(rm.bird.log[last..], Disables(rm.protocols))
    {
      for i := 0 to |ticks|
        invariant Valid() && rm.OthersUntouched()
        invariant |history| == |old(history)| + i
        invariant forall j :: 0 <= j < i ==> history[|old(history)| + j] == ticks[j].signal
      {
        var _ := ProcessSignal(ticks[i]);
      }
      last := |rm.bird.log|;
      ok := Shutdown(end);
    }
  }

  lemma ExtendSpaced(marks: seq<int>, t: int, gap: nat)
    requires SpacedBy(marks, gap)
    requires marks == [] || t - marks[|marks| - 1] >= gap
    ensures SpacedBy(marks + [t], gap)
  {
  }

  /** So n route changes take at least n - 1 debounce windows. */
  lemma {:induction false} SpacingAddsUp(marks: seq<int>, gap: nat, i: nat, j: nat)
    requires SpacedBy(marks, gap) && i <= j < |marks|
    ensures marks[i] + gap * (j - i) <= marks[j]
    decreases j - i
  {
    if i < j {
      SpacingAddsUp(marks, gap, i, j - 1);
      assert gap * (j - i) == gap * (j - 1 - i) + gap;
    }
  }
}
