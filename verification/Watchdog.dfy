/**
 The php-fpm watchdog (internal/supervisor/watchdog.go): it health-checks the supervisor and
 restarts it, opening a circuit when restarts come too fast.

 Times are integer nanoseconds. One check reads the clock up to three times; the readings are
 inputs. The watchdog carries a ghost log of what it did, and the theorems are about that log over
 whole runs in which starts, stops, child exits and checks are interleaved.
 */
module Watchdog {
  import opened Common
  import opened Supervisor

  datatype Config = Config(minBackoff: int, maxBackoff: int,
                           maxRestarts: int, restartWindow: int, circuitCooldown: int) {
    /** A negative limit admits no restart, just as zero does. */
    function Budget(): nat {
      if maxRestarts < 0 then 0 else maxRestarts
    }
  }

  datatype Mark = Attempt(at: int) | Opened(at: int) | Cleared(at: int)

  datatype Dog = Dog(circuitOpen: bool, circuitUntil: int, restarts: seq<int>, totalRestart: nat, log: seq<Mark>)

  /** The clock readings of one check: the circuit test, the window cutoff, and the recorded time. */
  datatype Clock = Clock(tested: int, cutoff: int, recorded: int) {
    ghost predicate Ordered() {
      tested <= cutoff <= recorded
    }
  }

  function Sleeping(): Dog {
    Dog(false, 0, [], 0, [])
  }

  predicate CircuitOpenAt(d: Dog, now: int) {
    d.circuitOpen && now < d.circuitUntil
  }

  /** The restarts after `cutoff`, in order. */
  function Recent(times: seq<int>, cutoff: int): seq<int> {
    if times == [] then []
    else
      var rest := Recent(times[..|times| - 1], cutoff);
      if times[|times| - 1] > cutoff then rest + [times[|times| - 1]] else rest
  }

  function AfterHealthy(d: Dog, now: int): Dog {
    if d.circuitOpen && now > d.circuitUntil
    then d.(circuitOpen := false, restarts := [], log := d.log + [Cleared(now)])
    else d
  }

  predicate Exhausted(cfg: Config, d: Dog, t: Clock) {
    |Recent(d.restarts, t.cutoff - cfg.restartWindow)| >= cfg.maxRestarts
  }

  function AfterRestart(cfg: Config, d: Dog, t: Clock): Dog {
    var kept := Recent(d.restarts, t.cutoff - cfg.restartWindow);
    if Exhausted(cfg, d, t)
    then d.(restarts := kept, circuitOpen := true, circuitUntil := t.recorded + cfg.circuitCooldown,
            log := d.log + [Opened(t.recorded)])
    else d.(restarts := kept + [t.recorded], totalRestart := d.totalRestart + 1, log := d.log + [Attempt(t.recorded)])
  }

  /** States in which a supervisor is not the watchdog's business. */
  predicate LeftAlone(s: State) {
    s in {Stopped, Stopping, Absent, Starting, Draining}
  }

  /** The inputs of one check: `cancelled` means the context ends during the backoff delay. */
  datatype CheckEnv<Id> = CheckEnv(clock: Clock, probe: Probe, cancelled: bool, launch: Launch, child: Id)

  datatype System<Id> = System(sup: Sup<Id>, dog: Dog)

  function AfterCheck<Id>(cfg: Config, s: System<Id>, e: CheckEnv<Id>): System<Id> {
    if LeftAlone(s.sup.state) then s
    else if Check(s.sup, e.probe) == Healthy then s.(dog := AfterHealthy(s.dog, e.clock.tested))
    else if CircuitOpenAt(s.dog, e.clock.tested) then s
    else System(
      if Exhausted(cfg, s.dog, e.clock) || e.cancelled then s.sup
      else AfterStart(AfterStop(s.sup), e.launch, e.child),
      AfterRestart(cfg, s.dog, e.clock))
  }

  // ---------------------------------------------------------------------------------------------
  // The watchdog, updated in place
  // ---------------------------------------------------------------------------------------------

  class Watchdog {
    const sup: Supervisor
    const cfg: Config
    var circuitOpen: bool
    var circuitUntil: int
    var restarts: seq<int>
    var totalRestart: nat
    ghost var log: seq<Mark>

    ghost function Value(): Dog
      reads this
    {
      Dog(circuitOpen, circuitUntil, restarts, totalRestart, log)
    }

    ghost predicate Valid()
      reads this, sup, sup.children, sup.cmd
    {
      sup.Valid() && this as object !in sup.Footprint()
    }

    ghost function View(): System<Cmd?>
      reads this, sup.Footprint()
    {
      System(sup.View(), Value())
    }

    constructor (sup: Supervisor, cfg: Config)
      requires sup.Valid()
      ensures Valid() && this.sup == sup && this.cfg == cfg
      ensures Value() == Sleeping()
    {
      this.sup, this.cfg := sup, cfg;
      circuitOpen, circuitUntil, restarts, totalRestart, log := false, 0, [], 0, [];
    }

    method CircuitOpen(now: int) returns (open: bool)
      ensures open == CircuitOpenAt(Value(), now)
    {
      return circuitOpen && now < circuitUntil;
    }

    method RecordHealthy(now: int)
      modifies this
      ensures Value() == AfterHealthy(old(Value()), now)
    {
      if circuitOpen && now > circuitUntil {
        circuitOpen, restarts := false, [];
        log := log + [Cleared(now)];
      }
    }

    /** Drop the restarts that have left the window, then either count this one or open the circuit. */
    method Admit(t: Clock) returns (attempt: int)
      modifies this
      ensures Value() == AfterRestart(cfg, old(Value()), t)
      ensures if Exhausted(cfg, old(Value()), t) then attempt == -1 else 0 <= attempt == |restarts| - 1
    {
      var cutoff := t.cutoff - cfg.restartWindow;
      var kept := [];
      for i := 0 to |restarts|
        invariant kept == Recent(restarts[..i], cutoff)
      {
        assert restarts[..i + 1][..i] == restarts[..i];
        if restarts[i] > cutoff {
          kept := kept + [restarts[i]];
        }
      }
      assert restarts[..|restarts|] == restarts;
      restarts := kept;
      if |restarts| >= cfg.maxRestarts {
        circuitOpen, circuitUntil := true, t.recorded + cfg.circuitCooldown;
        log := log + [Opened(t.recorded)];
        return -1;
      }
      attempt := |restarts|;
      restarts, totalRestart := restarts + [t.recorded], totalRestart + 1;
      log := log + [Attempt(t.recorded)];
    }

    /** `jitter` is the random draw of the backoff, if the random source works. */
    method Restart(clock: Clock, cancelled: bool, launch: Launch, jitter: Option<nat>) returns (ghost child: Cmd?)
      requires Valid()
      modifies this, sup.Footprint()
      ensures Valid() && fresh(sup.Footprint() - old(sup.Footprint()))
      ensures Value() == AfterRestart(cfg, old(Value()), clock)
      ensures sup.View() == if Exhausted(cfg, old(Value()), clock) || cancelled then old(sup.View())
                            else AfterStart(AfterStop(old(sup.View())), launch, child)
    {
      hide AfterRestart, AfterStart, AfterStop, Exhausted;
      child := null;
      var attempt := Admit(clock);
      if attempt < 0 {
        return;
      }
      var delay := Backoff(cfg.minBackoff, cfg.maxBackoff, attempt, jitter);
      if cancelled {
        return;
      }
      sup.Stop();
      var ok, c := sup.Start(launch);
      child := c;
    }

    /** One tick of the loop. */
    method Tick(clock: Clock, probe: Probe, cancelled: bool, launch: Launch, jitter: Option<nat>)
      returns (ghost child: Cmd?)
      requires Valid()
      modifies this, sup.Footprint()
      ensures Valid() && fresh(sup.Footprint() - old(sup.Footprint()))
      ensures View() == AfterCheck(cfg, old(View()), CheckEnv(clock, probe, cancelled, launch, child))
    {
      hide AfterRestart, AfterStart, AfterStop, Exhausted;
      child := null;
      if LeftAlone(sup.state) {
        return;
      }
      var health := sup.HealthCheck(probe);
      if health == Healthy {
        RecordHealthy(clock.tested);
        return;
      }
      var open := CircuitOpen(clock.tested);
      if open {
        return;
      }
      child := Restart(clock, cancelled, launch, jitter);
    }
  }

  // ---------------------------------------------------------------------------------------------
  // Backoff
  // ---------------------------------------------------------------------------------------------

  function Doubled(d: int, n: nat): int {
    if n == 0 then d else 2 * Doubled(d, n - 1)
  }

  /** minBackoff * 2^attempt, but at most maxBackoff. */
  function Capped(minBackoff: int, maxBackoff: int, attempt: nat): int {
    if Doubled(minBackoff, attempt) > maxBackoff then maxBackoff else Doubled(minBackoff, attempt)
  }

  lemma {:induction false} DoubledGrows(d: int, m: nat, n: nat)
    requires 0 <= d && m <= n
    ensures Doubled(d, m) <= Doubled(d, n)
  {
    if m < n {
      DoubledGrows(d, m, n - 1);
      DoubledSign(d, n - 1);
    }
  }

  lemma {:induction false} DoubledShrinks(d: int, n: nat)
    requires d < 0
    ensures Doubled(d, n) <= d
  {
    if n > 0 { DoubledShrinks(d, n - 1); }
  }

  lemma {:induction false} DoubledSign(d: int, n: nat)
    requires 0 <= d
    ensures 0 <= Doubled(d, n)
  {
    if n > 0 {
      DoubledSign(d, n - 1);
    }
  }

  /** The delay before jitter; a minimum that reaches the maximum is never doubled. */
  function Ceiling(minBackoff: int, maxBackoff: int, attempt: nat): int {
    if minBackoff >= maxBackoff then maxBackoff else Capped(minBackoff, maxBackoff, attempt)
  }

  /**
   The delay before restart number `attempt`: half of the doubled and capped delay plus a draw below
   that half, or all of it when there is nothing to halve or the random source fails.
   */
  method Backoff(minBackoff: int, maxBackoff: int, attempt: nat, jitter: Option<nat>) returns (delay: int)
    ensures var full := Ceiling(minBackoff, maxBackoff, attempt);
            delay == if jitter.None? || full < 2 then full else full / 2 + Draw(jitter.value, full / 2)
    ensures minBackoff >= 0 && maxBackoff >= 0 ==>
              Capped(minBackoff, maxBackoff, attempt) / 2 <= delay <= Capped(minBackoff, maxBackoff, attempt)
    ensures minBackoff >= 0 && maxBackoff >= 0 && jitter.None? ==> delay == Capped(minBackoff, maxBackoff, attempt)
  {
    delay := minBackoff;
    var i := 0;
    while i < attempt && delay < maxBackoff
      invariant 0 <= i <= attempt
      invariant delay == Doubled(minBackoff, i) && (minBackoff >= maxBackoff ==> i == 0)
    {
      delay := delay * 2;
      i := i + 1;
    }
    if minBackoff >= 0 {
      DoubledGrows(minBackoff, i, attempt);
      DoubledGrows(minBackoff, 0, attempt);
      DoubledSign(minBackoff, i);
    } else {
      DoubledShrinks(minBackoff, i);
    }
    if delay > maxBackoff {
      delay := maxBackoff;
    }
    var half := delay / 2;
    if half <= 0 {
      return;
    }
    if jitter.None? {
      return;
    }
    delay := half + Draw(jitter.value, half);
  }

  /** A random number below `bound`. */
  function Draw(jitter: nat, bound: int): (n: int)
    requires bound > 0
    ensures 0 <= n < bound
  {
    jitter % bound
  }

  /** The delay starts at the minimum, doubles with each attempt and stops at the maximum. */
  lemma DelayDoubles(minBackoff: int, maxBackoff: int, attempt: nat)
    requires 0 <= minBackoff
    ensures Ceiling(minBackoff, maxBackoff, 0) == if minBackoff < maxBackoff then minBackoff else maxBackoff
    ensures var now, next := Ceiling(minBackoff, maxBackoff, attempt), Ceiling(minBackoff, maxBackoff, attempt + 1);
            minBackoff < maxBackoff ==> next == if now * 2 < maxBackoff then now * 2 else maxBackoff
  {
    DoubledSign(minBackoff, attempt);
    DoubledGrows(minBackoff, 0, attempt);
  }

  /** Every number below the bound can be drawn. */
  lemma EveryDraw(n: nat, bound: int)
    requires n < bound
    ensures exists jitter: nat :: Draw(jitter, bound) == n
  {
    assert Draw(n, bound) == n;
  }

  // ---------------------------------------------------------------------------------------------
  // Runs
  // ---------------------------------------------------------------------------------------------

  datatype Event<Id> =
    | StartCall(launch: Launch, child: Id)
    | StopCall
    | ChildExit(child: Id)
    | CheckCall(env: CheckEnv<Id>)

  function Step<Id>(cfg: Config, s: System<Id>, e: Event<Id>): System<Id> {
    match e
    case StartCall(launch, child) => s.(sup := AfterStart(s.sup, launch, child))
    case StopCall => s.(sup := AfterStop(s.sup))
    case ChildExit(child) => s.(sup := AfterExit(s.sup, child))
    case CheckCall(env) => AfterCheck(cfg, s, env)
  }

  function Run<Id>(cfg: Config, evs: seq<Event<Id>>): System<Id> {
    if evs == [] then System(Initial(), Sleeping())
    else Step(cfg, Run(cfg, evs[..|evs| - 1]), evs[|evs| - 1])
  }

  /** The clock readings of a run never go back, and none is later than `now`. */
  ghost predicate Timed<Id>(evs: seq<Event<Id>>, now: int) {
    evs != [] ==>
      var last := evs[|evs| - 1];
      if last.CheckCall? then
        last.env.clock.Ordered() && last.env.clock.recorded <= now && Timed(evs[..|evs| - 1], last.env.clock.tested)
      else Timed(evs[..|evs| - 1], now)
  }

  lemma StepKeepsOneChild<Id>(cfg: Config, s: System<Id>, e: Event<Id>)
    requires OneChild(s.sup)
    ensures OneChild(Step(cfg, s, e).sup)
  {
    hide AfterRestart, AfterHealthy, Exhausted, CircuitOpenAt;
  }

  /** At most one php-fpm child is unreaped at any time, and between calls only a ready one. */
  lemma {:induction false} AtMostOneChild<Id>(cfg: Config, evs: seq<Event<Id>>)
    ensures OneChild(Run(cfg, evs).sup)
    ensures |Run(cfg, evs).sup.unreaped| <= 1
  {
    if evs != [] {
      AtMostOneChild(cfg, evs[..|evs| - 1]);
      StepKeepsOneChild(cfg, Run(cfg, evs[..|evs| - 1]), evs[|evs| - 1]);
    }
  }

  /**
   What a start comes to in a run: ready, with the new child alone unreaped, exactly when every step
   of the launch succeeds; otherwise failed, with no child. A supervisor that is ready is not started again.
   */
  lemma StartEnds<Id>(cfg: Config, evs: seq<Event<Id>>, l: Launch, child: Id)
    ensures var s := Run(cfg, evs).sup; var t := Run(cfg, evs + [StartCall(l, child)]).sup;
            if s.state == Ready then t == s
            else if l.socketDir && l.pidDir && l.config && l.isolation && l.exec && l.socket
            then t == Sup(Ready, Some(child), {child}, None)
            else t.state == Failed && t.unreaped == {}
  {
    AtMostOneChild(cfg, evs);
    RunSnoc(cfg, evs, StartCall(l, child));
    hide Run;
  }

  /** A stop ends in a state the watchdog leaves alone, with every child reaped. */
  lemma StopEnds<Id>(cfg: Config, evs: seq<Event<Id>>)
    ensures var s := Run(cfg, evs).sup; var t := Run(cfg, evs + [StopCall]).sup;
            && t.unreaped == {} && t.state == (if s.state == Absent then Absent else Stopped)
            && t.lastFailure == s.lastFailure
  {
    AtMostOneChild(cfg, evs);
    RunSnoc(cfg, evs, StopCall);
    hide Run;
  }

  /** Once the current child has exited, the supervisor still says ready but the next probe finds it gone. */
  lemma ExitIsSeen<Id>(cfg: Config, evs: seq<Event<Id>>, child: Id, p: Probe)
    requires child in Run(cfg, evs).sup.unreaped
    ensures var t := Run(cfg, evs + [ChildExit(child)]).sup;
            t.state == Ready && t.unreaped == {} && Check(t, p) == ChildExited
  {
    AtMostOneChild(cfg, evs);
    RunSnoc(cfg, evs, ChildExit(child));
    hide Run;
  }

  lemma RunSnoc<Id>(cfg: Config, evs: seq<Event<Id>>, e: Event<Id>)
    ensures Run(cfg, evs + [e]) == Step(cfg, Run(cfg, evs), e)
  {
    hide Step;
    assert (evs + [e])[..|evs|] == evs;
  }

  /** The restarts counted are the attempts logged. */
  lemma {:induction false} TotalIsAttempts<Id>(cfg: Config, evs: seq<Event<Id>>)
    ensures Run(cfg, evs).dog.totalRestart == Count(Run(cfg, evs).dog.log)
  {
    hide AfterCheck, Count;
    if evs == [] {
      CountNone();
    } else {
      TotalIsAttempts(cfg, evs[..|evs| - 1]);
      var e := evs[|evs| - 1];
      if e.CheckCall? { CheckCounts(cfg, Run(cfg, evs[..|evs| - 1]), e.env); }
    }
  }

  lemma CheckCounts<Id>(cfg: Config, s: System<Id>, e: CheckEnv<Id>)
    requires s.dog.totalRestart == Count(s.dog.log)
    ensures var d := AfterCheck(cfg, s, e).dog; d.totalRestart == Count(d.log)
  {
    CountSnoc(s.dog.log, Cleared(e.clock.tested));
    CountSnoc(s.dog.log, Opened(e.clock.recorded));
    CountSnoc(s.dog.log, Attempt(e.clock.recorded));
    hide Count, Recent, AfterStart, AfterStop, Check;
  }

  lemma CountNone()
    ensures Count([]) == 0
  {}

  function Count(log: seq<Mark>): nat {
    if log == [] then 0 else Count(log[..|log| - 1]) + (if log[|log| - 1].Attempt? then 1 else 0)
  }

  lemma CountSnoc(log: seq<Mark>, m: Mark)
    ensures Count(log + [m]) == Count(log) + (if m.Attempt? then 1 else 0)
  {
    assert (log + [m])[..|log|] == log;
  }

  // ---------------------------------------------------------------------------------------------
  // What the log of a run looks like
  // ---------------------------------------------------------------------------------------------

  /** The marks of one kind in the window (a, b]. */
  function Attempts(log: seq<Mark>, a: int, b: int): nat {
    if log == [] then 0
    else Attempts(log[..|log| - 1], a, b) +
         (var m := log[|log| - 1]; if m.Attempt? && a < m.at <= b then 1 else 0)
  }

  function Clears(log: seq<Mark>, a: int, b: int): nat {
    if log == [] then 0
    else Clears(log[..|log| - 1], a, b) +
         (var m := log[|log| - 1]; if m.Cleared? && a < m.at <= b then 1 else 0)
  }

  /** The attempts after time `a` that no healthy check has cleared since. */
  function Pending(log: seq<Mark>, a: int): nat {
    if log == [] then 0
    else
      var m := log[|log| - 1];
      if m.Cleared? then 0 else Pending(log[..|log| - 1], a) + (if m.Attempt? && m.at > a then 1 else 0)
  }

  /** The circuit opened and no healthy check has cleared it since. */
  predicate Tripped(log: seq<Mark>) {
    log != [] && (log[|log| - 1].Opened? || (log[|log| - 1].Attempt? && Tripped(log[..|log| - 1])))
  }

  function After(times: seq<int>, a: int): nat {
    if times == [] then 0 else After(times[..|times| - 1], a) + (if times[|times| - 1] > a then 1 else 0)
  }

  /** What every mark owes to the marks before it. */
  ghost predicate Lawful(cfg: Config, log: seq<Mark>, i: nat)
    requires i < |log|
  {
    && (forall j :: 0 <= j < i ==> log[j].at <= log[i].at)
    && (log[i].Attempt? ==>
          && Pending(log[..i], log[i].at - cfg.restartWindow) < cfg.maxRestarts
          && forall j :: 0 <= j < i && log[j].Opened? ==> log[j].at + cfg.circuitCooldown <= log[i].at)
    && (log[i].Cleared? ==> forall j :: 0 <= j < i && log[j].Cleared? ==> log[j].at + cfg.circuitCooldown < log[i].at)
  }

  ghost predicate LawfulLog(cfg: Config, log: seq<Mark>) {
    forall i :: 0 <= i < |log| ==> Lawful(cfg, log, i)
  }

  /** What a watchdog remembers agrees with its log, at every time from `now` on. */
  ghost predicate Remembers(cfg: Config, d: Dog, now: int) {
    && LawfulLog(cfg, d.log)
    && (forall i :: 0 <= i < |d.log| ==> d.log[i].at <= now)
    && (forall a :: a >= now - cfg.restartWindow ==> Pending(d.log, a) == After(d.restarts, a))
    && CircuitAgrees(cfg, d, now)
  }

  ghost predicate CircuitAgrees(cfg: Config, d: Dog, now: int) {
    && d.circuitOpen == Tripped(d.log)
    && (d.circuitOpen ==> OpensUntil(cfg, d.log, d.circuitUntil))
    && (forall i :: 0 <= i < |d.log| && d.log[i].Opened? ==>
          d.log[i].at + cfg.circuitCooldown <= if d.circuitOpen then d.circuitUntil else now)
    && (d.circuitOpen ==> forall i :: 0 <= i < |d.log| && d.log[i].Cleared? ==>
          d.log[i].at + cfg.circuitCooldown <= d.circuitUntil)
  }

  ghost predicate OpensUntil(cfg: Config, log: seq<Mark>, until: int) {
    exists i :: 0 <= i < |log| && log[i].Opened? && log[i].at + cfg.circuitCooldown == until
  }

  lemma {:induction false} RecentCounts(times: seq<int>, cutoff: int, a: int)
    requires cutoff <= a
    ensures After(Recent(times, cutoff), a) == After(times, a) <= After(times, cutoff) == |Recent(times, cutoff)|
  {
    if times != [] {
      var rest, last := times[..|times| - 1], times[|times| - 1];
      RecentCounts(rest, cutoff, a);
      if last > cutoff {
        assert (Recent(rest, cutoff) + [last])[..|Recent(rest, cutoff)|] == Recent(rest, cutoff);
      }
    }
  }

  /** Appending one mark that keeps the law. */
  lemma AppendLawful(cfg: Config, log: seq<Mark>, m: Mark)
    requires LawfulLog(cfg, log)
    requires Lawful(cfg, log + [m], |log|)
    ensures LawfulLog(cfg, log + [m])
  {
    forall i | 0 <= i < |log| ensures Lawful(cfg, log + [m], i) {
      assert (log + [m])[..i] == log[..i];
      assert Lawful(cfg, log, i);
    }
  }

  lemma AppendPending(log: seq<Mark>, m: Mark, a: int)
    ensures Pending(log + [m], a)
         == if m.Cleared? then 0 else Pending(log, a) + (if m.Attempt? && m.at > a then 1 else 0)
  {
    assert (log + [m])[..|log|] == log;
  }

  lemma AppendAfter(times: seq<int>, t: int, a: int)
    ensures After(times + [t], a) == After(times, a) + (if t > a then 1 else 0)
  {
    assert (times + [t])[..|times|] == times;
  }

  lemma HealthyRemembers(cfg: Config, d: Dog, now: int, t: int)
    requires Remembers(cfg, d, now) && now <= t
    ensures Remembers(cfg, AfterHealthy(d, t), t)
  {
    if d.circuitOpen && t > d.circuitUntil {
      assert (d.log + [Cleared(t)])[..|d.log|] == d.log;
      AppendLawful(cfg, d.log, Cleared(t));
      forall a ensures Pending(d.log + [Cleared(t)], a) == 0 { AppendPending(d.log, Cleared(t), a); }
    }
  }

  /** The kept restarts agree with the log from time `a` on ... */
  lemma RestartCountsAt(cfg: Config, d: Dog, now: int, t: Clock, a: int)
    requires Remembers(cfg, d, now) && now <= t.cutoff <= t.recorded
    requires a >= t.recorded - cfg.restartWindow
    ensures var d' := AfterRestart(cfg, d, t); Pending(d'.log, a) == After(d'.restarts, a)
  {
    hide LawfulLog, Pending, After, Recent;
    var cutoff := t.cutoff - cfg.restartWindow;
    assert Pending(d.log, a) == After(d.restarts, a);
    RecentCounts(d.restarts, cutoff, a);
    AppendPending(d.log, AfterRestart(cfg, d, t).log[|d.log|], a);
    AppendAfter(Recent(d.restarts, cutoff), t.recorded, a);
  }

  /** ... and leave room for one more when a restart is allowed. */
  lemma RoomForOne(cfg: Config, d: Dog, now: int, t: Clock)
    requires Remembers(cfg, d, now) && now <= t.cutoff <= t.recorded
    requires !Exhausted(cfg, d, t)
    ensures Pending(d.log, t.recorded - cfg.restartWindow) < cfg.maxRestarts
  {
    hide LawfulLog, Pending, After, Recent;
    RecentCounts(d.restarts, t.cutoff - cfg.restartWindow, t.recorded - cfg.restartWindow);
  }

  lemma OpeningsOver(cfg: Config, d: Dog, now: int, t: int)
    requires CircuitAgrees(cfg, d, now) && now <= t
    ensures CircuitAgrees(cfg, d, t)
    ensures !CircuitOpenAt(d, t) ==> forall i :: 0 <= i < |d.log| && d.log[i].Opened? ==>
              d.log[i].at + cfg.circuitCooldown <= t
  {}

  lemma RestartCircuit(cfg: Config, d: Dog, t: Clock)
    requires CircuitAgrees(cfg, d, t.tested) && t.Ordered()
    requires forall i :: 0 <= i < |d.log| ==> d.log[i].at <= t.recorded
    ensures CircuitAgrees(cfg, AfterRestart(cfg, d, t), t.recorded)
  {
    if Exhausted(cfg, d, t) {
      hide Exhausted, Recent;
      OpenedAgrees(cfg, d, AfterRestart(cfg, d, t), t.recorded);
    } else {
      hide Exhausted, Recent;
      AttemptAgrees(cfg, d, AfterRestart(cfg, d, t), t.tested, t.recorded);
    }
  }

  lemma OpenedAgrees(cfg: Config, d: Dog, d': Dog, now: int)
    requires d'.circuitOpen && d'.circuitUntil == now + cfg.circuitCooldown && d'.log == d.log + [Opened(now)]
    requires forall i :: 0 <= i < |d.log| ==> d.log[i].at <= now
    ensures CircuitAgrees(cfg, d', now)
  {
    assert d'.log[|d.log|] == Opened(now);
  }

  lemma AttemptAgrees(cfg: Config, d: Dog, d': Dog, before: int, now: int)
    requires CircuitAgrees(cfg, d, before) && before <= now && d'.log == d.log + [Attempt(now)]
    requires d'.circuitOpen == d.circuitOpen && d'.circuitUntil == d.circuitUntil
    ensures CircuitAgrees(cfg, d', now)
  {
    if d.circuitOpen {
      var i :| 0 <= i < |d.log| && d.log[i].Opened? && d.log[i].at + cfg.circuitCooldown == d.circuitUntil;
      assert d'.log[i] == d.log[i];
    }
  }

  lemma RestartRemembers(cfg: Config, d: Dog, now: int, t: Clock)
    requires Remembers(cfg, d, now) && now <= t.tested && t.Ordered()
    requires !CircuitOpenAt(d, t.tested)
    ensures Remembers(cfg, AfterRestart(cfg, d, t), t.recorded)
  {
    hide Pending, After, Recent, CircuitAgrees;
    assert CircuitAgrees(cfg, d, t.tested) && forall i :: 0 <= i < |d.log| && d.log[i].Opened? ==>
             d.log[i].at + cfg.circuitCooldown <= t.recorded by { OpeningsOver(cfg, d, now, t.tested); }
    var d' := AfterRestart(cfg, d, t);
    forall a | a >= t.recorded - cfg.restartWindow ensures Pending(d'.log, a) == After(d'.restarts, a) {
      RestartCountsAt(cfg, d, now, t, a);
    }
    if !Exhausted(cfg, d, t) { RoomForOne(cfg, d, now, t); }
    var m := d'.log[|d.log|];
    assert (d.log + [m])[..|d.log|] == d.log;
    AppendLawful(cfg, d.log, m);
    RestartCircuit(cfg, d, t);
  }

  lemma {:induction false} RunRemembers<Id>(cfg: Config, evs: seq<Event<Id>>, now: int)
    requires Timed(evs, now)
    ensures Remembers(cfg, Run(cfg, evs).dog, now)
  {
    if evs != [] {
      var s, last := Run(cfg, evs[..|evs| - 1]), evs[|evs| - 1];
      if last.CheckCall? {
        var t := last.env.clock;
        RunRemembers(cfg, evs[..|evs| - 1], t.tested);
        if LeftAlone(s.sup.state) {
        } else if Check(s.sup, last.env.probe) == Healthy {
          HealthyRemembers(cfg, s.dog, t.tested, t.tested);
        } else if !CircuitOpenAt(s.dog, t.tested) {
          RestartRemembers(cfg, s.dog, t.tested, t);
        }
      } else {
        RunRemembers(cfg, evs[..|evs| - 1], now);
      }
    }
  }

  /** Some opening of the circuit is still within its cooldown. */
  ghost predicate CoolingDown(cfg: Config, log: seq<Mark>, now: int) {
    exists i :: 0 <= i < |log| && log[i].Opened? && now < log[i].at + cfg.circuitCooldown
  }

  /** A supervisor that was stopped, or is on its way up or down, is left as it is, whatever a probe finds. */
  lemma StoppedStaysStopped<Id>(cfg: Config, s: System<Id>, e: CheckEnv<Id>)
    requires s.sup.state != Ready && s.sup.state != Failed
    ensures AfterCheck(cfg, s, e) == s
  {}

  /** The child is gone, or its socket is, or nobody accepts on it. */
  predicate Unwell<Id>(s: Sup<Id>, p: Probe) {
    s.state == Failed || (s.state == Ready && (s.unreaped == {} || !p.socketExists || !p.accepts))
  }

  /** A ready child that has not exited, on a socket that accepts. */
  predicate Well<Id>(s: Sup<Id>, p: Probe) {
    s.state == Ready && s.unreaped != {} && p.socketExists && p.accepts
  }

  /** What a health check answers in a run, told by the children whose exit has not been observed. */
  lemma HealthExactly<Id>(cfg: Config, evs: seq<Event<Id>>, p: Probe)
    ensures var s := Run(cfg, evs).sup; var h := Check(s, p);
            && (h == Healthy <==> Well(s, p))
            && (h == NotReady <==> s.state != Ready)
            && (h == ChildExited <==> s.state == Ready && s.unreaped == {})
            && (h == SocketMissing <==> s.state == Ready && s.unreaped != {} && !p.socketExists)
            && (h == NotAccepting <==> s.state == Ready && s.unreaped != {} && p.socketExists && !p.accepts)
  {
    hide Run;
    AtMostOneChild(cfg, evs);
  }

  /**
   Exactly when a check restarts php-fpm, told by the log and the children: a start has failed, or a
   ready child is unwell; no opening of the circuit is within its cooldown, and fewer restarts than
   the limit lie within the window and after the last clear.
   */
  lemma RestartsExactlyWhen<Id>(cfg: Config, evs: seq<Event<Id>>, e: CheckEnv<Id>)
    requires Timed(evs, e.clock.tested) && e.clock.Ordered()
    ensures var s := Run(cfg, evs); var log := s.dog.log;
            AfterCheck(cfg, s, e).dog.log == log + [Attempt(e.clock.recorded)] <==>
              && Unwell(s.sup, e.probe)
              && !CoolingDown(cfg, log, e.clock.tested)
              && Pending(log, e.clock.cutoff - cfg.restartWindow) < cfg.maxRestarts
  {
    HealthExactly(cfg, evs, e.probe);
    AtMostOneChild(cfg, evs);
    hide LawfulLog, Pending, After, Recent, AfterStart, AfterStop, Check;
    RunRemembers(cfg, evs, e.clock.tested);
    var s := Run(cfg, evs);
    var cutoff := e.clock.cutoff - cfg.restartWindow;
    assert Pending(s.dog.log, cutoff) == After(s.dog.restarts, cutoff);
    RecentCounts(s.dog.restarts, cutoff, cutoff);
    assert CircuitOpenAt(s.dog, e.clock.tested) <==> CoolingDown(cfg, s.dog.log, e.clock.tested);
    var before, m, m' := s.dog.log, Cleared(e.clock.tested), Opened(e.clock.recorded);
    assert (before + [m])[|before|] == m && (before + [m'])[|before|] == m';
    assert (before + [Attempt(e.clock.recorded)])[|before|] == Attempt(e.clock.recorded);
  }

  /** What an attempt does to the supervisor; a check that makes none leaves it as it is. */
  lemma RestartEnds<Id>(cfg: Config, evs: seq<Event<Id>>, e: CheckEnv<Id>)
    ensures var s := Run(cfg, evs); var t, l := AfterCheck(cfg, s, e), e.launch;
            if t.dog.totalRestart == s.dog.totalRestart || e.cancelled then t.sup == s.sup
            else if l.socketDir && l.pidDir && l.config && l.isolation && l.exec && l.socket
            then t.sup == Sup(Ready, Some(e.child), {e.child}, None)
            else t.sup.state == Failed && t.sup.unreaped == {}
  {
    AtMostOneChild(cfg, evs);
    var s := Run(cfg, evs);
    hide Run, CircuitOpenAt, Recent, AfterStart, AfterStop, OneChild;
    StoppedThenStarted(s.sup, e.launch, e.child);
  }

  lemma StoppedThenStarted<Id>(s: Sup<Id>, l: Launch, child: Id)
    requires OneChild(s)
    ensures var t := AfterStart(AfterStop(s), l, child);
            if l.socketDir && l.pidDir && l.config && l.isolation && l.exec && l.socket
            then t == Sup(Ready, Some(child), {child}, None)
            else t.state == Failed && t.unreaped == {}
  {}

  /** Exactly when a check clears the circuit: it is tripped, the child is healthy, every cooldown is over. */
  lemma ClearsExactlyWhen<Id>(cfg: Config, evs: seq<Event<Id>>, e: CheckEnv<Id>)
    requires Timed(evs, e.clock.tested) && e.clock.Ordered()
    ensures var s := Run(cfg, evs); var log := s.dog.log;
            AfterCheck(cfg, s, e).dog.log == log + [Cleared(e.clock.tested)] <==>
              && Well(s.sup, e.probe)
              && Tripped(log)
              && forall i :: 0 <= i < |log| && log[i].Opened? ==> log[i].at + cfg.circuitCooldown < e.clock.tested
  {
    HealthExactly(cfg, evs, e.probe);
    AtMostOneChild(cfg, evs);
    hide LawfulLog, Pending, After, Recent, AfterStart, AfterStop, Check, Tripped;
    RunRemembers(cfg, evs, e.clock.tested);
    var s := Run(cfg, evs);
    var log, m, m' := s.dog.log, Attempt(e.clock.recorded), Opened(e.clock.recorded);
    assert (log + [m])[|log|] == m && (log + [m'])[|log|] == m';
    assert (log + [Cleared(e.clock.tested)])[|log|] == Cleared(e.clock.tested);
  }

  // ---------------------------------------------------------------------------------------------
  // Restart budgets
  // ---------------------------------------------------------------------------------------------

  /** The log before its last Cleared mark, or -1 if there is none. */
  function LastClear(log: seq<Mark>): (p: int)
    ensures -1 <= p < |log|
    ensures p >= 0 ==> log[p].Cleared?
  {
    if log == [] then -1
    else if log[|log| - 1].Cleared? then |log| - 1
    else LastClear(log[..|log| - 1])
  }

  /** Attempts and clears split at the last clear; what follows it is pending. */
  lemma {:induction false} SplitAtClear(log: seq<Mark>, a: int, b: int)
    ensures var p := LastClear(log);
            if p < 0 then Attempts(log, a, b) <= Pending(log, a) && Clears(log, a, b) == 0
            else && Attempts(log, a, b) <= Attempts(log[..p], a, b) + Pending(log, a)
                 && Clears(log, a, b) == Clears(log[..p], a, b) + (if a < log[p].at <= b then 1 else 0)
  {
    if log != [] && !log[|log| - 1].Cleared? {
      var rest := log[..|log| - 1];
      SplitAtClear(rest, a, b);
      var p := LastClear(rest);
      if p >= 0 { assert rest[..p] == log[..p]; }
    }
  }

  lemma {:induction false} NothingBefore(log: seq<Mark>, a: int, b: int)
    requires forall i :: 0 <= i < |log| ==> log[i].at <= a
    ensures Attempts(log, a, b) == 0 && Clears(log, a, b) == 0
  {
    if log != [] {
      NothingBefore(log[..|log| - 1], a, b);
    }
  }

  lemma PrefixLawful(cfg: Config, log: seq<Mark>, p: nat)
    requires LawfulLog(cfg, log) && p <= |log|
    ensures LawfulLog(cfg, log[..p])
  {
    forall i | 0 <= i < p ensures Lawful(cfg, log[..p], i) {
      assert log[..p][..i] == log[..i];
      assert Lawful(cfg, log, i);
    }
  }

  /** One more attempt fits the budget of the window (a, b] if fewer than the limit are pending. */
  lemma BudgetAtAttempt(budget: nat, log: seq<Mark>, a: int, b: int)
    requires Pending(log, a) < budget
    requires var p := LastClear(log);
             p >= 0 ==>
               && log[p].at <= b
               && Attempts(log[..p], a, b) <= budget * (1 + Clears(log[..p], a, b))
               && (log[p].at <= a ==> Attempts(log[..p], a, b) == 0)
    ensures Attempts(log, a, b) + 1 <= budget * (1 + Clears(log, a, b))
  {
    SplitAtClear(log, a, b);
    var p := LastClear(log);
    hide Attempts, Clears, Pending, LastClear;
    if p >= 0 { BudgetStep(budget, Clears(log[..p], a, b)); }
  }

  /** In any window of the configured length, each clear buys at most one more budget of restarts. */
  lemma {:induction false} BudgetPerClear(cfg: Config, log: seq<Mark>, a: int)
    requires LawfulLog(cfg, log)
    ensures var b := a + cfg.restartWindow;
            Attempts(log, a, b) <= cfg.Budget() * (1 + Clears(log, a, b))
    decreases |log|
  {
    hide Pending, LastClear;
    var b := a + cfg.restartWindow;
    if log != [] {
      var rest, m := log[..|log| - 1], log[|log| - 1];
      assert Lawful(cfg, log, |log| - 1);
      PrefixLawful(cfg, log, |log| - 1);
      if m.Attempt? && a < m.at <= b {
        PendingFewer(rest, m.at - cfg.restartWindow, a);
        var p := LastClear(rest);
        if p >= 0 {
          PrefixLawful(cfg, rest, p);
          BudgetPerClear(cfg, rest[..p], a);
          if rest[p].at <= a {
            assert Lawful(cfg, rest, p);
            NothingBefore(rest[..p], a, b);
          }
        }
        BudgetAtAttempt(cfg.Budget(), rest, a, b);
      } else {
        BudgetPerClear(cfg, rest, a);
        if m.Cleared? { BudgetStep(cfg.Budget(), Clears(rest, a, b)); }
      }
    }
  }

  lemma BudgetStep(budget: nat, n: nat)
    ensures budget * (1 + (n + 1)) == budget * (1 + n) + budget
    ensures budget * (1 + n) >= budget
  {}

  lemma {:induction false} PendingFewer(log: seq<Mark>, a: int, b: int)
    requires a <= b
    ensures Pending(log, b) <= Pending(log, a)
  {
    if log != [] {
      PendingFewer(log[..|log| - 1], a, b);
    }
  }

  /** When the cooldown is at least the window, no window holds two clears. */
  lemma {:induction false} ClearsAreRare(cfg: Config, log: seq<Mark>, a: int)
    requires LawfulLog(cfg, log) && cfg.circuitCooldown >= cfg.restartWindow
    ensures Clears(log, a, a + cfg.restartWindow) <= 1
  {
    if log != [] {
      var rest, m := log[..|log| - 1], log[|log| - 1];
      PrefixLawful(cfg, log, |log| - 1);
      ClearsAreRare(cfg, rest, a);
      if m.Cleared? && a < m.at <= a + cfg.restartWindow {
        assert Lawful(cfg, log, |log| - 1);
        NoClearsBefore(rest, a, a + cfg.restartWindow);
      }
    }
  }

  lemma {:induction false} NoClearsBefore(log: seq<Mark>, a: int, b: int)
    requires forall i :: 0 <= i < |log| && log[i].Cleared? ==> log[i].at <= a
    ensures Clears(log, a, b) == 0
  {
    if log != [] {
      NoClearsBefore(log[..|log| - 1], a, b);
    }
  }

  /**
   The restart limit over every run and every window (a, a + restartWindow]: one budget when no
   healthy check cleared the circuit inside the window, and never more than two when the cooldown
   is at least as long as the window.
   */
  lemma RestartsAreLimited<Id>(cfg: Config, evs: seq<Event<Id>>, now: int, a: int)
    requires Timed(evs, now)
    ensures var log, b := Run(cfg, evs).dog.log, a + cfg.restartWindow;
            && Attempts(log, a, b) <= cfg.Budget() * (1 + Clears(log, a, b))
            && (Clears(log, a, b) == 0 ==> Attempts(log, a, b) <= cfg.Budget())
            && (cfg.circuitCooldown >= cfg.restartWindow ==> Attempts(log, a, b) <= 2 * cfg.Budget())
  {
    RunRemembers(cfg, evs, now);
    var log := Run(cfg, evs).dog.log;
    BudgetPerClear(cfg, log, a);
    if cfg.circuitCooldown >= cfg.restartWindow {
      ClearsAreRare(cfg, log, a);
      BudgetStep(cfg.Budget(), 0);
    }
  }

  /** No restart is attempted during the cooldown after the circuit opened. */
  lemma QuietWhileOpen<Id>(cfg: Config, evs: seq<Event<Id>>, now: int, i: nat, j: nat)
    requires Timed(evs, now)
    requires var log := Run(cfg, evs).dog.log; i < j < |log| && log[i].Opened? && log[j].Attempt?
    ensures var log := Run(cfg, evs).dog.log; log[i].at + cfg.circuitCooldown <= log[j].at
  {
    RunRemembers(cfg, evs, now);
    assert Lawful(cfg, Run(cfg, evs).dog.log, j);
  }

  /** Two clears are more than a cooldown apart. */
  lemma ClearsApart<Id>(cfg: Config, evs: seq<Event<Id>>, now: int, i: nat, j: nat)
    requires Timed(evs, now)
    requires var log := Run(cfg, evs).dog.log; i < j < |log| && log[i].Cleared? && log[j].Cleared?
    ensures var log := Run(cfg, evs).dog.log; log[i].at + cfg.circuitCooldown < log[j].at
  {
    RunRemembers(cfg, evs, now);
    assert Lawful(cfg, Run(cfg, evs).dog.log, j);
  }

  // ---------------------------------------------------------------------------------------------
  // A run that uses up two budgets
  // ---------------------------------------------------------------------------------------------

  const WORKING := Launch(true, true, true, true, true, true)

  /** A check at time t by a working system whose socket is, or is not, there. */
  function CheckAt(t: int, up: bool): Event<nat> {
    CheckCall(CheckEnv(Clock(t, t, t), Probe(up, up), false, WORKING, 0))
  }

  function Fails(t: int, n: nat): seq<Event<nat>> {
    if n == 0 then [] else Fails(t, n - 1) + [CheckAt(t, false)]
  }

  predicate Up(s: System<nat>) {
    s.sup.state == Ready && s.sup.current == Some(0) && 0 in s.sup.unreaped
  }

  lemma {:induction false} RecentNone(times: seq<int>, cutoff: int)
    requires forall i :: 0 <= i < |times| ==> times[i] <= cutoff
    ensures Recent(times, cutoff) == []
  {
    if times != [] { RecentNone(times[..|times| - 1], cutoff); }
  }

  lemma {:induction false} RecentAgain(times: seq<int>, cutoff: int)
    ensures Recent(Recent(times, cutoff), cutoff) == Recent(times, cutoff)
    ensures forall x :: x in Recent(times, cutoff) ==> x in times
  {
    if times != [] {
      var kept := Recent(times[..|times| - 1], cutoff);
      RecentAgain(times[..|times| - 1], cutoff);
      assert (kept + [times[|times| - 1]])[..|kept|] == kept;
    }
  }

  lemma RecentSnoc(times: seq<int>, last: int, cutoff: int)
    requires last > cutoff
    ensures Recent(times + [last], cutoff) == Recent(times, cutoff) + [last]
  {
    assert (times + [last])[..|times|] == times;
  }

  lemma FailStep(cfg: Config, s: System<nat>, t: int)
    requires Up(s) && !CircuitOpenAt(s.dog, t)
    ensures var u := Step(cfg, s, CheckAt(t, false)); var kept := Recent(s.dog.restarts, t - cfg.restartWindow);
            && Up(u)
            && u.dog == if |kept| < cfg.maxRestarts
                        then s.dog.(restarts := kept + [t], totalRestart := s.dog.totalRestart + 1,
                                    log := s.dog.log + [Attempt(t)])
                        else s.dog.(restarts := kept, circuitOpen := true, circuitUntil := t + cfg.circuitCooldown,
                                    log := s.dog.log + [Opened(t)])
  {
    hide Recent;
  }

  lemma TimedStep(evs: seq<Event<nat>>, t: int, up: bool)
    requires Timed(evs, t)
    ensures Timed(evs + [CheckAt(t, up)], t)
  {
    assert (evs + [CheckAt(t, up)])[..|evs|] == evs;
  }

  lemma {:induction false} TimedLater(evs: seq<Event<nat>>, now: int, later: int)
    requires Timed(evs, now) && now <= later
    ensures Timed(evs, later)
  {
    if evs != [] && !evs[|evs| - 1].CheckCall? { TimedLater(evs[..|evs| - 1], now, later); }
  }

  lemma AttemptsSnoc(log: seq<Mark>, m: Mark, a: int, b: int)
    ensures Attempts(log + [m], a, b) == Attempts(log, a, b) + (if m.Attempt? && a < m.at <= b then 1 else 0)
  {
    assert (log + [m])[..|log|] == log;
  }

  /** Nothing in memory is later than t, and what is in the window is this many restarts. */
  ghost predicate Remembered(cfg: Config, d: Dog, t: int, n: nat) {
    |Recent(d.restarts, t - cfg.restartWindow)| == n && forall x :: x in d.restarts ==> x <= t
  }

  lemma OneFail(cfg: Config, evs: seq<Event<nat>>, t: int, k: nat, a: int, b: int)
    requires var s := Run(cfg, evs); Timed(evs, t) && Up(s) && !CircuitOpenAt(s.dog, t) && Remembered(cfg, s.dog, t, k)
    requires k < cfg.maxRestarts && cfg.restartWindow >= 1
    ensures var s, u, more := Run(cfg, evs), Run(cfg, evs + [CheckAt(t, false)]), evs + [CheckAt(t, false)];
            && Timed(more, t) && Up(u) && Remembered(cfg, u.dog, t, k + 1)
            && u.dog.circuitOpen == s.dog.circuitOpen && u.dog.circuitUntil == s.dog.circuitUntil
            && Attempts(u.dog.log, a, b) == Attempts(s.dog.log, a, b) + (if a < t <= b then 1 else 0)
  {
    hide Run, Step, Attempts, Recent, Timed, Up;
    var s, cutoff := Run(cfg, evs), t - cfg.restartWindow;
    RunSnoc(cfg, evs, CheckAt(t, false));
    TimedStep(evs, t, false);
    FailStep(cfg, s, t);
    RecentAgain(s.dog.restarts, cutoff);
    RecentSnoc(Recent(s.dog.restarts, cutoff), t, cutoff);
    AttemptsSnoc(s.dog.log, Attempt(t), a, b);
  }

  /** As many failing checks at one time as the budget allows are as many attempts. */
  lemma {:induction false} FailsAttempt(cfg: Config, evs: seq<Event<nat>>, t: int, n: nat, a: int, b: int)
    requires var s := Run(cfg, evs); Timed(evs, t) && Up(s) && !CircuitOpenAt(s.dog, t) && Remembered(cfg, s.dog, t, 0)
    requires n <= cfg.Budget() && cfg.restartWindow >= 1
    ensures var s, u := Run(cfg, evs), Run(cfg, evs + Fails(t, n));
            && Timed(evs + Fails(t, n), t) && Up(u) && Remembered(cfg, u.dog, t, n)
            && u.dog.circuitOpen == s.dog.circuitOpen && u.dog.circuitUntil == s.dog.circuitUntil
            && Attempts(u.dog.log, a, b) == Attempts(s.dog.log, a, b) + (if a < t <= b then n else 0)
  {
    if n == 0 {
      assert evs + [] == evs;
    } else {
      hide Run, Attempts, Timed, Up, Remembered, CircuitOpenAt, Fails, Recent;
      FailsAttempt(cfg, evs, t, n - 1, a, b);
      var before := evs + Fails(t, n - 1);
      SameCircuit(Run(cfg, evs).dog, Run(cfg, before).dog, t);
      OneFail(cfg, before, t, n - 1, a, b);
      FailsSnoc(evs, t, n);
    }
  }

  lemma FailsSnoc(evs: seq<Event<nat>>, t: int, n: nat)
    requires n > 0
    ensures evs + Fails(t, n) == (evs + Fails(t, n - 1)) + [CheckAt(t, false)]
  {}

  lemma SameCircuit(d: Dog, d': Dog, t: int)
    requires d.circuitOpen == d'.circuitOpen && d.circuitUntil == d'.circuitUntil
    ensures CircuitOpenAt(d, t) == CircuitOpenAt(d', t)
  {}

  function Started(): seq<Event<nat>> { [StartCall(WORKING, 0)] }

  /** A budget at once, an opening, and when its cooldown is over a second budget, a clear, and a third. */
  function Busy(n: nat, t: int): seq<Event<nat>> {
    Started() + Fails(0, n) + [CheckAt(0, false)] + Fails(t, n) + [CheckAt(t, true)] + Fails(t, n)
  }

  lemma StartedUp(cfg: Config)
    ensures var s := Run(cfg, Started());
            Up(s) && s.dog == Sleeping() && Timed(Started(), 0) && Remembered(cfg, s.dog, 0, 0)
  {
    assert Started()[..0] == [];
    assert Run(cfg, Started()) == Step(cfg, Run(cfg, []), Started()[0]);
  }

  lemma FirstHalf(cfg: Config, n: nat, t: int)
    requires n == cfg.Budget() && cfg.circuitCooldown >= cfg.restartWindow >= 1 && t == cfg.circuitCooldown + 1
    ensures var evs := Started() + Fails(0, n) + [CheckAt(0, false)]; var s := Run(cfg, evs);
            && Timed(evs, t) && Up(s) && s.dog.circuitOpen && s.dog.circuitUntil == t - 1
            && Remembered(cfg, s.dog, t, 0) && Attempts(s.dog.log, t - 1, t) == 0
  {
    hide Run, Step, Recent, Timed, Up, Attempts, Fails;
    StartedUp(cfg);
    FailsAttempt(cfg, Started(), 0, n, t - 1, t);
    var before := Started() + Fails(0, n);
    var s := Run(cfg, before);
    RunSnoc(cfg, before, CheckAt(0, false));
    TimedStep(before, 0, false);
    TimedLater(before + [CheckAt(0, false)], 0, t);
    FailStep(cfg, s, 0);
    RecentAgain(s.dog.restarts, 0 - cfg.restartWindow);
    var kept := Recent(s.dog.restarts, 0 - cfg.restartWindow);
    assert forall i :: 0 <= i < |kept| ==> kept[i] in kept;
    RecentNone(kept, t - cfg.restartWindow);
    NoAttempts(t);
    AttemptsSnoc(s.dog.log, Opened(0), t - 1, t);
  }

  lemma NoAttempts(t: int)
    ensures Attempts([], t - 1, t) == 0
  {}

  lemma ClearStep(cfg: Config, s: System<nat>, t: int)
    requires Up(s) && s.dog.circuitOpen && s.dog.circuitUntil < t
    ensures Step(cfg, s, CheckAt(t, true))
         == s.(dog := s.dog.(circuitOpen := false, restarts := [], log := s.dog.log + [Cleared(t)]))
  {}

  /** A window of no length holds no attempts. */
  lemma {:induction false} NoneInside(log: seq<Mark>, a: int, b: int)
    requires b <= a
    ensures Attempts(log, a, b) == 0
  {
    if log != [] { NoneInside(log[..|log| - 1], a, b); }
  }

  /**
   The limit of two budgets is reached for every configuration whose cooldown is at least its window,
   unless the window is empty: a restart after the cooldown does not clear the circuit, the healthy
   check after it does.
   */
  lemma TwoBudgetsReached(cfg: Config)
    requires cfg.circuitCooldown >= cfg.restartWindow
    ensures cfg.restartWindow >= 1 ==>
              var t := cfg.circuitCooldown + 1; var evs := Busy(cfg.Budget(), t);
              Timed(evs, t) && Attempts(Run(cfg, evs).dog.log, t - 1, t) == 2 * cfg.Budget()
    ensures cfg.restartWindow < 1 ==>
              forall log, a, b :: b == a + cfg.restartWindow ==> Attempts(log, a, b) == 0
  {
    if cfg.restartWindow >= 1 {
      BusyReaches(cfg);
    } else {
      forall log, a, b | b == a + cfg.restartWindow ensures Attempts(log, a, b) == 0 { NoneInside(log, a, b); }
    }
  }

  lemma BusyReaches(cfg: Config)
    requires cfg.circuitCooldown >= cfg.restartWindow >= 1
    ensures var t := cfg.circuitCooldown + 1; var evs := Busy(cfg.Budget(), t);
            Timed(evs, t) && Attempts(Run(cfg, evs).dog.log, t - 1, t) == 2 * cfg.Budget()
  {
    hide Run, Step, Recent, Timed, Up, Attempts, Fails;
    var n, t := cfg.Budget(), cfg.circuitCooldown + 1;
    FirstHalf(cfg, n, t);
    var half := Started() + Fails(0, n) + [CheckAt(0, false)];
    FailsAttempt(cfg, half, t, n, t - 1, t);
    var before := half + Fails(t, n);
    var s, cleared := Run(cfg, before), before + [CheckAt(t, true)];
    RunSnoc(cfg, before, CheckAt(t, true));
    TimedStep(before, t, true);
    ClearStep(cfg, s, t);
    AttemptsSnoc(s.dog.log, Cleared(t), t - 1, t);
    RecentNone([], t - cfg.restartWindow);
    UpKept(s, Run(cfg, cleared));
    FailsAttempt(cfg, cleared, t, n, t - 1, t);
  }

  lemma UpKept(s: System<nat>, u: System<nat>)
    requires Up(s) && u.sup == s.sup
    ensures Up(u)
  {}
}
