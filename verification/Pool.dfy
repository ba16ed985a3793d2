/**
 The FastCGI connection pool (internal/php/fastcgi/pool.go) as a concurrent protocol.

 Get holds the lock while it looks for an idle connection, releases it to dial, and takes it again
 only if the dial fails; Put and Close hold it throughout. Each critical section, and each dial that
 succeeds, is one atomic step, and a run is any interleaving of such steps in which every
 connection that was handed out is put back at most once.

 Connections are numbered. What the program does not record (who holds a connection, which are
 being dialled, which have been closed) is kept in ghost fields.
 */
module Pool {

  type Conn = nat

  datatype Config = Config(maxIdle: nat, maxActive: nat, idleTimeout: int)

  datatype Idle = Idle(conn: Conn, lastUsed: int)

  datatype GetResult = PoolClosed | Reused(conn: Conn) | Exhausted | MustDial

  /** The pool with its surroundings; `shut` lists the connections closed so far, in order. */
  datatype State = State(idle: seq<Idle>, activeCount: int, closed: bool,
                         held: set<Conn>, dialling: nat, shut: seq<Conn>, dialled: set<Conn>, clock: int)

  function Empty(clock: int): State {
    State([], 0, false, {}, 0, [], {}, clock)
  }

  function Conns(idle: seq<Idle>): (cs: seq<Conn>)
    ensures |cs| == |idle| && forall i :: 0 <= i < |idle| ==> cs[i] == idle[i].conn
  {
    seq(|idle|, i requires 0 <= i < |idle| => idle[i].conn)
  }

  predicate Expired(cfg: Config, pc: Idle, now: int) {
    cfg.idleTimeout > 0 && now - pc.lastUsed > cfg.idleTimeout
  }

  /** Close the newest idle connection. */
  function DropNewest(s: State): State
    requires s.idle != []
  {
    var n := |s.idle| - 1;
    s.(idle := s.idle[..n], activeCount := s.activeCount - 1, shut := s.shut + [s.idle[n].conn])
  }

  /** Pop expired connections off the end until a usable one is on top. */
  function Trimmed(cfg: Config, s: State, now: int): State
    decreases |s.idle|
  {
    if s.idle == [] then s
    else
      var top := s.idle[|s.idle| - 1];
      if !Expired(cfg, top, now) then s
      else Trimmed(cfg, DropNewest(s), now)
  }

  /** The first critical section of Get. */
  function AfterGet(cfg: Config, s: State, now: int): (State, GetResult) {
    if s.closed then (s.(clock := now), PoolClosed)
    else
      var t := Trimmed(cfg, s.(clock := now), now);
      if t.idle != [] then
        var top := t.idle[|t.idle| - 1].conn;
        (t.(idle := t.idle[..|t.idle| - 1], held := t.held + {top}), Reused(top))
      else if cfg.maxActive > 0 && t.activeCount >= cfg.maxActive then (t, Exhausted)
      else (t.(activeCount := t.activeCount + 1, dialling := t.dialling + 1), MustDial)
  }

  function AfterDial(s: State, conn: Conn): State
    requires s.dialling > 0
  {
    s.(dialling := s.dialling - 1, held := s.held + {conn}, dialled := s.dialled + {conn})
  }

  function AfterDialFailure(s: State): State
    requires s.dialling > 0
  {
    s.(dialling := s.dialling - 1, activeCount := s.activeCount - 1)
  }

  function AfterPut(cfg: Config, s: State, conn: Conn, failed: bool, now: int): State {
    var t := s.(held := s.held - {conn}, clock := now);
    if s.closed || failed || |s.idle| >= cfg.maxIdle
    then t.(activeCount := s.activeCount - 1, shut := s.shut + [conn])
    else t.(idle := s.idle + [Idle(conn, now)])
  }

  function AfterClose(s: State): State {
    if s.closed then s
    else s.(closed := true, idle := [], activeCount := 0, shut := s.shut + Conns(s.idle))
  }

  // ---------------------------------------------------------------------------------------------
  // The pool, updated in place: one method per critical section
  // ---------------------------------------------------------------------------------------------

  class Pool {
    const cfg: Config
    var idle: seq<Idle>
    var activeCount: int
    var closed: bool
    ghost var held: set<Conn>
    ghost var dialling: nat
    ghost var shut: seq<Conn>
    ghost var dialled: set<Conn>
    ghost var clock: int

    ghost function View(): State
      reads this
    {
      State(idle, activeCount, closed, held, dialling, shut, dialled, clock)
    }

    constructor (maxIdle: int, maxActive: int, idleTimeout: int, ghost clock: int)
      ensures View() == Empty(clock)
      ensures cfg == Config(if maxIdle <= 0 then 10 else maxIdle, if maxActive <= 0 then 100 else maxActive,
                            if idleTimeout <= 0 then 60_000_000_000 else idleTimeout)
    {
      cfg := Config(if maxIdle <= 0 then 10 else maxIdle, if maxActive <= 0 then 100 else maxActive,
                    if idleTimeout <= 0 then 60_000_000_000 else idleTimeout);
      idle, activeCount, closed := [], 0, false;
      held, dialling, shut, dialled := {}, 0, [], {};
      this.clock := clock;
    }

    method Get(now: int) returns (r: GetResult)
      modifies this
      ensures (View(), r) == AfterGet(cfg, old(View()), now)
    {
      clock := now;
      if closed {
        return PoolClosed;
      }
      while |idle| > 0
        invariant !closed && clock == now
        invariant Trimmed(cfg, old(View()).(clock := now), now) == Trimmed(cfg, View(), now)
      {
        var pc := idle[|idle| - 1];
        ghost var before := View();
        idle := idle[..|idle| - 1];
        if cfg.idleTimeout > 0 && now - pc.lastUsed > cfg.idleTimeout {
          shut := shut + [pc.conn];
          activeCount := activeCount - 1;
          assert Trimmed(cfg, before, now) == Trimmed(cfg, View(), now);
          continue;
        }
        assert Trimmed(cfg, before, now) == before;
        held := held + {pc.conn};
        return Reused(pc.conn);
      }
      if cfg.maxActive > 0 && activeCount >= cfg.maxActive {
        return Exhausted;
      }
      activeCount := activeCount + 1;
      dialling := dialling + 1;
      return MustDial;
    }

    /** The second critical section of Get. */
    method DialFailed()
      requires dialling > 0
      modifies this
      ensures View() == AfterDialFailure(old(View()))
    {
      activeCount := activeCount - 1;
      dialling := dialling - 1;
    }

    /** The new connection goes straight to the caller of Get. */
    ghost method DialSucceeded(conn: Conn)
      requires dialling > 0
      modifies this
      ensures View() == AfterDial(old(View()), conn)
    {
      dialling, held, dialled := dialling - 1, held + {conn}, dialled + {conn};
    }

    method Put(conn: Conn, failed: bool, now: int)
      modifies this
      ensures View() == AfterPut(cfg, old(View()), conn, failed, now)
    {
      held, clock := held - {conn}, now;
      if closed || failed {
        shut := shut + [conn];
        activeCount := activeCount - 1;
        return;
      }
      if |idle| < cfg.maxIdle {
        idle := idle + [Idle(conn, now)];
      } else {
        shut := shut + [conn];
        activeCount := activeCount - 1;
      }
    }

    method Close()
      modifies this
      ensures View() == AfterClose(old(View()))
    {
      if closed {
        return;
      }
      closed := true;
      for i := 0 to |idle|
        invariant View() == old(View()).(closed := true, shut := old(shut) + Conns(idle)[..i])
      {
        shut := shut + [idle[i].conn];
      }
      assert Conns(idle)[..|idle|] == Conns(idle);
      idle := [];
      activeCount := 0;
    }
  }

  // ---------------------------------------------------------------------------------------------
  // Interleavings
  // ---------------------------------------------------------------------------------------------

  datatype Step =
    | GetStep(now: int)
    | DialOk(conn: Conn)
    | DialFail
    | PutStep(conn: Conn, failed: bool, now: int)
    | CloseStep

  /** A dial ends once and yields a new connection, a holder puts once, and the clock never goes back. */
  ghost predicate Enabled(s: State, e: Step) {
    match e
    case GetStep(now) => s.clock <= now
    case DialOk(conn) => s.dialling > 0 && conn !in s.dialled
    case DialFail => s.dialling > 0
    case PutStep(conn, _, now) => conn in s.held && s.clock <= now
    case CloseStep => true
  }

  ghost function Next(cfg: Config, s: State, e: Step): State
    requires Enabled(s, e)
  {
    match e
    case GetStep(now) => AfterGet(cfg, s, now).0
    case DialOk(conn) => AfterDial(s, conn)
    case DialFail => AfterDialFailure(s)
    case PutStep(conn, failed, now) => AfterPut(cfg, s, conn, failed, now)
    case CloseStep => AfterClose(s)
  }

  /** The states of an interleaving that starts with a new pool. */
  ghost predicate Trace(cfg: Config, start: int, states: seq<State>, steps: seq<Step>) {
    && |states| == |steps| + 1
    && states[0] == Empty(start)
    && forall i :: 0 <= i < |steps| ==> Enabled(states[i], steps[i]) && states[i + 1] == Next(cfg, states[i], steps[i])
  }

  /**
   Nobody waits for anybody: callers get at any later time, a dial that is out ends either way with any
   connection never seen, a holder puts, and the pool is closed, all whatever happened before.
   */
  lemma GoesOn(cfg: Config, start: int, states: seq<State>, steps: seq<Step>, e: Step)
    requires Trace(cfg, start, states, steps)
    requires var s := states[|steps|];
             match e
             case GetStep(now) => s.clock <= now
             case DialOk(conn) => s.dialling >= 1 && conn !in s.dialled
             case DialFail => s.dialling >= 1
             case PutStep(conn, _, now) => conn in s.held && s.clock <= now
             case CloseStep => true
    ensures Enabled(states[|steps|], e)
    ensures Trace(cfg, start, states + [Next(cfg, states[|steps|], e)], steps + [e])
  {
    hide Next;
  }

  ghost predicate Distinct(cs: seq<Conn>) {
    forall i, j :: 0 <= i < j < |cs| ==> cs[i] != cs[j]
  }

  /** Every dialled connection is idle, held or closed, exactly one of these and only once. */
  ghost predicate Accounted(s: State) {
    && Distinct(Conns(s.idle)) && Distinct(s.shut)
    && (forall c :: c in Conns(s.idle) ==> c !in s.held && c !in s.shut)
    && (forall c :: c in s.held ==> c !in s.shut)
    && (forall c :: c in s.dialled <==> c in Conns(s.idle) || c in s.held || c in s.shut)
  }

  ghost predicate ByAge(idle: seq<Idle>, clock: int) {
    && (forall i, j :: 0 <= i < j < |idle| ==> idle[i].lastUsed <= idle[j].lastUsed)
    && (forall i :: 0 <= i < |idle| ==> idle[i].lastUsed <= clock)
  }

  ghost predicate Bounded(cfg: Config, s: State) {
    if s.closed then s.idle == []
    else && s.activeCount == |s.idle| + |s.held| + s.dialling
         && s.activeCount <= cfg.maxActive
         && |s.idle| <= cfg.maxIdle
  }

  ghost predicate Sound(cfg: Config, s: State) {
    Accounted(s) && ByAge(s.idle, s.clock) && Bounded(cfg, s)
  }

  /** Dropping the newest idle connection, closed or handed out. */
  lemma PopSound(s: State, handOut: bool)
    requires s.idle != [] && Accounted(s)
    ensures var n := |s.idle| - 1; var c := s.idle[n].conn;
            && c !in s.held
            && Accounted(s.(idle := s.idle[..n], held := if handOut then s.held + {c} else s.held,
                            shut := if handOut then s.shut else s.shut + [c]))
  {
    var n := |s.idle| - 1;
    assert Conns(s.idle[..n]) == Conns(s.idle)[..n];
    assert s.idle[n].conn in Conns(s.idle);
    assert Conns(s.idle) == Conns(s.idle[..n]) + [s.idle[n].conn];
  }

  lemma Uncounted(s: State)
    requires Accounted(s)
    ensures Accounted(s.(activeCount := s.activeCount - 1))
  {}

  lemma {:induction false} TrimmedSound(cfg: Config, s: State, now: int)
    requires !s.closed && Accounted(s) && s.activeCount == |s.idle| + |s.held| + s.dialling
    ensures var t := Trimmed(cfg, s, now);
            && Accounted(t) && t == s.(idle := t.idle, activeCount := t.activeCount, shut := t.shut)
            && t.idle <= s.idle
            && t.activeCount == |t.idle| + |t.held| + t.dialling
    decreases |s.idle|
  {
    hide Accounted, Expired;
    if s.idle != [] && Expired(cfg, s.idle[|s.idle| - 1], now) {
      var n := |s.idle| - 1;
      PopSound(s, false);
      Uncounted(s.(idle := s.idle[..n], shut := s.shut + [s.idle[n].conn]));
      TrimmedSound(cfg, DropNewest(s), now);
    }
  }

  lemma Retimed(s: State, now: int)
    requires Accounted(s)
    ensures Accounted(s.(clock := now))
  {}

  lemma Redialled(s: State)
    requires Accounted(s)
    ensures Accounted(s.(activeCount := s.activeCount + 1, dialling := s.dialling + 1))
  {}

  lemma GetSound(cfg: Config, s: State, now: int)
    requires cfg.maxActive > 0 && Sound(cfg, s) && s.clock <= now
    ensures Sound(cfg, AfterGet(cfg, s, now).0)
  {
    hide Accounted, Trimmed;
    assert Accounted(s.(clock := now)) by { Retimed(s, now); }
    if !s.closed {
      TrimmedSound(cfg, s.(clock := now), now);
      var t := Trimmed(cfg, s.(clock := now), now);
      if t.idle != [] {
        PopSound(t, true);
      } else {
        Redialled(t);
      }
    }
  }

  lemma PutSound(cfg: Config, s: State, conn: Conn, failed: bool, now: int)
    requires Sound(cfg, s) && conn in s.held && s.clock <= now
    ensures Sound(cfg, AfterPut(cfg, s, conn, failed, now))
  {
    var t := AfterPut(cfg, s, conn, failed, now);
    if t.idle != s.idle {
      assert Conns(t.idle) == Conns(s.idle) + [conn];
    }
  }

  lemma CloseSound(cfg: Config, s: State)
    requires Sound(cfg, s)
    ensures Sound(cfg, AfterClose(s))
  {
    var cs := Conns(s.idle);
    forall i, j | 0 <= i < j < |s.shut + cs| ensures (s.shut + cs)[i] != (s.shut + cs)[j] {
      if i < |s.shut| <= j { assert s.shut[i] in s.shut && cs[j - |s.shut|] in cs; }
    }
  }

  lemma StepSound(cfg: Config, s: State, e: Step)
    requires cfg.maxActive > 0 && Sound(cfg, s) && Enabled(s, e)
    ensures Sound(cfg, Next(cfg, s, e))
  {
    match e
    case GetStep(now) => GetSound(cfg, s, now);
    case PutStep(conn, failed, now) => PutSound(cfg, s, conn, failed, now);
    case CloseStep => CloseSound(cfg, s);
    case DialOk(conn) =>
    case DialFail =>
  }

  /**
   Safety of every interleaving: each connection is accounted for exactly once and closed at most
   once, the idle list is ordered by age and within its bound, and while the pool is open its count
   is the number of connections idle, held and being dialled, which never exceeds the limit.
   */
  lemma {:induction false} EveryInterleavingSound(cfg: Config, start: int, states: seq<State>, steps: seq<Step>, i: nat)
    requires cfg.maxActive > 0 && Trace(cfg, start, states, steps) && i < |states|
    ensures Sound(cfg, states[i])
  {
    if i > 0 {
      EveryInterleavingSound(cfg, start, states, steps, i - 1);
      StepSound(cfg, states[i - 1], steps[i - 1]);
    }
  }

  lemma {:induction false} TrimmedAll(cfg: Config, s: State, now: int)
    requires forall i :: 0 <= i < |s.idle| ==> Expired(cfg, s.idle[i], now)
    ensures Trimmed(cfg, s, now).idle == [] && Trimmed(cfg, s, now).activeCount == s.activeCount - |s.idle|
    decreases |s.idle|
  {
    if s.idle != [] {
      var n := |s.idle| - 1;
      TrimmedAll(cfg, DropNewest(s), now);
    }
  }

  /**
   What Get decides, in terms of who has the connections. Because the idle list is ordered by age,
   it either hands out the newest idle connection and closes nothing, or closes every idle one; a
   dial starts only when none is left and the held and dialling ones leave room.
   */
  lemma GetDecides(cfg: Config, s: State, now: int)
    requires cfg.maxActive > 0 && Sound(cfg, s) && s.clock <= now && !s.closed
    ensures var (t, r) := AfterGet(cfg, s, now); var n := |s.idle|;
            if n > 0 && !Expired(cfg, s.idle[n - 1], now) then
              r == Reused(s.idle[n - 1].conn) && t.idle == s.idle[..n - 1] && t.shut == s.shut
            else
              && t.idle == [] && |t.shut| == |s.shut| + n
              && (forall c :: c in Conns(s.idle) ==> c in t.shut)
              && r == if |s.held| + s.dialling >= cfg.maxActive then Exhausted else MustDial
  {
    var at := s.(clock := now);
    if s.idle == [] || Expired(cfg, s.idle[|s.idle| - 1], now) {
      TrimmedAll(cfg, at, now);
      GetSound(cfg, s, now);
      TrimmedShut(cfg, at, now);
    }
  }

  lemma {:induction false} TrimmedShut(cfg: Config, s: State, now: int)
    ensures var t := Trimmed(cfg, s, now); |t.shut| + |t.idle| == |s.shut| + |s.idle|
    ensures var t := Trimmed(cfg, s, now);
            && t.held == s.held && t.dialling == s.dialling
            && (forall c :: c in s.shut ==> c in t.shut)
            && (forall c :: c in Conns(s.idle) ==> c in t.shut || c in Conns(t.idle))
    decreases |s.idle|
  {
    if s.idle != [] && Expired(cfg, s.idle[|s.idle| - 1], now) {
      var n := |s.idle| - 1;
      assert Conns(s.idle) == Conns(s.idle[..n]) + [s.idle[n].conn];
      TrimmedShut(cfg, DropNewest(s), now);
    }
  }

  /** After Close nothing becomes idle again, and once every holder has put, every connection is closed. */
  lemma ClosedDrains(cfg: Config, s: State)
    requires Sound(cfg, s) && s.closed && s.held == {}
    ensures forall c :: c in s.dialled <==> c in s.shut
  {
    assert Conns(s.idle) == [];
  }

  // ---------------------------------------------------------------------------------------------
  // What becomes of one connection
  // ---------------------------------------------------------------------------------------------

  /** A connection put back as failed is closed, and nothing else changes but that its place is free. */
  lemma FailedPutShuts(cfg: Config, s: State, conn: Conn, now: int)
    requires Sound(cfg, s) && conn in s.held
    ensures var t := AfterPut(cfg, s, conn, true, now);
            && conn in t.shut && conn !in Conns(t.idle) && conn !in t.held
            && t.idle == s.idle && t.activeCount == s.activeCount - 1
  {}

  /**
   A connection put back without a failure is the one the next Get reuses if the pool is open and has
   room for it and it has not been idle for longer than the timeout; otherwise it is closed.
   */
  lemma PutThenGet(cfg: Config, s: State, conn: Conn, now: int, later: int)
    requires cfg.maxActive > 0 && Sound(cfg, s) && conn in s.held && s.clock <= now <= later
    ensures var put := AfterPut(cfg, s, conn, false, now); var (got, r) := AfterGet(cfg, put, later);
            && (r == Reused(conn) <==>
                  !s.closed && |s.idle| < cfg.maxIdle && (cfg.idleTimeout <= 0 || later - now <= cfg.idleTimeout))
            && (r != Reused(conn) ==> conn in got.shut)
  {
    var put := AfterPut(cfg, s, conn, false, now);
    PutSound(cfg, s, conn, false, now);
    if conn in put.shut {
      StillShut(cfg, put, GetStep(later), conn);
      ShutIsGone(cfg, put, conn, later);
    } else {
      assert put.idle == s.idle + [Idle(conn, now)];
      GetDecides(cfg, put, later);
      assert Conns(put.idle)[|s.idle|] == conn;
    }
  }

  lemma StillShut(cfg: Config, s: State, e: Step, c: Conn)
    requires Enabled(s, e) && c in s.shut
    ensures c in Next(cfg, s, e).shut
  {
    match e
    case GetStep(now) => TrimmedShut(cfg, s.(clock := now), now);
    case _ =>
  }

  lemma ShutIsGone(cfg: Config, s: State, c: Conn, now: int)
    requires cfg.maxActive > 0 && Sound(cfg, s) && s.clock <= now && c in s.shut
    ensures AfterGet(cfg, s, now).1 != Reused(c)
  {
    if !s.closed {
      GetDecides(cfg, s, now);
      if s.idle != [] { assert Conns(s.idle)[|s.idle| - 1] in Conns(s.idle); }
    }
  }

  lemma {:induction false} ShutForever(cfg: Config, start: int, states: seq<State>, steps: seq<Step>,
                                      i: nat, j: nat, c: Conn)
    requires Trace(cfg, start, states, steps) && i <= j < |states| && c in states[i].shut
    ensures c in states[j].shut
  {
    if i < j {
      ShutForever(cfg, start, states, steps, i, j - 1, c);
      StillShut(cfg, states[j - 1], steps[j - 1], c);
    }
  }

  /** In every interleaving: once put back as failed, a connection is never handed out again. */
  lemma FailedNeverReused(cfg: Config, start: int, states: seq<State>, steps: seq<Step>, i: nat, j: nat)
    requires cfg.maxActive > 0 && Trace(cfg, start, states, steps) && i < j < |steps|
    requires steps[i].PutStep? && steps[i].failed && steps[j].GetStep?
    ensures AfterGet(cfg, states[j], steps[j].now).1 != Reused(steps[i].conn)
  {
    EveryInterleavingSound(cfg, start, states, steps, i);
    EveryInterleavingSound(cfg, start, states, steps, j);
    assert Enabled(states[i], steps[i]) && Enabled(states[j], steps[j]);
    FailedPutShuts(cfg, states[i], steps[i].conn, steps[i].now);
    ShutForever(cfg, start, states, steps, i + 1, j, steps[i].conn);
    ShutIsGone(cfg, states[j], steps[i].conn, steps[j].now);
  }

  lemma {:induction false} ClosedForever(cfg: Config, start: int, states: seq<State>, steps: seq<Step>, i: nat, j: nat)
    requires Trace(cfg, start, states, steps) && i < j < |states| && steps[i] == CloseStep
    ensures states[j].closed
  {
    if i + 1 < j { ClosedForever(cfg, start, states, steps, i, j - 1); }
  }

  /** In every interleaving: after Close no Get succeeds or dials, and what is put back is closed. */
  lemma ClosedRefuses(cfg: Config, start: int, states: seq<State>, steps: seq<Step>, i: nat, j: nat)
    requires cfg.maxActive > 0 && Trace(cfg, start, states, steps) && i < j < |steps| && steps[i] == CloseStep
    ensures states[j].idle == []
    ensures steps[j].GetStep? ==> AfterGet(cfg, states[j], steps[j].now).1 == PoolClosed
    ensures steps[j].PutStep? ==> steps[j].conn in states[j + 1].shut
  {
    ClosedForever(cfg, start, states, steps, i, j);
    EveryInterleavingSound(cfg, start, states, steps, j);
    assert states[j + 1] == Next(cfg, states[j], steps[j]);
  }
}
