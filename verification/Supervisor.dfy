/**
 The php-fpm process supervisor (internal/supervisor/supervisor.go) as a state machine over its
 child process. Start, Stop and HealthCheck are whole calls; between them a child may exit on its
 own, which the reaper observes. The outcome of every system call is an input.
 */
module Supervisor {
  import opened Common

  datatype State = Absent | Starting | Ready | Draining | Stopping | Stopped | Failed

  datatype Failure = IsolationFailed | ExecFailed | SocketTimeout

  /** What the system answers during one Start, in the order Start asks. */
  datatype Launch = Launch(socketDir: bool, pidDir: bool, config: bool, isolation: bool, exec: bool, socket: bool)

  /** What a health probe finds: the socket file, and whether someone accepts on it. */
  datatype Probe = Probe(socketExists: bool, accepts: bool)

  datatype Health = Healthy | NotReady | ChildExited | SocketMissing | NotAccepting

  /**
   The supervisor as a value: `current` is the last child that really started, `unreaped` the
   children whose exit has not been observed.
   */
  datatype Sup<Id> = Sup(state: State, current: Option<Id>, unreaped: set<Id>, lastFailure: Option<Failure>)

  function Initial<Id>(): Sup<Id> {
    Sup(Absent, None, {}, None)
  }

  function AfterStop<Id>(s: Sup<Id>): Sup<Id> {
    if s.state == Stopped || s.state == Absent then s
    else s.(state := Stopped, unreaped := if s.current.Some? then s.unreaped - {s.current.value} else s.unreaped)
  }

  /** `child` is the process that is launched if the launch gets that far. */
  function AfterStart<Id>(s: Sup<Id>, l: Launch, child: Id): Sup<Id> {
    if s.state == Ready || s.state == Starting then s
    else if !l.socketDir || !l.pidDir || !l.config then s.(state := Failed)
    else if !l.isolation then s.(state := Failed, lastFailure := Some(IsolationFailed))
    else if !l.exec then s.(state := Failed, current := None, lastFailure := Some(ExecFailed))
    else if !l.socket then s.(state := Failed, current := Some(child), lastFailure := Some(SocketTimeout),
                              unreaped := s.unreaped - {child})
    else s.(state := Ready, current := Some(child), lastFailure := None, unreaped := s.unreaped + {child})
  }

  lemma StartFromAnywhere<Id>(s: Sup<Id>, l: Launch, child: Id)
    ensures if s.state == Ready || s.state == Starting then StartSucceeds(s, l) && AfterStart(s, l, child) == s
            else
              && StartSucceeds(s, l) == (l == Launch(true, true, true, true, true, true))
              && AfterStart(s, l, child) == AfterStart(s.(state := Absent), l, child)
  {}

  predicate StartSucceeds<Id>(s: Sup<Id>, l: Launch) {
    s.state == Ready || s.state == Starting || l == Launch(true, true, true, true, true, true)
  }

  function AfterExit<Id>(s: Sup<Id>, child: Id): Sup<Id> {
    s.(unreaped := s.unreaped - {child})
  }

  function Check<Id>(s: Sup<Id>, p: Probe): Health {
    if s.state != Ready then NotReady
    else if s.current.Some? && s.current.value !in s.unreaped then ChildExited
    else if !p.socketExists then SocketMissing
    else if !p.accepts then NotAccepting
    else Healthy
  }

  /** The only unreaped child is the current one, and only while the supervisor is ready. */
  ghost predicate OneChild<Id>(s: Sup<Id>) {
    && (s.unreaped != {} ==> s.state == Ready && s.current.Some? && s.unreaped == {s.current.value})
    && s.state !in {Starting, Stopping, Draining}
    && (s.state == Ready ==> s.current.Some?)
  }

  // ---------------------------------------------------------------------------------------------
  // The supervisor, updated in place
  // ---------------------------------------------------------------------------------------------

  /** One exec.Cmd with its reaper: `started` is a non-nil Process, `exited` the closed channel. */
  class Cmd {
    var started: bool
    var exited: bool

    constructor ()
      ensures !started && !exited
    {
      started, exited := false, false;
    }
  }

  class Supervisor {
    var state: State
    var cmd: Cmd?
    var lastFailure: Option<Failure>
    ghost var children: set<Cmd>

    ghost predicate Valid()
      reads this, children, cmd
    {
      && (forall c :: c in children ==> c.started)
      && (cmd != null && cmd.started ==> cmd in children)
    }

    ghost function Footprint(): set<object>
      reads this
    {
      {this} + children + if cmd == null then {} else {cmd}
    }

    ghost function View(): Sup<Cmd?>
      reads Footprint()
    {
      Sup(state, if cmd != null && cmd.started then Some(cmd) else None,
          (set c: Cmd? | c in children && !c.exited), lastFailure)
    }

    constructor ()
      ensures Valid() && fresh(Footprint())
      ensures View() == Initial()
    {
      state, cmd, lastFailure, children := Absent, null, None, {};
    }

    /** The environment: a started child exits and its reaper sees it. */
    method ChildExits(c: Cmd)
      requires Valid() && c in children
      modifies c
      ensures Valid() && View() == AfterExit(old(View()), c)
      ensures Footprint() == old(Footprint())
    {
      c.exited := true;
    }

    method Stop()
      requires Valid()
      modifies Footprint()
      ensures Valid() && View() == AfterStop(old(View()))
      ensures Footprint() == old(Footprint())
    {
      if state == Stopped || state == Absent {
        return;
      }
      state := Stopping;
      if cmd != null && cmd.started {
        // Terminated, then killed if it takes too long; either way the call waits for the reaper.
        cmd.exited := true;
      }
      state := Stopped;
    }

    method SetState(to: State)
      requires Valid()
      modifies this`state
      ensures Valid() && View() == old(View()).(state := to)
      ensures Footprint() == old(Footprint())
    {
      state := to;
    }

    method SetFailure(to: State, why: Failure)
      requires Valid()
      modifies this`state, this`lastFailure
      ensures Valid() && View() == old(View()).(state := to, lastFailure := Some(why))
      ensures Footprint() == old(Footprint())
    {
      state, lastFailure := to, Some(why);
    }

    method Start(l: Launch) returns (ok: bool, child: Cmd)
      requires Valid()
      modifies Footprint()
      ensures Valid() && fresh(child) && fresh(Footprint() - old(Footprint()))
      ensures View() == AfterStart(old(View()), l, child)
      ensures ok == StartSucceeds(old(View()), l)
    {
      hide AfterStart, StartSucceeds;
      child := new Cmd();
      StartFromAnywhere(old(View()), l, child);
      if state == Ready || state == Starting {
        ok := true;
      } else {
        SetState(Starting);
        ok := Prepare(l, child);
      }
    }

    /** The steps of Start: directories, configuration, isolation, and then the launch. */
    method Prepare(l: Launch, child: Cmd) returns (ok: bool)
      requires Valid() && state == Starting
      requires !child.started && !child.exited && child !in Footprint()
      modifies Footprint(), child
      ensures Valid() && Footprint() <= old(Footprint()) + {child}
      ensures ok == (l == Launch(true, true, true, true, true, true))
      ensures View() == AfterStart(old(View()).(state := Absent), l, child)
    {
      if !l.socketDir || !l.pidDir || !l.config {
        SetState(Failed);
        return false;
      }
      if !l.isolation {
        SetFailure(Failed, IsolationFailed);
        return false;
      }
      ok := Execute(child, l.exec, l.socket);
    }

    /** The second half of Start: launch the process, then wait for its socket or give it up. */
    method Execute(child: Cmd, exec: bool, socket: bool) returns (ok: bool)
      requires Valid() && state == Starting
      requires !child.started && !child.exited && child !in Footprint()
      modifies Footprint(), child
      ensures Valid() && Footprint() <= old(Footprint()) + {child}
      ensures ok == (exec && socket)
      ensures var s := old(View());
              View() ==
                if !exec then s.(state := Failed, current := None, lastFailure := Some(ExecFailed))
                else if !socket then s.(state := Failed, current := Some(child), lastFailure := Some(SocketTimeout),
                                        unreaped := s.unreaped - {child})
                else s.(state := Ready, current := Some(child), lastFailure := None, unreaped := s.unreaped + {child})
    {
      cmd := child;
      if !exec {
        SetFailure(Failed, ExecFailed);
        return false;
      }
      child.started := true;
      children := children + {child};
      assert View().unreaped == old(View()).unreaped + {child};
      if !socket {
        Stop();
        SetFailure(Failed, SocketTimeout);
        return false;
      }
      state, lastFailure := Ready, None;
      return true;
    }

    method HealthCheck(p: Probe) returns (h: Health)
      requires Valid()
      ensures h == Check(View(), p)
    {
      if state != Ready {
        return NotReady;
      }
      if cmd != null && cmd.started && cmd.exited {
        return ChildExited;
      }
      if !p.socketExists {
        return SocketMissing;
      }
      if !p.accepts {
        return NotAccepting;
      }
      return Healthy;
    }
  }
}
