/**
 Which releases an archive removes and which errors an activation gives (internal/deploy/release.go),
 read off the phases and creation times of the releases and the list of those active before.
 */
module ReleaseLaws {
  import opened Common
  import opened Release

  // ---------------------------------------------------------------------------------------------
  // Archiving
  // ---------------------------------------------------------------------------------------------

  /** Stopped and failed releases created after p. */
  ghost function Younger(t: Table, p: string): set<string>
    requires p in t
  {
    set q | q in t && t[q].phase in {Stopped, Failed} && t[q].createdAt > t[p].createdAt
  }

  /** No two stopped or failed releases were created at the same time. */
  ghost predicate Distinct(t: Table) {
    forall p, q :: p in t && q in t && p != q && t[p].phase in {Stopped, Failed} && t[q].phase in {Stopped, Failed} ==>
      t[p].createdAt != t[q].createdAt
  }

  /**
   An archive removes exactly the stopped and failed releases that at least `keep` such releases are
   younger than; others, as those never activated, stay as they are, in memory and in the directory.
   */
  lemma ArchiveExactly(s: Store, keep: nat, gone: seq<string>)
    requires Oldest(s, keep, gone) && Distinct(s.mem)
    ensures forall p :: p in s.mem ==>
              (p !in AfterArchive(s, gone).mem <==>
                 s.mem[p].phase in {Stopped, Failed} && |Younger(s.mem, p)| >= keep)
    ensures forall p :: p in AfterArchive(s, gone).mem ==> p in s.mem && AfterArchive(s, gone).mem[p] == s.mem[p]
    ensures forall p :: p in AfterArchive(s, gone).mem && p in s.disk ==>
              p in AfterArchive(s, gone).disk && AfterArchive(s, gone).disk[p] == s.disk[p]
  {
    RemovalsRemove(s.disk, gone);
    forall p | p in s.mem
      ensures p in Named(gone) <==> s.mem[p].phase in {Stopped, Failed} && |Younger(s.mem, p)| >= keep
    {
      RemovedExactly(s, keep, gone, p);
    }
  }

  lemma RemovedExactly(s: Store, keep: nat, gone: seq<string>, p: string)
    requires Oldest(s, keep, gone) && Distinct(s.mem) && p in s.mem
    ensures p in Named(gone) <==> s.mem[p].phase in {Stopped, Failed} && |Younger(s.mem, p)| >= keep
  {
    assert p in Archivables(s) <==> s.mem[p].phase in {Stopped, Failed};
    if p in Named(gone) {
      ManyYounger(s, keep, gone, p);
    } else if p in Archivables(s) {
      FewYounger(s, keep, gone, p);
    }
  }

  lemma ManyYounger(s: Store, keep: nat, gone: seq<string>, p: string)
    requires Oldest(s, keep, gone) && Distinct(s.mem) && p in s.mem && p in Named(gone)
    ensures |Younger(s.mem, p)| >= keep
  {
    hide Named;
    var all := Archivables(s);
    var left := all - Named(gone);
    forall q | q in left ensures q in Younger(s.mem, p) { assert s.mem[p].createdAt <= s.mem[q].createdAt; }
    SubsetSize(left, Younger(s.mem, p));
    if |all| < keep { SameSize(left, all); }
  }

  lemma FewYounger(s: Store, keep: nat, gone: seq<string>, p: string)
    requires Oldest(s, keep, gone) && p in Archivables(s) && p !in Named(gone)
    ensures |Younger(s.mem, p)| < keep
  {
    hide Named;
    var left := Archivables(s) - Named(gone);
    forall q | q in Younger(s.mem, p) ensures q in left - {p} {}
    SubsetSize(Younger(s.mem, p), left - {p});
  }

  // ---------------------------------------------------------------------------------------------
  // A release that waits to be activated
  // ---------------------------------------------------------------------------------------------

  predicate Touches(w: Write, id: string) {
    match w
    case Save(rec) => rec.id == id
    case Remove(p) => p == id
  }

  ghost predicate NoneTouches(ws: seq<Write>, id: string) {
    forall i :: 0 <= i < |ws| ==> !Touches(ws[i], id)
  }

  lemma {:induction false} AppliedApart(disk: Table, ws: seq<Write>, id: string)
    requires NoneTouches(ws, id) && id in disk
    ensures id in AppliedAll(disk, ws) && AppliedAll(disk, ws)[id] == disk[id]
  {
    if ws != [] { AppliedApart(disk, ws[..|ws| - 1], id); }
  }

  lemma {:induction false} RemovalsApart(gone: seq<string>, id: string)
    requires id !in Named(gone)
    ensures NoneTouches(Removals(gone), id)
  {
    if gone != [] {
      var rest := gone[..|gone| - 1];
      assert forall i :: 0 <= i < |rest| ==> rest[i] == gone[i];
      RemovalsApart(rest, id);
    }
  }

  /** Created and never activated, in memory and in the directory. */
  ghost predicate Waits(s: Store, rec: Rec) {
    && rec.phase == Created && rec.id != s.activeID
    && rec.id in s.mem && s.mem[rec.id] == rec && rec.id in s.disk && s.disk[rec.id] == rec
  }

  ghost predicate Activates(op: Op, id: string) {
    op.Activate? && op.id == id
  }

  lemma WritesApart(s: Store, op: Op, rec: Rec)
    requires Consistent(s) && Enabled(s, op) && Waits(s, rec) && !Activates(op, rec.id)
    ensures NoneTouches(WritesOf(s, op), rec.id)
  {
    if op.Archive? {
      assert rec.id !in Archivables(s) && rec.id !in Named(op.gone);
      hide Removals;
      RemovalsApart(op.gone, rec.id);
    }
  }

  lemma OpLeaves(s: Store, op: Op, rec: Rec)
    requires Consistent(s) && Enabled(s, op) && Waits(s, rec) && !Activates(op, rec.id)
    ensures Waits(AfterOp(s, op), rec)
  {
    WritesApart(s, op, rec);
    AppliedApart(s.disk, WritesOf(s, op), rec.id);
    if op.Archive? { assert rec.id !in Archivables(s); }
  }

  lemma EventLeaves(s: Store, e: Event, t: Store, rec: Rec)
    requires Consistent(s) && Leads(s, e, t) && Waits(s, rec) && !Activates(e.op, rec.id)
    ensures Waits(t, rec)
  {
    if e.Whole? {
      OpLeaves(s, e.op, rec);
    } else {
      hide Consistent;
      WritesApart(s, e.op, rec);
      var ws := WritesOf(s, e.op)[..e.n];
      assert NoneTouches(ws, rec.id);
      hide WritesOf;
      AppliedApart(s.disk, ws, rec.id);
    }
  }

  lemma CreateWaits(s: Store, id: string, now: int, t: Store)
    requires Leads(s, Whole(Create(id, now)), t) && id != s.activeID
    ensures Waits(t, Rec(id, now, Created, None, None))
  {}

  /**
   A release once created stays just so until it is activated itself, through any activations of
   others, rollbacks, archives, failed swaps, crashes and reloads. Its id is new.
   */
  lemma {:induction false} CreatedStays(states: seq<Store>, events: seq<Event>, id: string, now: int, i: nat, j: nat)
    requires Trace(states, events) && i < j < |states| && events[i] == Whole(Create(id, now))
    requires id != states[i].activeID
    requires forall k :: i < k < j ==> !Activates(events[k].op, id)
    ensures Waits(states[j], Rec(id, now, Created, None, None))
    decreases j
  {
    hide Leads, Waits, Consistent;
    var k := j - 1;
    assert Leads(states[k], events[k], states[k + 1]);
    if k == i {
      CreateWaits(states[i], id, now, states[j]);
    } else {
      EveryRunConsistent(states, events, k);
      CreatedStays(states, events, id, now, i, k);
      EventLeaves(states[k], events[k], states[j], Rec(id, now, Created, None, None));
    }
  }

  // ---------------------------------------------------------------------------------------------
  // Activating
  // ---------------------------------------------------------------------------------------------

  /** An activation is refused for a release that is not known or that runs; otherwise the swap decides. */
  lemma ErrorsExactly(s: Store, r: Recency, id: string, swapped: bool)
    requires Consistent(s) && Ranks(s, r)
    ensures var error, runs := ActivateError(s, id, swapped), r.front == Running && id == r.list[0];
            && (error == Some(NotFound) <==> id !in s.mem)
            && (error == Some(AlreadyActive) <==> runs)
            && (error == Some(SwapFailed) <==> id in s.mem && !runs && !swapped)
            && (error == None <==> id in s.mem && !runs && swapped)
  {}

  // ---------------------------------------------------------------------------------------------
  // What runs there are
  // ---------------------------------------------------------------------------------------------

  /** A new id is created, a rollback goes to an inactive release deactivated last, and anything else goes. */
  ghost predicate Possible(s: Store, op: Op) {
    match op
    case Create(id, _) => id != "" && id !in s.mem && id !in s.disk
    case Activate(_, halt, start, _) => halt < start
    case Deactivate(_) => true
    case Rollback(p, halt, start, _) =>
      && halt < start && s.activeID != "" && p in s.mem && p != s.activeID && s.mem[p].deactivatedAt.Some?
      && forall q :: q in s.mem && q != s.activeID && s.mem[q].deactivatedAt.Some? ==>
           s.mem[p].deactivatedAt.value >= s.mem[q].deactivatedAt.value
    case Archive(keep, gone) => Oldest(s, keep, gone)
  }

  lemma PossibleIsEnabled(s: Store, op: Op)
    requires Possible(s, op)
    ensures Enabled(s, op)
  {
    hide Oldest;
  }

  /** Every run goes on with any of these, and the process may die after any of the writes, the last one included. */
  lemma GoesOn(states: seq<Store>, events: seq<Event>, e: Event, t: Store)
    requires Trace(states, events) && Possible(states[|events|], e.op)
    requires var s := states[|events|];
             && (e.Whole? ==> t == AfterOp(s, e.op))
             && (e.Crash? ==> e.n <= |WritesOf(s, e.op)| && Reloaded(AppliedAll(s.disk, WritesOf(s, e.op)[..e.n]), t))
    ensures Trace(states + [t], events + [e])
  {
    PossibleIsEnabled(states[|events|], e.op);
    hide Enabled, AfterOp, WritesOf, Reloaded, AppliedAll;
    OneMoreStep(states, events, e, t);
  }

  /** The clock readings of an operation. */
  function Times(op: Op): seq<int> {
    match op
    case Create(_, now) => [now]
    case Activate(_, halt, start, _) => [halt, start]
    case Deactivate(now) => [now]
    case Rollback(_, halt, start, _) => [halt, start]
    case Archive(_, _) => []
  }

  /** Every clock reading of these operations is before this time. */
  predicate Before(ops: seq<Op>, clock: int, time: int) {
    clock < time && forall i, k :: 0 <= i < |ops| && 0 <= k < |Times(ops[i])| ==> Times(ops[i])[k] < time
  }

  lemma {:induction false} ClockIsBefore(ops: seq<Op>, clock: int, time: int, i: nat)
    requires Before(ops, clock, time) && i <= |ops|
    ensures ClockAt(ops, clock, i) < time
  {
    if i > 0 {
      ClockIsBefore(ops, clock, time, i - 1);
      var ts := Times(ops[i - 1]);
      if ts != [] { assert ts[|ts| - 1] < time; }
    }
  }

  /** So does every run without crashes, if the clock readings are later than all before them. */
  lemma ClockedGoesOn(states: seq<Store>, ops: seq<Op>, clock: int, op: Op)
    requires ClockedTrace(states, ops, clock) && Possible(states[|ops|], op)
    requires forall k :: 0 <= k < |Times(op)| ==> Before(ops, clock, Times(op)[k])
    ensures ClockedTrace(states + [AfterOp(states[|ops|], op)], ops + [op], clock)
  {
    PossibleIsEnabled(states[|ops|], op);
    LaterAll(ops, op, clock);
    hide *;
    ClockedSnoc(states, ops, clock, op);
  }

  lemma ClockedSnoc(states: seq<Store>, ops: seq<Op>, clock: int, op: Op)
    requires ClockedTrace(states, ops, clock)
    requires Enabled(states[|ops|], op) && Later(op, ClockAt(ops, clock, |ops|))
    ensures ClockedTrace(states + [AfterOp(states[|ops|], op)], ops + [op], clock)
  {
    hide Enabled, AfterOp, Later, ClockAt;
    var states', ops' := states + [AfterOp(states[|ops|], op)], ops + [op];
    forall i | 0 <= i < |ops'|
      ensures Enabled(states'[i], ops'[i]) && Later(ops'[i], ClockAt(ops', clock, i))
      ensures states'[i + 1] == AfterOp(states'[i], ops'[i])
    {
      SameClock(ops, op, clock, i);
    }
  }

  lemma LaterAll(ops: seq<Op>, op: Op, clock: int)
    requires forall k :: 0 <= k < |Times(op)| ==> Before(ops, clock, Times(op)[k])
    requires op.Activate? || op.Rollback? ==> op.halt < op.start
    ensures Later(op, ClockAt(ops, clock, |ops|))
  {
    hide Before;
    if Times(op) != [] { ClockIsBefore(ops, clock, Times(op)[0], |ops|); }
  }

  lemma {:induction false} SameClock(ops: seq<Op>, op: Op, clock: int, i: nat)
    requires i <= |ops|
    ensures ClockAt(ops + [op], clock, i) == ClockAt(ops, clock, i)
  {
    if i > 0 { SameClock(ops, op, clock, i - 1); }
  }
}
