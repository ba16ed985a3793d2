/**
 The release manager (internal/deploy/release.go): which release is active, how a rollback finds
 its target through deactivation stamps, and what is on disk after every single write.

 Times are strictly increasing inputs, the outcome of the symlink swap is an input, and metadata
 writes succeed. A release keeps only the fields that change or that order it.
 */
module Release {
  import opened Common

  datatype Phase = Created | Active | Stopped | Failed

  datatype Rec = Rec(id: string, createdAt: int, phase: Phase, activatedAt: Option<int>, deactivatedAt: Option<int>)

  type Table = map<string, Rec>

  /** One change to the archive directory. */
  datatype Write = Save(rec: Rec) | Remove(id: string)

  function Applied(disk: Table, w: Write): Table {
    match w
    case Save(rec) => disk[rec.id := rec]
    case Remove(id) => disk - {id}
  }

  function AppliedAll(disk: Table, ws: seq<Write>): Table {
    if ws == [] then disk else Applied(AppliedAll(disk, ws[..|ws| - 1]), ws[|ws| - 1])
  }

  /** The manager's memory and the directory it writes; an empty activeID means no active release. */
  datatype Store = Store(mem: Table, activeID: string, disk: Table)

  datatype Error = NotFound | AlreadyActive | SwapFailed | NoActive | NoPrevious

  // ---------------------------------------------------------------------------------------------
  // The operations as functions
  // ---------------------------------------------------------------------------------------------

  function Halted(rec: Rec, now: int): Rec {
    rec.(phase := Stopped, deactivatedAt := Some(now))
  }

  function Started(rec: Rec, now: int): Rec {
    rec.(phase := Active, activatedAt := Some(now), deactivatedAt := None)
  }

  /** Memory once the release named by activeID, if it is still known, has been stopped. */
  function AfterHalt(s: Store, now: int): Table {
    if s.activeID != "" && s.activeID in s.mem then s.mem[s.activeID := Halted(s.mem[s.activeID], now)] else s.mem
  }

  function HaltWrites(s: Store, now: int): seq<Write> {
    if s.activeID != "" && s.activeID in s.mem then [Save(Halted(s.mem[s.activeID], now))] else []
  }

  function ActivateError(s: Store, id: string, swapped: bool): Option<Error> {
    if id !in s.mem then Some(NotFound)
    else if s.mem[id].phase == Active then Some(AlreadyActive)
    else if !swapped then Some(SwapFailed)
    else None
  }

  function ActivateWrites(s: Store, id: string, halt: int, start: int, swapped: bool): seq<Write> {
    if id !in s.mem || s.mem[id].phase == Active then []
    else HaltWrites(s, halt) + if swapped then [Save(Started(AfterHalt(s, halt)[id], start))] else []
  }

  function AfterActivate(s: Store, id: string, halt: int, start: int, swapped: bool): Store {
    var disk := AppliedAll(s.disk, ActivateWrites(s, id, halt, start, swapped));
    if id !in s.mem || s.mem[id].phase == Active then s
    else
      var mem := AfterHalt(s, halt);
      var rec := Started(mem[id], start);
      if swapped then Store(mem[id := rec], id, disk)
      else Store(mem[id := rec.(phase := Failed)], s.activeID, disk)
  }

  function DeactivateWrites(s: Store, now: int): seq<Write> {
    HaltWrites(s, now)
  }

  function AfterDeactivate(s: Store, now: int): Store {
    if s.activeID != "" && s.activeID in s.mem
    then Store(AfterHalt(s, now), "", AppliedAll(s.disk, DeactivateWrites(s, now)))
    else s
  }

  function NewRelease(id: string, now: int): Rec {
    Rec(id, now, Created, None, None)
  }

  function AfterCreate(s: Store, id: string, now: int): Store {
    s.(mem := s.mem[id := NewRelease(id, now)], disk := Applied(s.disk, Save(NewRelease(id, now))))
  }

  /** A release a rollback may choose: inactive, and nobody was deactivated later. */
  ghost predicate IsPrevious(s: Store, p: string) {
    && Retired(s, p)
    && forall q :: Retired(s, q) ==> s.mem[q].deactivatedAt.value <= s.mem[p].deactivatedAt.value
  }

  predicate Retired(s: Store, p: string) {
    p in s.mem && p != s.activeID && s.mem[p].deactivatedAt.Some?
  }

  predicate Archivable(s: Store, p: string) {
    p in s.mem && (s.mem[p].phase == Stopped || s.mem[p].phase == Failed)
  }

  ghost function Archivables(s: Store): set<string> {
    set p | p in s.mem && Archivable(s, p)
  }

  ghost function Named(ids: seq<string>): set<string> {
    set i | 0 <= i < |ids| :: ids[i]
  }

  /** `gone` lists the oldest archivable releases, all but `keep` of them, each once. */
  ghost predicate Oldest(s: Store, keep: nat, gone: seq<string>) {
    var all := Archivables(s);
    && Named(gone) <= all && |Named(gone)| == |gone|
    && |all - Named(gone)| == (if |all| < keep then |all| else keep)
    && OlderThan(s, Named(gone), all - Named(gone))
  }

  ghost predicate OlderThan(s: Store, olds: set<string>, young: set<string>) {
    forall p, q :: p in olds && q in young && p in s.mem && q in s.mem ==> s.mem[p].createdAt <= s.mem[q].createdAt
  }

  function Removals(gone: seq<string>): seq<Write> {
    if gone == [] then [] else Removals(gone[..|gone| - 1]) + [Remove(gone[|gone| - 1])]
  }

  ghost function AfterArchive(s: Store, gone: seq<string>): Store {
    s.(mem := s.mem - Named(gone), disk := AppliedAll(s.disk, Removals(gone)))
  }

  // ---------------------------------------------------------------------------------------------
  // The manager, updated in place
  // ---------------------------------------------------------------------------------------------

  class Entry {
    const id: string
    const createdAt: int
    var phase: Phase
    var activatedAt: Option<int>
    var deactivatedAt: Option<int>

    constructor (id: string, createdAt: int)
      ensures Value() == NewRelease(id, createdAt)
    {
      this.id, this.createdAt := id, createdAt;
      phase, activatedAt, deactivatedAt := Created, None, None;
    }

    constructor FromDisk(rec: Rec)
      ensures Value() == rec
    {
      id, createdAt := rec.id, rec.createdAt;
      phase, activatedAt, deactivatedAt := rec.phase, rec.activatedAt, rec.deactivatedAt;
    }

    function Value(): Rec
      reads this
    {
      Rec(id, createdAt, phase, activatedAt, deactivatedAt)
    }
  }

  class Manager {
    var activeID: string
    var releases: map<string, Entry>
    /** The archive directory, and everything it has held. */
    var disk: Table
    ghost var writes: seq<Write>

    ghost predicate Valid()
      reads this, releases.Values
    {
      && (forall k :: k in releases ==> releases[k].id == k)
      && (forall k, k' :: k in releases && k' in releases && k != k' ==> releases[k] != releases[k'])
    }

    ghost function Memory(): Table
      reads this, releases.Values
    {
      map k | k in releases :: releases[k].Value()
    }

    ghost function View(): Store
      reads this, releases.Values
    {
      Store(Memory(), activeID, disk)
    }

    constructor ()
      ensures Valid() && View() == Store(map[], "", map[]) && writes == []
    {
      activeID, releases, disk, writes := "", map[], map[], [];
    }

    /** loadReleases: read every record back; an active one names itself. */
    constructor FromDisk(disk: Table)
      requires WellKept(disk)
      ensures Valid() && Reloaded(disk, View())
    {
      activeID, releases, this.disk, writes := "", map[], disk, [];
      new;
      var todo := disk.Keys;
      while todo != {}
        invariant todo <= disk.Keys && this.disk == disk
        invariant Valid() && fresh(releases.Values)
        invariant Memory() == disk - todo
        invariant if activeID == "" then forall p :: p in disk && p !in todo ==> disk[p].phase != Active
                  else activeID in disk && disk[activeID].phase == Active
      {
        var k :| k in todo;
        assert disk - (todo - {k}) == (disk - todo)[k := disk[k]];
        Load(disk[k]);
        todo := todo - {k};
      }
      assert disk - {} == disk;
    }

    method Load(rec: Rec)
      requires Valid()
      modifies this`releases, this`activeID
      ensures Valid() && fresh(releases.Values - old(releases.Values))
      ensures Memory() == old(Memory())[rec.id := rec]
      ensures activeID == if rec.phase == Active then rec.id else old(activeID)
    {
      ghost var before := Memory();
      var rel := new Entry.FromDisk(rec);
      releases := releases[rec.id := rel];
      assert Memory() == before[rec.id := rec];
      if rel.phase == Active {
        activeID := rel.id;
      }
    }

    method SaveRelease(rel: Entry)
      modifies this`disk, this`writes
      ensures writes == old(writes) + [Save(rel.Value())]
      ensures disk == Applied(old(disk), Save(rel.Value()))
    {
      disk := disk[rel.id := rel.Value()];
      writes := writes + [Save(rel.Value())];
    }

    method Create(id: string, now: int)
      requires Valid() && id !in releases
      modifies this
      ensures Valid() && View() == AfterCreate(old(View()), id, now)
      ensures writes == old(writes) + [Save(NewRelease(id, now))]
    {
      ghost var before := Memory();
      var rel := new Entry(id, now);
      SaveRelease(rel);
      releases := releases[id := rel];
      assert Memory() == before[id := NewRelease(id, now)];
    }

    /** Stop the release named by activeID, if it is still known. */
    method HaltActive(now: int)
      requires Valid()
      modifies this`disk, this`writes, releases.Values
      ensures Valid() && Memory() == AfterHalt(old(View()), now)
      ensures writes == old(writes) + HaltWrites(old(View()), now)
      ensures disk == AppliedAll(old(disk), HaltWrites(old(View()), now))
    {
      ghost var before := Memory();
      if activeID != "" && activeID in releases {
        var rel := releases[activeID];
        rel.phase := Stopped;
        rel.deactivatedAt := Some(now);
        SaveRelease(rel);
        assert Memory() == before[activeID := Halted(before[activeID], now)];
        assert AppliedAll(old(disk), [Save(rel.Value())]) == Applied(AppliedAll(old(disk), []), Save(rel.Value()));
      } else {
        assert Memory() == before;
      }
    }

    /** The second half of Activate: mark the release, swap the link, and record the result. */
    method Switch(id: string, start: int, swapped: bool)
      requires Valid() && id in releases
      modifies this, releases.Values
      ensures Valid()
      ensures var rec := Started(old(Memory())[id], start);
              && Memory() == old(Memory())[id := if swapped then rec else rec.(phase := Failed)]
              && activeID == (if swapped then id else old(activeID))
              && disk == (if swapped then Applied(old(disk), Save(rec)) else old(disk))
              && writes == old(writes) + (if swapped then [Save(rec)] else [])
    {
      ghost var before := Memory();
      var rel := releases[id];
      rel.phase, rel.activatedAt, rel.deactivatedAt := Active, Some(start), None;
      if !swapped {
        rel.phase := Failed;
        assert Memory() == before[id := rel.Value()];
        return;
      }
      activeID := id;
      SaveRelease(rel);
      assert Memory() == before[id := rel.Value()];
    }

    method Activate(id: string, halt: int, start: int, swapped: bool) returns (error: Option<Error>)
      requires Valid()
      modifies this, releases.Values
      ensures Valid() && View() == AfterActivate(old(View()), id, halt, start, swapped)
      ensures writes == old(writes) + ActivateWrites(old(View()), id, halt, start, swapped)
      ensures error == ActivateError(old(View()), id, swapped)
    {
      hide AfterHalt, HaltWrites, Started, Applied;
      if id !in releases {
        return Some(NotFound);
      }
      var rel := releases[id];
      if rel.phase == Active {
        return Some(AlreadyActive);
      }
      ghost var s := View();
      HaltActive(halt);
      Switch(id, start, swapped);
      if !swapped {
        assert HaltWrites(s, halt) + [] == HaltWrites(s, halt);
        return Some(SwapFailed);
      }
      AppliedSnoc(s.disk, HaltWrites(s, halt), Save(Started(AfterHalt(s, halt)[id], start)));
      return None;
    }

    method Deactivate(now: int)
      requires Valid()
      modifies this, releases.Values
      ensures Valid() && View() == AfterDeactivate(old(View()), now)
      ensures writes == old(writes) + DeactivateWrites(old(View()), now)
    {
      if activeID == "" {
        return;
      }
      if activeID !in releases {
        return;
      }
      HaltActive(now);
      activeID := "";
    }

    method FindPrevious() returns (r: Result<string, Error>)
      requires Valid()
      ensures r == Err(NoActive) <==> activeID == ""
      ensures r.Ok? ==> IsPrevious(View(), r.value)
      ensures r == Err(NoPrevious) ==> forall p :: !Retired(View(), p)
      ensures r.Ok? || r.error in {NoActive, NoPrevious}
    {
      if activeID == "" {
        return Err(NoActive);
      }
      var prev: Option<string> := None;
      var todo := releases.Keys;
      while todo != {}
        invariant todo <= releases.Keys
        invariant prev.Some? ==> Retired(View(), prev.value)
        invariant forall q :: Retired(View(), q) && q !in todo ==>
                    prev.Some? && View().mem[q].deactivatedAt.value <= View().mem[prev.value].deactivatedAt.value
      {
        var k :| k in todo;
        todo := todo - {k};
        var rel := releases[k];
        if rel.id != activeID && rel.deactivatedAt.Some? {
          if prev.None? || rel.deactivatedAt.value > releases[prev.value].deactivatedAt.value {
            prev := Some(k);
          }
        }
      }
      if prev.None? {
        return Err(NoPrevious);
      }
      return Ok(prev.value);
    }

    method Rollback(halt: int, start: int, swapped: bool) returns (r: Result<string, Error>)
      requires Valid()
      modifies this, releases.Values
      ensures Valid()
      ensures r.Ok? ==> IsPrevious(old(View()), r.value)
      ensures r.Ok? ==> View() == AfterActivate(old(View()), r.value, halt, start, swapped)
      ensures r.Ok? ==> writes == old(writes) + ActivateWrites(old(View()), r.value, halt, start, swapped)
      ensures r == Err(NoActive) <==> old(activeID) == ""
      ensures r == Err(NoPrevious) ==> forall p :: !Retired(old(View()), p)
      ensures r in {Err(NoActive), Err(NoPrevious)} ==> View() == old(View()) && writes == old(writes)
      ensures r.Err? && r.error !in {NoActive, NoPrevious} ==>
                exists p :: IsPrevious(old(View()), p) && ActivateError(old(View()), p, swapped) == Some(r.error)
                         && View() == AfterActivate(old(View()), p, halt, start, swapped)
    {
      r := FindPrevious();
      assert View() == old(View());
      if r.Ok? {
        ghost var p := r.value;
        var error := Activate(r.value, halt, start, swapped);
        if error.Some? {
          assert IsPrevious(old(View()), p);
          r := Err(error.value);
        }
      }
    }

    /** The release of `ids` that was created first. */
    method First(ids: set<string>) returns (p: string)
      requires Valid() && ids != {} && ids <= releases.Keys
      ensures p in ids && forall q :: q in ids ==> releases[p].createdAt <= releases[q].createdAt
    {
      p :| p in ids;
      var todo := ids - {p};
      while todo != {}
        invariant todo <= ids && p in ids
        invariant forall q :: q in ids - todo ==> releases[p].createdAt <= releases[q].createdAt
      {
        var q :| q in todo;
        todo := todo - {q};
        if releases[q].createdAt < releases[p].createdAt {
          p := q;
        }
      }
    }

    method Candidates() returns (ids: set<string>)
      requires Valid()
      ensures ids == Archivables(View())
    {
      ids := {};
      var todo := releases.Keys;
      while todo != {}
        invariant todo <= releases.Keys
        invariant ids == Archivables(View()) - todo
      {
        var k :| k in todo;
        todo := todo - {k};
        if releases[k].phase == Stopped || releases[k].phase == Failed {
          ids := ids + {k};
        }
      }
    }

    method RemoveRelease(p: string)
      requires Valid()
      modifies this
      ensures Valid() && writes == old(writes) + [Remove(p)]
      ensures View() == Store(old(Memory()) - {p}, old(activeID), old(disk) - {p})
    {
      ghost var before := Memory();
      releases := releases - {p};
      disk := disk - {p};
      writes := writes + [Remove(p)];
      assert Memory() == before - {p};
    }

    /** Remove the oldest of `left`, when `gone` have been removed from `s` before. */
    method RemoveFirst(left: set<string>, ghost s: Store, ghost before: seq<Write>, ghost gone: seq<string>)
      returns (p: string)
      requires Valid() && View() == AfterArchive(s, gone) && writes == before + Removals(gone)
      requires left != {} && left <= s.mem.Keys - Named(gone)
      modifies this
      ensures Valid() && p in left && View() == AfterArchive(s, gone + [p])
      ensures writes == before + Removals(gone + [p])
      ensures forall q :: q in left ==> s.mem[p].createdAt <= s.mem[q].createdAt
    {
      hide Named, Removals;
      assert releases.Keys == View().mem.Keys == s.mem.Keys - Named(gone);
      p := First(left);
      forall q | q in left ensures s.mem[p].createdAt <= s.mem[q].createdAt {
        assert View().mem[q] == releases[q].Value() && View().mem[p] == releases[p].Value();
      }
      RemovalsSnoc(s.disk, gone, p);
      Associate(before, Removals(gone), [Remove(p)]);
      assert (s.mem - Named(gone)) - {p} == s.mem - (Named(gone) + {p});
      RemoveRelease(p);
    }

    /** The source sorts by creation time and walks the sorted list; here the next one is picked each time. */
    method Archive(keep: nat) returns (removed: nat, ghost gone: seq<string>)
      requires Valid()
      modifies this
      ensures Valid() && Oldest(old(View()), keep, gone) && removed == |gone|
      ensures View() == AfterArchive(old(View()), gone)
      ensures writes == old(writes) + Removals(gone)
    {
      hide Named, Removals, Partway, AfterArchive, Oldest;
      ghost var s := View();
      ghost var before := writes;
      var all := Candidates();
      var left := all;
      removed, gone := 0, [];
      NothingRemoved(s, keep);
      while |left| > keep
        invariant Valid() && removed == |gone|
        invariant Partway(s, keep, gone, left)
        invariant View() == AfterArchive(s, gone)
        invariant writes == before + Removals(gone)
        decreases |left|
      {
        PartwayKeys(s, keep, gone, left);
        var p := RemoveFirst(left, s, before, gone);
        PartwayNext(s, keep, gone, left, p);
        gone := gone + [p];
        removed := removed + 1;
        left := left - {p};
      }
      PartwayKeys(s, keep, gone, left);
    }
  }

  /** The oldest `gone` have been removed and `left` remain, no fewer than `keep` of them. */
  ghost predicate Partway(s: Store, keep: nat, gone: seq<string>, left: set<string>) {
    var all := Archivables(s);
    && Named(gone) <= all && |Named(gone)| == |gone| && left == all - Named(gone)
    && (|left| >= keep || left == all)
    && OlderThan(s, Named(gone), left)
  }

  lemma NothingRemoved(s: Store, keep: nat)
    ensures Partway(s, keep, [], Archivables(s))
    ensures Removals([]) == [] && AfterArchive(s, []) == s
  {
    assert s.mem - Named([]) == s.mem;
  }

  lemma PartwayKeys(s: Store, keep: nat, gone: seq<string>, left: set<string>)
    requires Partway(s, keep, gone, left)
    ensures left <= s.mem.Keys - Named(gone)
    ensures |left| <= keep ==> Oldest(s, keep, gone)
  {}

  lemma PartwayNext(s: Store, keep: nat, gone: seq<string>, left: set<string>, p: string)
    requires Partway(s, keep, gone, left) && |left| > keep && p in left
    requires forall q :: q in left ==> p in s.mem && q in s.mem && s.mem[p].createdAt <= s.mem[q].createdAt
    ensures Partway(s, keep, gone + [p], left - {p})
    ensures |left - {p}| == |left| - 1
  {
    RemovalsSnoc(s.disk, gone, p);
    hide Named, Archivables, Removals;
    assert p !in Named(gone);
    assert |left| == |left - {p}| + 1;
    assert Archivables(s) - (Named(gone) + {p}) == left - {p};
  }

  lemma RemovalsSnoc(disk: Table, gone: seq<string>, p: string)
    ensures Removals(gone + [p]) == Removals(gone) + [Remove(p)]
    ensures AppliedAll(disk, Removals(gone + [p])) == AppliedAll(disk, Removals(gone)) - {p}
    ensures Named(gone + [p]) == Named(gone) + {p}
  {
    assert (gone + [p])[..|gone|] == gone;
    AppliedSnoc(disk, Removals(gone), Remove(p));
  }

  lemma AppliedSnoc(disk: Table, ws: seq<Write>, w: Write)
    ensures AppliedAll(disk, ws + [w]) == Applied(AppliedAll(disk, ws), w)
  {
    assert (ws + [w])[..|ws|] == ws;
  }

  // ---------------------------------------------------------------------------------------------
  // Runs, with crashes
  // ---------------------------------------------------------------------------------------------

  datatype Op =
    | Create(id: string, now: int)
    | Activate(id: string, halt: int, start: int, swapped: bool)
    | Deactivate(now: int)
    | Rollback(previous: string, halt: int, start: int, swapped: bool)
    | Archive(keep: nat, gone: seq<string>)

  ghost predicate Enabled(s: Store, op: Op) {
    match op
    case Create(id, _) => id != "" && id !in s.mem && id !in s.disk
    case Activate(id, halt, start, _) => halt < start
    case Deactivate(_) => true
    case Rollback(previous, halt, start, _) => halt < start && s.activeID != "" && IsPrevious(s, previous)
    case Archive(keep, gone) => Oldest(s, keep, gone)
  }

  ghost function AfterOp(s: Store, op: Op): Store {
    match op
    case Create(id, now) => AfterCreate(s, id, now)
    case Activate(id, halt, start, swapped) => AfterActivate(s, id, halt, start, swapped)
    case Deactivate(now) => AfterDeactivate(s, now)
    case Rollback(previous, halt, start, swapped) => AfterActivate(s, previous, halt, start, swapped)
    case Archive(_, gone) => AfterArchive(s, gone)
  }

  function WritesOf(s: Store, op: Op): seq<Write> {
    match op
    case Create(id, now) => [Save(NewRelease(id, now))]
    case Activate(id, halt, start, swapped) => ActivateWrites(s, id, halt, start, swapped)
    case Deactivate(now) => DeactivateWrites(s, now)
    case Rollback(previous, halt, start, swapped) => ActivateWrites(s, previous, halt, start, swapped)
    case Archive(_, gone) => Removals(gone)
  }

  /** What a new manager makes of a directory. */
  ghost predicate Reloaded(disk: Table, s: Store) {
    && s.mem == disk && s.disk == disk
    && (if s.activeID == "" then forall p :: p in disk ==> disk[p].phase != Active
        else s.activeID in disk && disk[s.activeID].phase == Active)
  }

  /** An operation runs to its end, or the process dies after `n` of its writes and a new one reloads. */
  datatype Event = Whole(op: Op) | Crash(op: Op, n: nat)

  ghost predicate Leads(s: Store, e: Event, t: Store) {
    && Enabled(s, e.op)
    && match e
       case Whole(op) => t == AfterOp(s, op)
       case Crash(op, n) => n <= |WritesOf(s, op)| && Reloaded(AppliedAll(s.disk, WritesOf(s, op)[..n]), t)
  }

  ghost predicate Trace(states: seq<Store>, events: seq<Event>) {
    && |states| == |events| + 1
    && states[0] == Store(map[], "", map[])
    && forall i :: 0 <= i < |events| ==> Leads(states[i], events[i], states[i + 1])
  }

  ghost predicate WellKept(t: Table) {
    forall p :: p in t ==> p != "" && t[p].id == p && (t[p].deactivatedAt.Some? <==> t[p].phase == Stopped)
  }

  ghost predicate OneActive(t: Table) {
    forall p, q :: p in t && q in t && t[p].phase == Active && t[q].phase == Active ==> p == q
  }

  /** Only the release named by activeID is active, in memory and on disk. */
  ghost predicate Consistent(s: Store) {
    && WellKept(s.mem) && WellKept(s.disk)
    && (forall p :: p in s.mem && s.mem[p].phase == Active ==> p == s.activeID)
    && (forall p :: p in s.disk && s.disk[p].phase == Active ==> p in s.mem && s.mem[p].phase == Active)
  }

  /** The first write of Activate leaves no active release on disk. */
  lemma HaltClears(s: Store, now: int)
    requires Consistent(s)
    ensures var ws := HaltWrites(s, now); var d := AppliedAll(s.disk, ws);
            && WellKept(d) && WellKept(AfterHalt(s, now))
            && (forall p :: p in d ==> d[p].phase != Active)
            && (forall p :: p in AfterHalt(s, now) ==> AfterHalt(s, now)[p].phase != Active)
            && AfterHalt(s, now).Keys == s.mem.Keys
            && |ws| <= 1
  {
    var ws := HaltWrites(s, now);
    if ws != [] { assert AppliedAll(s.disk, ws) == Applied(AppliedAll(s.disk, []), ws[0]); }
  }

  /** No release is active in a table whose stamps are in order. */
  ghost predicate Quiet(t: Table) {
    WellKept(t) && forall p :: p in t ==> t[p].phase != Active
  }

  lemma QuietHasOne(t: Table)
    requires Quiet(t)
    ensures WellKept(t) && OneActive(t)
  {}

  lemma SaveOne(t: Table, id: string, start: int)
    requires Quiet(t) && id != ""
    ensures forall rec: Rec :: rec.id == id ==>
              var d := Applied(t, Save(Started(rec, start)));
              && WellKept(d) && OneActive(d)
              && forall p :: p in d && d[p].phase == Active ==> p == id
  {}

  /** The stores Activate ends in, once the old release is halted. */
  lemma SwitchConsistent(s: Store, id: string, start: int)
    requires Quiet(s.mem) && Quiet(s.disk) && id in s.mem
    ensures var rec := Started(s.mem[id], start);
            && Consistent(Store(s.mem[id := rec], id, Applied(s.disk, Save(rec))))
            && Consistent(s.(mem := s.mem[id := rec.(phase := Failed)]))
  {}

  lemma ActivateConsistent(s: Store, id: string, halt: int, start: int, swapped: bool)
    requires Consistent(s)
    ensures Consistent(AfterActivate(s, id, halt, start, swapped))
  {
    var first := HaltWrites(s, halt);
    HaltClears(s, halt);
    assert first + [] == first;
    if ActivateError(s, id, swapped) in {None, Some(SwapFailed)} {
      hide HaltWrites, AfterHalt, AppliedAll, Consistent;
      var t := s.(mem := AfterHalt(s, halt), disk := AppliedAll(s.disk, first));
      SwitchConsistent(t, id, start);
      AppliedSnoc(s.disk, first, Save(Started(t.mem[id], start)));
    }
  }

  lemma ActivatePrefix(s: Store, id: string, halt: int, start: int, swapped: bool, n: nat)
    requires Consistent(s) && n <= |ActivateWrites(s, id, halt, start, swapped)|
    ensures var d := AppliedAll(s.disk, ActivateWrites(s, id, halt, start, swapped)[..n]); WellKept(d) && OneActive(d)
  {
    var ws, first := ActivateWrites(s, id, halt, start, swapped), HaltWrites(s, halt);
    HaltClears(s, halt);
    if n == 0 {
      assert AppliedAll(s.disk, ws[..n]) == s.disk;
    } else {
      hide HaltWrites, AfterHalt, AppliedAll, Consistent;
      var d := AppliedAll(s.disk, first);
      if n <= |first| {
        assert n == |first| && first + [] == first && ws[..n] == first;
        QuietHasOne(d);
      } else {
        var rec := AfterHalt(s, halt)[id];
        assert ws[..n] == ws == first + [Save(Started(rec, start))];
        AppliedSnoc(s.disk, first, Save(Started(rec, start)));
        SaveOne(d, id, start);
      }
    }
  }

  lemma {:induction false} RemovalsKept(disk: Table, gone: seq<string>, n: nat)
    requires WellKept(disk) && OneActive(disk) && n <= |Removals(gone)|
    ensures var d := AppliedAll(disk, Removals(gone)[..n]);
            WellKept(d) && OneActive(d) && forall p :: p in d ==> p in disk && d[p] == disk[p]
    decreases |gone|
  {
    var ws := Removals(gone);
    if gone != [] {
      var rest, last := gone[..|gone| - 1], gone[|gone| - 1];
      if n == |ws| {
        RemovalsKept(disk, rest, |Removals(rest)|);
        assert Removals(rest)[..|Removals(rest)|] == Removals(rest);
        AppliedSnoc(disk, Removals(rest), Remove(last));
        assert ws[..n] == Removals(rest) + [Remove(last)];
      } else {
        RemovalsKept(disk, rest, n);
        assert ws[..n] == Removals(rest)[..n];
      }
    }
  }

  lemma {:induction false} RemovalsRemove(disk: Table, gone: seq<string>)
    ensures AppliedAll(disk, Removals(gone)) == disk - Named(gone)
  {
    if gone == [] {
      assert Named([]) == {};
    } else {
      var rest, last := gone[..|gone| - 1], gone[|gone| - 1];
      RemovalsRemove(disk, rest);
      RemovalsSnoc(disk, rest, last);
      assert gone == rest + [last];
    }
  }

  lemma ArchiveConsistent(s: Store, keep: nat, gone: seq<string>)
    requires Consistent(s) && Oldest(s, keep, gone)
    ensures Consistent(AfterArchive(s, gone))
  {
    RemovalsRemove(s.disk, gone);
    forall p | p in s.mem && s.mem[p].phase == Active ensures p !in Named(gone) {}
  }

  lemma CreateConsistent(s: Store, id: string, now: int, n: nat)
    requires Consistent(s) && id != "" && id !in s.mem && id !in s.disk && n <= 1
    ensures Consistent(AfterCreate(s, id, now))
    ensures var d := AppliedAll(s.disk, [Save(NewRelease(id, now))][..n]); WellKept(d) && OneActive(d)
  {
    var w := Save(NewRelease(id, now));
    AppliedSnoc(s.disk, [], w);
    assert [] + [w] == [w];
    assert [w][..n] == if n == 0 then [] else [w];
    assert OneActive(s.disk);
  }

  /** After any number of the writes of an operation the disk holds at most one active release. */
  lemma EveryPrefixHasOneActive(s: Store, op: Op, n: nat)
    requires Consistent(s) && Enabled(s, op) && n <= |WritesOf(s, op)|
    ensures Consistent(AfterOp(s, op))
    ensures var d := AppliedAll(s.disk, WritesOf(s, op)[..n]); WellKept(d) && OneActive(d)
  {
    assert OneActive(s.disk);
    match op
    case Create(id, now) => CreateConsistent(s, id, now, n);
    case Activate(id, halt, start, swapped) =>
      ActivateConsistent(s, id, halt, start, swapped);
      ActivatePrefix(s, id, halt, start, swapped, n);
    case Deactivate(now) =>
      HaltClears(s, now);
      var ws := DeactivateWrites(s, now);
      assert ws[..n] == if n == 0 then [] else ws;
    case Rollback(previous, halt, start, swapped) =>
      ActivateConsistent(s, previous, halt, start, swapped);
      ActivatePrefix(s, previous, halt, start, swapped, n);
    case Archive(keep, gone) =>
      ArchiveConsistent(s, keep, gone);
      RemovalsKept(s.disk, gone, n);
  }

  /** The directory decides which release a reload finds active. */
  lemma ReloadIsUnique(disk: Table, s: Store, t: Store)
    requires WellKept(disk) && OneActive(disk) && Reloaded(disk, s) && Reloaded(disk, t)
    ensures s == t && Consistent(s)
  {}

  /**
   In every run, with failed swaps and with crashes after any single write, only the release named by
   activeID is active, in memory and on disk.
   */
  lemma {:induction false} EveryRunConsistent(states: seq<Store>, events: seq<Event>, i: nat)
    requires Trace(states, events) && i < |states|
    ensures Consistent(states[i])
  {
    if i > 0 {
      EveryRunConsistent(states, events, i - 1);
      assert Leads(states[i - 1], events[i - 1], states[i]);
      var n := match events[i - 1] case Whole(_) => 0 case Crash(_, n) => n;
      EveryPrefixHasOneActive(states[i - 1], events[i - 1].op, n);
    }
  }

  // ---------------------------------------------------------------------------------------------
  // The most-recently-active list
  // ---------------------------------------------------------------------------------------------

  /**
   How the release named by activeID stands: none is named, it is active, it is known but not active
   (after a failed swap), or it is not known at all (it has been archived since).
   */
  datatype Front = Idle | Running | Stalled | Lost

  /** Releases by how recently they were active, the named one first while it is known. */
  datatype Recency = Recency(list: seq<string>, front: Front) {
    predicate Known() {
      front.Running? || front.Stalled?
    }

    /** The release named is the active one, or none is either. */
    predicate Sound() {
      front.Idle? || front.Running?
    }

    function Inactive(): seq<string> {
      if Known() && list != [] then list[1..] else list
    }
  }

  function Without(list: seq<string>, ids: set<string>): seq<string> {
    if list == [] then []
    else if list[0] in ids then Without(list[1..], ids)
    else [list[0]] + Without(list[1..], ids)
  }

  function ToFront(r: Recency, id: string): Recency {
    Recency([id] + Without(r.list, {id}), Running)
  }

  /** A swap to `id` that fails takes it out of the list, unless it is the one named, and stops the one named. */
  function Stumbled(r: Recency, id: string): Recency {
    Recency(if r.Known() && r.list != [] && r.list[0] == id then r.list else Without(r.list, {id}),
            if r.front.Running? then Stalled else r.front)
  }

  /** Sorted by deactivation, latest first, without repetition. */
  ghost predicate LatestFirst(t: Table, list: seq<string>) {
    && (forall p :: p in list ==> p in t && t[p].deactivatedAt.Some?)
    && forall i, j :: 0 <= i < j < |list| ==> t[list[i]].deactivatedAt.value > t[list[j]].deactivatedAt.value
  }

  ghost predicate Stands(s: Store, front: Front) {
    match front
    case Idle => s.activeID == ""
    case Running => s.activeID != "" && s.activeID in s.mem && s.mem[s.activeID].phase == Active
    case Stalled => s.activeID != "" && s.activeID in s.mem && s.mem[s.activeID].phase != Active
    case Lost => s.activeID != "" && s.activeID !in s.mem
  }

  /** The list is what the activeID and the deactivation stamps say. */
  ghost predicate Ranks(s: Store, r: Recency) {
    && Stands(s, r.front)
    && (r.Known() ==> r.list != [] && r.list[0] == s.activeID)
    && LatestFirst(s.mem, r.Inactive())
    && forall p :: p in r.Inactive() <==> Retired(s, p)
  }

  /** No stamp is later than the clock. */
  ghost predicate Stamped(t: Table, clock: int) {
    forall p :: p in t && t[p].deactivatedAt.Some? ==> t[p].deactivatedAt.value <= clock
  }

  lemma {:induction false} WithoutSpec(list: seq<string>, ids: set<string>, t: Table)
    requires LatestFirst(t, list)
    ensures LatestFirst(t, Without(list, ids))
    ensures forall p :: p in Without(list, ids) <==> p in list && p !in ids
  {
    if list != [] {
      assert LatestFirst(t, list[1..]);
      WithoutSpec(list[1..], ids, t);
      if list[0] !in ids {
        var more := Without(list[1..], ids);
        forall i, j | 0 <= i < j < |[list[0]] + more|
          ensures t[([list[0]] + more)[i]].deactivatedAt.value > t[([list[0]] + more)[j]].deactivatedAt.value
        {
          if i == 0 { assert more[j - 1] in list[1..]; }
        }
      }
    }
  }

  /** The stamps of the listed releases do not change, so neither does their order. */
  lemma SameStamps(t: Table, t': Table, list: seq<string>)
    requires LatestFirst(t, list)
    requires forall p :: p in list ==> p in t' && t'[p].deactivatedAt == t[p].deactivatedAt
    ensures LatestFirst(t', list)
  {}

  /** Stopping the release named keeps it in its place at the front. */
  lemma HaltRanks(s: Store, r: Recency, now: int)
    requires Consistent(s) && Ranks(s, r) && Stamped(s.mem, now - 1)
    ensures LatestFirst(AfterHalt(s, now), r.list)
    ensures forall p :: p in r.list <==> p in AfterHalt(s, now) && AfterHalt(s, now)[p].deactivatedAt.Some?
  {
    var t, rest := AfterHalt(s, now), r.Inactive();
    SameStamps(s.mem, t, rest);
    if r.Known() {
      assert r.list == [s.activeID] + rest;
      LatestAtFront(t, s.activeID, rest);
    }
    forall p ensures p in r.list <==> p in t && t[p].deactivatedAt.Some? {
      assert p in rest <==> Retired(s, p);
      assert p in r.list <==> p in rest || (r.Known() && p == s.activeID);
    }
  }

  lemma LatestAtFront(t: Table, id: string, rest: seq<string>)
    requires LatestFirst(t, rest) && id in t && t[id].deactivatedAt.Some?
    requires forall p :: p in rest ==> t[p].deactivatedAt.value < t[id].deactivatedAt.value
    ensures LatestFirst(t, [id] + rest)
  {
    var list := [id] + rest;
    forall i, j | 0 <= i < j < |list| ensures t[list[i]].deactivatedAt.value > t[list[j]].deactivatedAt.value {
      assert list[j] == rest[j - 1] && rest[j - 1] in rest;
      if i > 0 { assert list[i] == rest[i - 1]; }
    }
  }

  /** Activate moves its release to the front. */
  lemma ActivateRanks(s: Store, r: Recency, id: string, halt: int, start: int)
    requires Consistent(s) && Ranks(s, r) && Stamped(s.mem, halt - 1)
    requires ActivateError(s, id, true) == None
    ensures Ranks(AfterActivate(s, id, halt, start, true), ToFront(r, id))
  {
    HaltRanks(s, r, halt);
    var t, t' := AfterHalt(s, halt), AfterActivate(s, id, halt, start, true).mem;
    WithoutSpec(r.list, {id}, t);
    SameStamps(t, t', Without(r.list, {id}));
    assert ToFront(r, id).list[1..] == Without(r.list, {id});
  }

  /** A failed swap leaves the list as `Stumbled` says. */
  lemma StumbleRanks(s: Store, r: Recency, id: string, halt: int, start: int)
    requires Consistent(s) && Ranks(s, r) && ActivateError(s, id, false) == Some(SwapFailed)
    ensures Ranks(AfterActivate(s, id, halt, start, false), Stumbled(r, id))
  {
    var t, rest := AfterActivate(s, id, halt, start, false), r.Inactive();
    StumbleStands(s, r.front, id, halt, start);
    StumbleRetired(s, id, halt, start);
    hide AfterActivate, Stands, Consistent, Retired;
    if r.Known() && r.list[0] == id {
      SameStamps(s.mem, t.mem, rest);
    } else {
      WithoutSpec(rest, {id}, s.mem);
      SameStamps(s.mem, t.mem, Without(rest, {id}));
      if r.Known() { WithoutFront(r.list, {id}); }
    }
  }

  lemma StumbleStands(s: Store, front: Front, id: string, halt: int, start: int)
    requires Consistent(s) && Stands(s, front) && ActivateError(s, id, false) == Some(SwapFailed)
    ensures var t := AfterActivate(s, id, halt, start, false);
            t.activeID == s.activeID && Stands(t, if front.Running? then Stalled else front)
  {}

  lemma StumbleRetired(s: Store, id: string, halt: int, start: int)
    requires ActivateError(s, id, false) == Some(SwapFailed)
    ensures var t := AfterActivate(s, id, halt, start, false);
            forall p :: Retired(s, p) && p != id ==> p in t.mem && t.mem[p].deactivatedAt == s.mem[p].deactivatedAt
    ensures var t := AfterActivate(s, id, halt, start, false); forall p :: Retired(t, p) <==> Retired(s, p) && p != id
    ensures forall p :: Retired(s, p) ==> p != s.activeID
  {}

  lemma DeactivateRanks(s: Store, r: Recency, now: int)
    requires Consistent(s) && Ranks(s, r) && Stamped(s.mem, now - 1)
    ensures Ranks(AfterDeactivate(s, now), if r.Known() then r.(front := Idle) else r)
  {
    HaltRanks(s, r, now);
  }

  /** A rollback goes to the first of the inactive releases, and is possible exactly when there is one. */
  lemma PreviousIsFirst(s: Store, r: Recency, p: string)
    requires Ranks(s, r)
    ensures IsPrevious(s, p) <==> r.Inactive() != [] && p == r.Inactive()[0]
  {
    var rest := r.Inactive();
    if rest != [] {
      assert rest[0] in rest;
      forall q | Retired(s, q) ensures s.mem[q].deactivatedAt.value <= s.mem[rest[0]].deactivatedAt.value {
        assert q in rest;
      }
      if IsPrevious(s, p) {
        assert p in rest && Retired(s, rest[0]);
        var i :| 0 <= i < |rest| && rest[i] == p;
      }
    }
  }

  /** While the release named is known, that is the second entry of the list. */
  lemma PreviousIsSecond(s: Store, r: Recency, p: string)
    requires Ranks(s, r) && r.Known()
    ensures IsPrevious(s, p) <==> |r.list| >= 2 && p == r.list[1]
  {
    PreviousIsFirst(s, r, p);
  }

  /** A new release is not listed; only if it takes up the name of an archived one it comes to stand for it. */
  function Added(r: Recency, s: Store, id: string): Recency {
    if r.front.Lost? && id == s.activeID then Recency([id] + r.list, Stalled) else r
  }

  lemma CreateRanks(s: Store, r: Recency, id: string, now: int)
    requires Consistent(s) && Ranks(s, r) && id != "" && id !in s.mem
    ensures Ranks(AfterCreate(s, id, now), Added(r, s, id))
  {
    var s' := AfterCreate(s, id, now);
    SameStamps(s.mem, s'.mem, r.Inactive());
    assert ([id] + r.list)[1..] == r.list;
    forall p ensures Retired(s', p) <==> Retired(s, p) {
      if p != id { assert s'.mem.Keys == s.mem.Keys + {id}; }
    }
  }

  lemma ArchiveRetired(s: Store, keep: nat, gone: seq<string>)
    requires Consistent(s) && Oldest(s, keep, gone)
    ensures var t := AfterArchive(s, gone); forall p :: Retired(t, p) <==> Retired(s, p) && p !in Named(gone)
    ensures forall p :: p in s.mem && s.mem[p].phase == Active ==> p !in Named(gone)
  {
    hide Named;
    var t := AfterArchive(s, gone);
    forall p ensures Retired(t, p) <==> Retired(s, p) && p !in Named(gone) {
      assert p in t.mem <==> p in s.mem && p !in Named(gone);
    }
  }

  /** An archived release leaves the list; activeID goes on naming it. */
  ghost function Archived(r: Recency, gone: seq<string>): Recency {
    Recency(Without(r.list, Named(gone)),
            if r.Known() && r.list != [] && r.list[0] in Named(gone) then Lost else r.front)
  }

  lemma ArchiveRanks(s: Store, r: Recency, keep: nat, gone: seq<string>)
    requires Consistent(s) && Ranks(s, r) && Oldest(s, keep, gone)
    ensures Ranks(AfterArchive(s, gone), Archived(r, gone))
  {
    var t, rest, ids := AfterArchive(s, gone), r.Inactive(), Named(gone);
    ArchiveRetired(s, keep, gone);
    hide Named, Oldest, Consistent;
    GoneStands(s, t, r.front, ids);
    WithoutSpec(rest, ids, s.mem);
    assert LatestFirst(t.mem, Without(rest, ids)) by { SameStamps(s.mem, t.mem, Without(rest, ids)); }
    hide Stands, LatestFirst, Retired, AfterArchive, Without;
    ArchivedInactive(r, gone);
  }

  lemma ArchivedInactive(r: Recency, gone: seq<string>)
    requires r.Known() ==> r.list != []
    ensures Archived(r, gone).Inactive() == Without(r.Inactive(), Named(gone))
    ensures var q := Archived(r, gone); q.Known() ==> r.Known() && q.list != [] && q.list[0] == r.list[0]
  {
    hide Named;
    if r.Known() {
      if r.list[0] in Named(gone) { WithoutGone(r.list, Named(gone)); } else { WithoutFront(r.list, Named(gone)); }
    }
  }

  lemma GoneStands(s: Store, t: Store, front: Front, ids: set<string>)
    requires Stands(s, front) && t.activeID == s.activeID && t.mem == s.mem - ids
    requires forall p :: p in s.mem && s.mem[p].phase == Active ==> p !in ids
    ensures Stands(t, if (front.Running? || front.Stalled?) && s.activeID in ids then Lost else front)
  {}

  lemma WithoutGone(list: seq<string>, ids: set<string>)
    requires list != [] && list[0] in ids
    ensures Without(list, ids) == Without(list[1..], ids)
  {}

  lemma WithoutFront(list: seq<string>, ids: set<string>)
    requires list != [] && list[0] !in ids
    ensures Without(list, ids) != [] && Without(list, ids)[0] == list[0]
    ensures Without(list, ids)[1..] == Without(list[1..], ids)
  {}

  /** What an operation does to the list. */
  ghost function Reordered(r: Recency, s: Store, op: Op): Recency {
    match op
    case Create(id, _) => Added(r, s, id)
    case Activate(id, _, _, swapped) =>
      (match ActivateError(s, id, swapped)
       case None => ToFront(r, id)
       case Some(SwapFailed) => Stumbled(r, id)
       case Some(_) => r)
    case Deactivate(_) => if r.Known() then r.(front := Idle) else r
    case Rollback(_, _, _, swapped) =>
      if r.Inactive() == [] then r
      else if swapped then ToFront(r, r.Inactive()[0])
      else Stumbled(r, r.Inactive()[0])
    case Archive(_, gone) => Archived(r, gone)
  }

  /** The clock readings of an operation are later than `clock`. */
  predicate Later(op: Op, clock: int) {
    match op
    case Create(_, now) => clock < now
    case Activate(_, halt, start, _) => clock < halt < start
    case Deactivate(now) => clock < now
    case Rollback(_, halt, start, _) => clock < halt < start
    case Archive(_, _) => true
  }

  function ClockAfter(op: Op, clock: int): int {
    match op
    case Create(_, now) => now
    case Activate(_, _, start, _) => start
    case Deactivate(now) => now
    case Rollback(_, _, start, _) => start
    case Archive(_, _) => clock
  }

  lemma ActivateStamped(s: Store, id: string, halt: int, start: int, swapped: bool)
    requires Stamped(s.mem, halt) && halt < start
    ensures Stamped(AfterActivate(s, id, halt, start, swapped).mem, start)
  {}

  lemma OpStamped(s: Store, op: Op, clock: int)
    requires Stamped(s.mem, clock) && Later(op, clock)
    ensures Stamped(AfterOp(s, op).mem, ClockAfter(op, clock))
  {
    match op
    case Create(_, _) =>
    case Activate(id, halt, start, swapped) => ActivateStamped(s, id, halt, start, swapped);
    case Deactivate(_) =>
    case Rollback(previous, halt, start, swapped) => ActivateStamped(s, previous, halt, start, swapped);
    case Archive(_, _) =>
  }

  /** Every operation acts on the list as `Reordered` says, also when its swap fails. */
  lemma OpRanks(s: Store, r: Recency, op: Op, clock: int)
    requires Consistent(s) && Ranks(s, r) && Stamped(s.mem, clock)
    requires Enabled(s, op) && Later(op, clock)
    ensures Ranks(AfterOp(s, op), Reordered(r, s, op)) && Stamped(AfterOp(s, op).mem, ClockAfter(op, clock))
  {
    OpStamped(s, op, clock);
    hide Ranks, Consistent, AfterActivate, AfterDeactivate, AfterCreate, AfterArchive, Oldest, IsPrevious;
    hide Stumbled, ToFront, Added, Archived;
    match op
    case Create(id, now) => CreateRanks(s, r, id, now);
    case Activate(id, halt, start, swapped) =>
      if ActivateError(s, id, swapped) == None {
        ActivateRanks(s, r, id, halt, start);
      } else if ActivateError(s, id, swapped) == Some(SwapFailed) {
        StumbleRanks(s, r, id, halt, start);
      } else {
        ActivateRefused(s, id, halt, start, swapped);
      }
    case Deactivate(now) => DeactivateRanks(s, r, now);
    case Rollback(previous, halt, start, swapped) =>
      PreviousIsFirst(s, r, previous);
      PreviousIsStopped(s, previous);
      if swapped {
        ActivateRanks(s, r, previous, halt, start);
      } else {
        StumbleRanks(s, r, previous, halt, start);
      }
    case Archive(keep, gone) => ArchiveRanks(s, r, keep, gone);
  }

  lemma ActivateRefused(s: Store, id: string, halt: int, start: int, swapped: bool)
    requires ActivateError(s, id, swapped) in {Some(NotFound), Some(AlreadyActive)}
    ensures AfterActivate(s, id, halt, start, swapped) == s
  {}

  /** A rollback is never refused. */
  lemma PreviousIsStopped(s: Store, p: string)
    requires Consistent(s) && IsPrevious(s, p)
    ensures ActivateError(s, p, true) == None && ActivateError(s, p, false) == Some(SwapFailed)
  {
    assert Retired(s, p);
  }

  /** The list of a run without crashes. */
  ghost function RecencyAt(states: seq<Store>, ops: seq<Op>, i: nat): Recency
    requires |states| == |ops| + 1 && i <= |ops|
  {
    if i == 0 then Recency([], Idle) else Reordered(RecencyAt(states, ops, i - 1), states[i - 1], ops[i - 1])
  }

  function ClockAt(ops: seq<Op>, start: int, i: nat): int
    requires i <= |ops|
  {
    if i == 0 then start else ClockAfter(ops[i - 1], ClockAt(ops, start, i - 1))
  }

  /** A run without crashes whose clock only goes forward. */
  ghost predicate ClockedTrace(states: seq<Store>, ops: seq<Op>, clock: int) {
    && |states| == |ops| + 1
    && states[0] == Store(map[], "", map[])
    && forall i :: 0 <= i < |ops| ==>
         && Enabled(states[i], ops[i]) && Later(ops[i], ClockAt(ops, clock, i))
         && states[i + 1] == AfterOp(states[i], ops[i])
  }

  /** Along every run, with failed swaps, the manager refines the list. */
  lemma {:induction false} RunRefinesList(states: seq<Store>, ops: seq<Op>, clock: int, i: nat)
    requires ClockedTrace(states, ops, clock) && i < |states|
    ensures Consistent(states[i]) && Stamped(states[i].mem, ClockAt(ops, clock, i))
    ensures Ranks(states[i], RecencyAt(states, ops, i))
  {
    if i > 0 {
      RunRefinesList(states, ops, clock, i - 1);
      EveryPrefixHasOneActive(states[i - 1], ops[i - 1], 0);
      OpRanks(states[i - 1], RecencyAt(states, ops, i - 1), ops[i - 1], ClockAt(ops, clock, i - 1));
    }
  }

  /** The directory holds every release, never as failed, and as it is in memory unless it failed there. */
  ghost predicate Durable(s: Store) {
    && (forall p :: p in s.mem <==> p in s.disk)
    && (forall p :: p in s.disk ==> s.disk[p].phase != Failed)
    && (forall p :: p in s.mem && s.mem[p].phase != Failed ==> s.disk[p] == s.mem[p])
  }

  lemma HaltDurable(s: Store, now: int)
    requires Consistent(s) && Durable(s)
    ensures var t := s.(mem := AfterHalt(s, now), disk := AppliedAll(s.disk, HaltWrites(s, now)));
            Durable(t) && WellKept(t.mem) && t.mem.Keys == s.mem.Keys
  {
    var ws := HaltWrites(s, now);
    if ws != [] { assert AppliedAll(s.disk, ws) == Applied(AppliedAll(s.disk, []), ws[0]); }
  }

  lemma SwitchDurable(s: Store, id: string, start: int)
    requires Durable(s) && id in s.mem && s.mem[id].id == id
    ensures var rec := Started(s.mem[id], start);
            && Durable(Store(s.mem[id := rec], id, Applied(s.disk, Save(rec))))
            && Durable(s.(mem := s.mem[id := rec.(phase := Failed)]))
  {}

  lemma ActivateDurable(s: Store, id: string, halt: int, start: int, swapped: bool)
    requires Consistent(s) && Durable(s)
    ensures Durable(AfterActivate(s, id, halt, start, swapped))
  {
    var first := HaltWrites(s, halt);
    HaltDurable(s, halt);
    assert first + [] == first;
    if ActivateError(s, id, swapped) in {None, Some(SwapFailed)} {
      var t := s.(mem := AfterHalt(s, halt), disk := AppliedAll(s.disk, first));
      assert t.mem[id].id == id;
      hide HaltWrites, AfterHalt, AppliedAll, Consistent, WellKept, Durable;
      SwitchDurable(t, id, start);
      AppliedSnoc(s.disk, first, Save(Started(t.mem[id], start)));
    }
  }

  lemma OpDurable(s: Store, op: Op)
    requires Consistent(s) && Durable(s) && Enabled(s, op)
    ensures Durable(AfterOp(s, op))
  {
    match op
    case Create(_, _) =>
    case Activate(id, halt, start, swapped) => ActivateDurable(s, id, halt, start, swapped);
    case Deactivate(now) => HaltDurable(s, now);
    case Rollback(previous, halt, start, swapped) => ActivateDurable(s, previous, halt, start, swapped);
    case Archive(_, gone) => RemovalsRemove(s.disk, gone);
  }

  /** No write stores a failed release. */
  lemma {:induction false} WritesKeepOff(disk: Table, ws: seq<Write>)
    requires forall p :: p in disk ==> disk[p].phase != Failed
    requires forall i :: 0 <= i < |ws| && ws[i].Save? ==> ws[i].rec.phase != Failed
    ensures forall p :: p in AppliedAll(disk, ws) ==> AppliedAll(disk, ws)[p].phase != Failed
  {
    if ws != [] {
      WritesKeepOff(disk, ws[..|ws| - 1]);
    }
  }

  lemma {:induction false} RemovalsSaveNothing(gone: seq<string>)
    ensures forall i :: 0 <= i < |Removals(gone)| ==> Removals(gone)[i].Remove?
  {
    if gone != [] {
      RemovalsSaveNothing(gone[..|gone| - 1]);
    }
  }

  lemma WritesNeverFailed(s: Store, op: Op)
    ensures var ws := WritesOf(s, op); forall i :: 0 <= i < |ws| && ws[i].Save? ==> ws[i].rec.phase != Failed
  {
    if op.Archive? { RemovalsSaveNothing(op.gone); }
  }

  lemma EventDurable(s: Store, e: Event, t: Store)
    requires Consistent(s) && Durable(s) && Leads(s, e, t)
    ensures Durable(t)
  {
    if e.Whole? {
      OpDurable(s, e.op);
    } else {
      WritesNeverFailed(s, e.op);
      WritesKeepOff(s.disk, WritesOf(s, e.op)[..e.n]);
    }
  }

  /**
   In every run, with failed swaps and with crashes between writes, the directory agrees with the
   manager's memory exactly on the releases that are not failed; a failed one is never stored as such.
   */
  lemma {:induction false} EveryRunDurable(states: seq<Store>, events: seq<Event>, i: nat)
    requires Trace(states, events) && i < |states|
    ensures Durable(states[i])
    ensures var s := states[i]; forall p :: p in s.mem ==> (s.disk[p] == s.mem[p] <==> s.mem[p].phase != Failed)
  {
    hide Leads, Consistent;
    if i > 0 {
      EveryRunDurable(states, events, i - 1);
      EveryRunConsistent(states, events, i - 1);
      var s, e := states[i - 1], events[i - 1];
      assert Leads(s, e, states[i]);
      EventDurable(s, e, states[i]);
    }
  }

  /** The swap of an operation, if it makes one, succeeds. */
  predicate Swaps(op: Op) {
    op.Activate? || op.Rollback? ==> op.swapped
  }

  ghost predicate NoneFailed(t: Table) {
    forall p :: p in t ==> t[p].phase != Failed
  }

  lemma NoneFails(s: Store, op: Op)
    requires Swaps(op) && NoneFailed(s.mem)
    ensures NoneFailed(AfterOp(s, op).mem)
  {}

  lemma DurableIsEqual(s: Store)
    requires Durable(s) && NoneFailed(s.mem)
    ensures s.disk == s.mem
  {}

  /** Where every swap succeeds the directory always equals the manager's memory. */
  lemma {:induction false} RunIsDurable(states: seq<Store>, ops: seq<Op>, clock: int, i: nat)
    requires ClockedTrace(states, ops, clock) && i < |states|
    requires forall j :: 0 <= j < |ops| ==> Swaps(ops[j])
    ensures states[i].disk == states[i].mem && NoneFailed(states[i].mem)
    ensures Durable(states[i])
  {
    if i > 0 {
      RunIsDurable(states, ops, clock, i - 1);
      RunRefinesList(states, ops, clock, i - 1);
      var s, op := states[i - 1], ops[i - 1];
      assert Enabled(s, op) && states[i] == AfterOp(s, op);
      hide *;
      OpDurable(s, op);
      NoneFails(s, op);
      DurableIsEqual(states[i]);
    }
  }

  ghost predicate NoRepeats(list: seq<string>) {
    forall i, j :: 0 <= i < j < |list| ==> list[i] != list[j]
  }

  lemma RanksNoRepeats(s: Store, r: Recency)
    requires Ranks(s, r)
    ensures NoRepeats(r.list)
  {
    var rest := r.Inactive();
    LatestNoRepeats(s.mem, rest);
    if r.Known() {
      assert r.list == [r.list[0]] + rest;
      assert r.list[0] !in rest by { assert !Retired(s, r.list[0]); }
      forall i, j | 0 <= i < j < |r.list| ensures r.list[i] != r.list[j] {
        assert r.list[j] == rest[j - 1];
        if i > 0 { assert r.list[i] == rest[i - 1]; }
      }
    }
  }

  lemma LatestNoRepeats(t: Table, list: seq<string>)
    requires LatestFirst(t, list)
    ensures NoRepeats(list)
  {
    forall i, j | 0 <= i < j < |list| ensures list[i] != list[j] {
      assert list[i] in list && list[j] in list;
    }
  }

  lemma {:induction false} WithoutAbsent(list: seq<string>, p: string)
    requires p !in list
    ensures Without(list, {p}) == list
  {
    if list != [] {
      WithoutAbsent(list[1..], p);
      assert [list[0]] + list[1..] == list;
    }
  }

  lemma SwapFront(r: Recency)
    requires NoRepeats(r.list) && |r.list| >= 2
    ensures ToFront(r, r.list[1]) == Recency([r.list[1], r.list[0]] + r.list[2..], Running)
  {
    var a, b, rest := r.list[0], r.list[1], r.list[2..];
    forall i | 0 <= i < |rest| ensures rest[i] != b { assert rest[i] == r.list[i + 2]; }
    assert r.list == [a] + ([b] + rest);
    WithoutSecond(a, b, rest);
    assert [b] + ([a] + rest) == [b, a] + rest;
  }

  lemma WithoutSecond(a: string, b: string, rest: seq<string>)
    requires a != b && b !in rest
    ensures Without([a] + ([b] + rest), {b}) == [a] + rest
  {
    assert ([a] + ([b] + rest))[1..] == [b] + rest && ([b] + rest)[1..] == rest;
    WithoutAbsent(rest, b);
  }

  /** Rolling back twice restores the list, and with it the active release. */
  lemma TwoRollbacks(s: Store, r: Recency, first: Op, second: Op, clock: int)
    requires Consistent(s) && Ranks(s, r) && r.Known() && Stamped(s.mem, clock)
    requires first.Rollback? && Swaps(first) && Enabled(s, first) && Later(first, clock)
    requires second.Rollback? && Swaps(second) && Enabled(AfterOp(s, first), second)
    requires Later(second, ClockAfter(first, clock))
    ensures var s2 := AfterOp(AfterOp(s, first), second);
            Ranks(s2, r.(front := Running)) && s2.activeID == s.activeID
  {
    hide AfterOp, Consistent, Enabled, Stamped, Ranks, Swaps, Later;
    SwappedBack(s, r, first, clock);
    EveryPrefixHasOneActive(s, first, 0);
    OpRanks(s, r, first, clock);
    var s1, r1 := AfterOp(s, first), Recency([r.list[1], r.list[0]] + r.list[2..], Running);
    SwappedBack(s1, r1, second, ClockAfter(first, clock));
    assert r1.list[2..] == r.list[2..];
    assert [r.list[0], r.list[1]] + r.list[2..] == r.list;
  }

  /** A rollback exchanges the first two entries. */
  lemma SwappedBack(s: Store, r: Recency, op: Op, clock: int)
    requires Consistent(s) && Ranks(s, r) && r.Known() && Stamped(s.mem, clock)
    requires op.Rollback? && Swaps(op) && Enabled(s, op) && Later(op, clock)
    ensures |r.list| >= 2 && r.list[0] == s.activeID
    ensures Ranks(AfterOp(s, op), Recency([r.list[1], r.list[0]] + r.list[2..], Running))
    ensures AfterOp(s, op).activeID == r.list[1]
  {
    PreviousIsSecond(s, r, op.previous);
    OpRanks(s, r, op, clock);
    RanksNoRepeats(s, r);
    SwapFront(r);
  }

  /**
   A failed swap leaves no release active: the old release has been stopped and the new one has
   failed, yet activeID still names the old one.
   */
  lemma FailedSwapLosesActive(s: Store, id: string, halt: int, start: int)
    requires Consistent(s) && ActivateError(s, id, false) == Some(SwapFailed)
    ensures var t := AfterActivate(s, id, halt, start, false);
            && t.activeID == s.activeID
            && (forall p :: p in t.mem ==> t.mem[p].phase != Active)
            && (forall p :: p in t.disk ==> t.disk[p].phase != Active)
            && (s.activeID != "" ==> forall r :: Ranks(t, r) ==> !r.Sound())
  {
    HaltClears(s, halt);
    assert HaltWrites(s, halt) + [] == HaltWrites(s, halt);
  }

  /** After a failed swap the release named is the active one, or none is either, exactly when none was named. */
  lemma FailedSwapRanksExactly(s: Store, r: Recency, id: string, halt: int, start: int)
    requires Consistent(s) && Ranks(s, r) && ActivateError(s, id, false) == Some(SwapFailed)
    ensures Ranks(AfterActivate(s, id, halt, start, false), Stumbled(r, id))
    ensures (exists q :: Ranks(AfterActivate(s, id, halt, start, false), q) && q.Sound()) <==> s.activeID == ""
  {
    FailedSwapLosesActive(s, id, halt, start);
    StumbleRanks(s, r, id, halt, start);
  }

  /** What brings the two apart and together again: exactly a failed swap, and a swap that succeeds or a halt. */
  lemma SoundExactly(s: Store, r: Recency, op: Op)
    requires Consistent(s) && Ranks(s, r) && Enabled(s, op)
    ensures Reordered(r, s, op).Sound() <==>
              || SwapOf(s, op) == Some(true)
              || (op.Deactivate? && r.front != Lost)
              || (r.Sound() && (SwapOf(s, op) == Some(false) ==> s.activeID == ""))
  {
    match op
    case Create(_, _) =>
    case Activate(_, _, _, _) =>
    case Deactivate(_) =>
    case Rollback(previous, _, _, _) =>
      PreviousIsFirst(s, r, previous);
      PreviousIsStopped(s, previous);
    case Archive(keep, gone) => ArchiveRetired(s, keep, gone);
  }

  /** The outcome of the swap an operation comes to, if it comes to one. */
  function SwapOf(s: Store, op: Op): Option<bool> {
    match op
    case Activate(id, _, _, swapped) =>
      if ActivateError(s, id, swapped) in {None, Some(SwapFailed)} then Some(swapped) else None
    case Rollback(_, _, _, swapped) => Some(swapped)
    case _ => None
  }

  /** A later swap that succeeds brings the list back, without the release that failed unless it is the one. */
  lemma RecoversFromFailedSwap(s: Store, r: Recency, failed: Op, next: Op, clock: int)
    requires Consistent(s) && Ranks(s, r) && Stamped(s.mem, clock)
    requires failed.Activate? && ActivateError(s, failed.id, failed.swapped) == Some(SwapFailed) && Later(failed, clock)
    requires var t := AfterOp(s, failed);
             && next.Activate? && ActivateError(t, next.id, next.swapped) == None
             && Later(next, ClockAfter(failed, clock))
    ensures var list := Stumbled(r, failed.id).list;
            Ranks(AfterOp(AfterOp(s, failed), next), Recency([next.id] + Without(list, {next.id}), Running))
  {
    var t := AfterOp(s, failed);
    EveryPrefixHasOneActive(s, failed, 0);
    OpRanks(s, r, failed, clock);
    OpRanks(t, Stumbled(r, failed.id), next, ClockAfter(failed, clock));
  }

  /**
   After a swap that failed while a release was active, a rollback goes to the release that was
   active before that one, passing over the one just stopped.
   */
  lemma RollbackAfterFailedSwap(s: Store, r: Recency, id: string, halt: int, start: int, p: string)
    requires Consistent(s) && Ranks(s, r) && r.front == Running
    requires ActivateError(s, id, false) == Some(SwapFailed)
    ensures var older := Without(r.list[1..], {id});
            IsPrevious(AfterActivate(s, id, halt, start, false), p) <==> older != [] && p == older[0]
    ensures !IsPrevious(AfterActivate(s, id, halt, start, false), s.activeID)
  {
    StumbleRanks(s, r, id, halt, start);
    PreviousIsFirst(AfterActivate(s, id, halt, start, false), Stumbled(r, id), p);
    WithoutFront(r.list, {id});
  }

  /** A run with one release active and a second one waiting. */
  lemma ActiveReached() returns (states: seq<Store>, events: seq<Event>)
    ensures Trace(states, events) && |states| == 4 && states[3].activeID == "a"
    ensures states[3].mem == map["a" := Rec("a", 1, Active, Some(3), None), "b" := NewRelease("b", 4)]
  {
    var e0, e1, e2 := Whole(Create("a", 1)), Whole(Activate("a", 2, 3, true)), Whole(Create("b", 4));
    var s0 := Store(map[], "", map[]);
    var s1 := AfterOp(s0, e0.op);
    var s2 := AfterOp(s1, e1.op);
    var s3 := AfterOp(s2, e2.op);
    FirstReleases(s1, s2);
    hide AfterCreate, AfterActivate;
    states, events := [s0], [];
    OneMoreStep(states, events, e0, s1);
    OneMoreStep([s0] + [s1], [] + [e0], e1, s2);
    OneMoreStep([s0] + [s1] + [s2], [] + [e0] + [e1], e2, s3);
    states, events := [s0] + [s1] + [s2] + [s3], [] + [e0] + [e1] + [e2];
  }

  lemma FirstReleases(s1: Store, s2: Store)
    requires s1 == AfterCreate(Store(map[], "", map[]), "a", 1) && s2 == AfterActivate(s1, "a", 2, 3, true)
    ensures s1.mem == s1.disk == map["a" := NewRelease("a", 1)]
    ensures s2.mem == s2.disk == map["a" := Rec("a", 1, Active, Some(3), None)] && s2.activeID == "a"
    ensures var s3 := AfterCreate(s2, "b", 4);
            s3.mem == map["a" := Rec("a", 1, Active, Some(3), None), "b" := NewRelease("b", 4)] && s3.activeID == "a"
  {
    SaveFirst(s1);
  }

  /** With none active the one write of Activate is that of its release. */
  lemma SaveFirst(s: Store)
    requires s.activeID == "" && "a" in s.mem && s.mem["a"] == NewRelease("a", 1)
    ensures AfterActivate(s, "a", 2, 3, true).disk == s.disk["a" := Rec("a", 1, Active, Some(3), None)]
  {
    assert [] + [Save(Started(s.mem["a"], 3))] == [Save(Started(s.mem["a"], 3))];
    AppliedSnoc(s.disk, [], Save(Started(s.mem["a"], 3)));
  }

  /** Then activating the second fails. */
  lemma FailedSwapReached() returns (states: seq<Store>, events: seq<Event>)
    ensures Trace(states, events) && |states| == 5
    ensures Ranks(states[3], Recency(["a"], Running)) && states[4].activeID == "a"
    ensures states[4].mem ==
              map["a" := Rec("a", 1, Stopped, Some(3), Some(5)), "b" := Rec("b", 4, Failed, Some(6), None)]
    ensures Ranks(states[4], Recency(["a"], Stalled)) && forall q :: Ranks(states[4], q) ==> !q.Sound()
  {
    var before, first := ActiveReached();
    var s, e := before[3], Whole(Activate("b", 5, 6, false));
    var t := AfterActivate(s, "b", 5, 6, false);
    EveryRunConsistent(before, first, 3);
    FailedSwapLosesActive(s, "b", 5, 6);
    assert t.mem == map["a" := Rec("a", 1, Stopped, Some(3), Some(5)), "b" := Rec("b", 4, Failed, Some(6), None)];
    assert Ranks(s, Recency(["a"], Running)) && Ranks(t, Recency(["a"], Stalled));
    hide Trace, Ranks, Consistent, AfterActivate;
    states, events := before + [t], first + [e];
    OneMoreStep(before, first, e, t);
  }

  /** From there the release named may even be archived. */
  lemma LostReached() returns (states: seq<Store>, events: seq<Event>)
    ensures Trace(states, events) && |states| == 6
    ensures Ranks(states[5], Recency([], Lost)) && states[5].activeID == "a"
  {
    var before, first := FailedSwapReached();
    var s, gone := before[4], ["a"];
    EveryRunConsistent(before, first, 4);
    hide Consistent, Ranks, Trace;
    FirstIsOldest(s);
    ArchiveRanks(s, Recency(gone, Stalled), 1, gone);
    var t := AfterArchive(s, gone);
    assert Archived(Recency(gone, Stalled), gone) == Recency([], Lost);
    states, events := before + [t], first + [Whole(Archive(1, gone))];
    OneMoreStep(before, first, Whole(Archive(1, gone)), t);
  }

  lemma OneMoreStep(states: seq<Store>, events: seq<Event>, e: Event, t: Store)
    requires Trace(states, events) && Leads(states[|events|], e, t)
    ensures Trace(states + [t], events + [e])
  {
    hide Leads;
  }

  lemma FirstIsOldest(s: Store)
    requires s.mem.Keys == {"a", "b"} && Archivable(s, "a") && Archivable(s, "b")
    requires s.mem["a"].createdAt <= s.mem["b"].createdAt
    ensures Oldest(s, 1, ["a"]) && Named(["a"]) == {"a"}
  {
    assert ["a"][0] == "a";
    assert Named(["a"]) == {"a"};
    assert Archivables(s) == {"a", "b"} && {"a", "b"} - {"a"} == {"b"};
  }
}
