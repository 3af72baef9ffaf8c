/**
 Check-then-create under transaction-scoped advisory locks, for any number of processes and
 any interleaving (src/backend/crud.py, src/sre_agent/api/v1/alerts.py).

 A lookup sees the rows committed before it runs, as each statement does under READ COMMITTED.
 */
module IncidentDedup {
  import opened Results

  // What is deduplicated: one alert title in one cluster, or the installation for a claim.
  datatype Subject = Subject(cluster: string, title: string)

  datatype Incident = Incident(subject: Subject, active: bool)

  type Pid = nat

  // Where a process stands; `held` tells whether its transaction holds the subject's lock.
  // `Refolding` has committed and so lost its lock after a lookup that found nothing; it will
  // take the lock again and create without looking again.
  datatype Pc =
    | Idle
    | Begun(subject: Subject, held: bool)
    | Found(subject: Subject, held: bool)
    | Missed(subject: Subject, held: bool)
    | Creating(subject: Subject, held: bool)
    | Refolding(subject: Subject)

  // The lock key of a subject is any function, so distinct subjects may collide; on anything
  // but Postgres taking a lock does nothing.
  datatype Config = Config(key: Subject -> int, postgres: bool)

  datatype State = State(incidents: seq<Incident>, locks: map<int, Pid>, pcs: map<Pid, Pc>)

  // `Take` is the webhook's start, with the lock; `Enter` is the start of a creator that never
  // takes it.
  datatype Step =
    | Take(p: Pid, subject: Subject)
    | Enter(p: Pid, subject: Subject)
    | Look(p: Pid)
    | Create(p: Pid)
    | Commit(p: Pid)
    | Release(p: Pid)
    | Refold(p: Pid)
    | Retake(p: Pid)
    | Resolve(i: nat)
    | Reopen(i: nat)

  function PcOf(s: State, p: Pid): Pc { if p in s.pcs then s.pcs[p] else Idle }

  predicate ActiveFor(s: State, x: Subject) {
    exists i :: 0 <= i < |s.incidents| && s.incidents[i] == Incident(x, true)
  }

  predicate Free(c: Config, s: State, p: Pid, x: Subject) {
    c.postgres ==> c.key(x) !in s.locks || s.locks[c.key(x)] == p
  }

  function WithLock(c: Config, s: State, p: Pid, x: Subject): map<int, Pid> {
    if c.postgres then s.locks[c.key(x) := p] else s.locks
  }

  // Ending the transaction: every lock of the process goes.
  function Unlocked(s: State, p: Pid): map<int, Pid> { map k | k in s.locks && s.locks[k] != p :: s.locks[k] }

  function Goto(s: State, p: Pid, pc: Pc): State { s.(pcs := s.pcs[p := pc]) }

  // The state after a step, if the step is enabled.
  function Next(c: Config, s: State, step: Step): Option<State> {
    match step
    case Take(p, x) =>
      if PcOf(s, p) == Idle && Free(c, s, p, x) then
        Some(Goto(s, p, Begun(x, c.postgres)).(locks := WithLock(c, s, p, x)))
      else None
    case Enter(p, x) =>
      if PcOf(s, p) == Idle then Some(Goto(s, p, Begun(x, false))) else None
    case Look(p) =>
      var pc := PcOf(s, p);
      if pc.Begun? then
        Some(Goto(s, p, if ActiveFor(s, pc.subject) then Found(pc.subject, pc.held) else Missed(pc.subject, pc.held)))
      else None
    case Create(p) =>
      var pc := PcOf(s, p);
      if pc.Missed? then Some(Goto(s, p, Creating(pc.subject, pc.held))) else None
    case Commit(p) =>
      var pc := PcOf(s, p);
      if pc.Creating? then
        Some(State(s.incidents + [Incident(pc.subject, true)], Unlocked(s, p), s.pcs[p := Idle]))
      else None
    case Release(p) =>
      if PcOf(s, p) != Idle then Some(Goto(s, p, Idle).(locks := Unlocked(s, p))) else None
    case Refold(p) =>
      var pc := PcOf(s, p);
      if pc.Missed? then Some(Goto(s, p, Refolding(pc.subject)).(locks := Unlocked(s, p))) else None
    case Retake(p) =>
      var pc := PcOf(s, p);
      if pc.Refolding? && Free(c, s, p, pc.subject) then
        Some(Goto(s, p, Missed(pc.subject, c.postgres)).(locks := WithLock(c, s, p, pc.subject)))
      else None
    case Resolve(i) =>
      if i < |s.incidents| then Some(s.(incidents := s.incidents[i := s.incidents[i].(active := false)])) else None
    case Reopen(i) =>
      if i < |s.incidents| then Some(s.(incidents := s.incidents[i := s.incidents[i].(active := true)])) else None
  }

  // The state a schedule leads to; a step that is not enabled leaves no run.
  function Run(c: Config, s: State, steps: seq<Step>): Option<State> {
    if steps == [] then Some(s)
    else
      match Run(c, s, steps[..|steps| - 1])
      case None => None
      case Some(t) => Next(c, t, steps[|steps| - 1])
  }

  const Start := State([], map[], map[])

  // ----- Schedules

  // What an installation lets happen to a subject: creators that look and create without the lock,
  // re-takes of the lock where the skipped lookup would have found something, and reopening a
  // resolved incident next to an active one or to a process that is about to create one.
  datatype Practice = Practice(unlocked: bool, blindRetakes: bool, blindReopens: bool)

  const Disciplined := Practice(false, false, false)

  // A process past a lookup that found nothing will create unless it gives up.
  predicate Cleared(pc: Pc) { pc.Missed? || pc.Creating? }

  // No incident of the subject is active or about to be created.
  predicate Quiet(s: State, x: Subject) {
    !ActiveFor(s, x) && forall p :: p in s.pcs && Cleared(s.pcs[p]) ==> s.pcs[p].subject != x
  }

  predicate Allowed(s: State, x: Subject, step: Step, practice: Practice) {
    && (step.Enter? && step.subject == x ==> practice.unlocked)
    && (step.Retake? && PcOf(s, step.p) == Refolding(x) && ActiveFor(s, x) ==> practice.blindRetakes)
    && (step.Reopen? && step.i < |s.incidents| && s.incidents[step.i] == Incident(x, false) && !Quiet(s, x) ==>
          practice.blindReopens)
  }

  // Every step of the schedule is one that the practice allows for the subject.
  ghost predicate Admissible(c: Config, s: State, x: Subject, steps: seq<Step>, practice: Practice) {
    steps == []
    || var init, last := steps[..|steps| - 1], steps[|steps| - 1];
       && Admissible(c, s, x, init, practice)
       && (Run(c, s, init).Some? ==> Allowed(Run(c, s, init).value, x, last, practice))
  }

  // An admissible schedule that runs to the given state.
  ghost predicate Reaches(c: Config, s: State, x: Subject, practice: Practice, steps: seq<Step>, t: State) {
    Admissible(c, s, x, steps, practice) && Run(c, s, steps) == Some(t)
  }

  lemma {:induction false} ReachesMore(c: Config, s: State, x: Subject, practice: Practice, steps: seq<Step>, t: State,
                                       step: Step)
    requires Reaches(c, s, x, practice, steps, t) && Allowed(t, x, step, practice) && Next(c, t, step).Some?
    ensures Reaches(c, s, x, practice, steps + [step], Next(c, t, step).value)
  {
    assert (steps + [step])[..|steps|] == steps;
  }

  lemma {:induction false} ReachesBack(c: Config, s: State, x: Subject, practice: Practice, steps: seq<Step>, t: State)
    returns (before: State)
    requires Reaches(c, s, x, practice, steps, t) && steps != []
    ensures var n := |steps| - 1;
            Reaches(c, s, x, practice, steps[..n], before) && Allowed(before, x, steps[n], practice)
            && Next(c, before, steps[n]) == Some(t)
  {
    before := Run(c, s, steps[..|steps| - 1]).value;
  }

  // ----- Safety

  // At most one active incident for the subject.
  ghost predicate UniqueFor(s: State, x: Subject) {
    forall i, j :: 0 <= i < j < |s.incidents| && s.incidents[i] == Incident(x, true) ==>
      s.incidents[j] != Incident(x, true)
  }

  predicate Working(pc: Pc) { !pc.Idle? && !pc.Refolding? }

  // Every process at work on the subject holds its lock.
  ghost predicate LocksHeld(c: Config, s: State, x: Subject) {
    forall p :: p in s.pcs && Working(s.pcs[p]) && s.pcs[p].subject == x ==>
      c.key(x) in s.locks && s.locks[c.key(x)] == p
  }

  // A process past a lookup that found nothing still has nothing to find.
  ghost predicate StillMissing(s: State, x: Subject) {
    forall p :: p in s.pcs && Cleared(s.pcs[p]) && s.pcs[p].subject == x ==> !ActiveFor(s, x)
  }

  ghost predicate Inv(c: Config, s: State, x: Subject) {
    UniqueFor(s, x) && LocksHeld(c, s, x) && StillMissing(s, x)
  }

  lemma LocksHeldStep(c: Config, s: State, x: Subject, step: Step)
    requires c.postgres && LocksHeld(c, s, x) && Next(c, s, step).Some? && !(step.Enter? && step.subject == x)
    ensures LocksHeld(c, Next(c, s, step).value, x)
  {
    var t := Next(c, s, step).value;
    forall q | q in t.pcs && Working(t.pcs[q]) && t.pcs[q].subject == x
      ensures c.key(x) in t.locks && t.locks[c.key(x)] == q
    {
      if step.Resolve? || step.Reopen? || q != step.p { assert q in s.pcs && t.pcs[q] == s.pcs[q]; }
    }
  }

  // One allowed step of a disciplined installation keeps the invariant.
  lemma InvStep(c: Config, s: State, x: Subject, step: Step)
    requires c.postgres && Inv(c, s, x) && Next(c, s, step).Some? && Allowed(s, x, step, Disciplined)
    ensures Inv(c, Next(c, s, step).value, x)
  {
    var t := Next(c, s, step).value;
    LocksHeldStep(c, s, x, step);
    if step.Commit? {
      CommitKeeps(c, s, x, step.p);
    } else if step.Reopen? {
      ReopenKeeps(c, s, x, step.i);
    } else if step.Resolve? {
      assert ActiveFor(t, x) ==> ActiveFor(s, x) by {
        if ActiveFor(t, x) {
          var i :| 0 <= i < |t.incidents| && t.incidents[i] == Incident(x, true);
          assert s.incidents[i] == Incident(x, true);
        }
      }
    }
  }

  // The lock excludes a second process that could still create for the subject.
  lemma CommitKeeps(c: Config, s: State, x: Subject, p: Pid)
    requires Inv(c, s, x) && Next(c, s, Commit(p)).Some?
    ensures var t := Next(c, s, Commit(p)).value; UniqueFor(t, x) && StillMissing(t, x)
  {
    var t := Next(c, s, Commit(p)).value;
    if s.pcs[p].subject == x {
      forall q | q in t.pcs && Cleared(t.pcs[q]) ensures t.pcs[q].subject != x {
        assert q in s.pcs && q != p && Working(s.pcs[q]);
      }
      assert forall i :: 0 <= i < |s.incidents| ==> s.incidents[i] != Incident(x, true);
    } else {
      assert ActiveFor(t, x) <==> ActiveFor(s, x) by {
        assert forall i :: 0 <= i < |s.incidents| ==> t.incidents[i] == s.incidents[i];
      }
    }
  }

  // Reopening is safe where it is quiet, and for other subjects.
  lemma ReopenKeeps(c: Config, s: State, x: Subject, i: nat)
    requires Inv(c, s, x) && i < |s.incidents| && Allowed(s, x, Reopen(i), Disciplined)
    ensures var t := Next(c, s, Reopen(i)).value; UniqueFor(t, x) && StillMissing(t, x)
  {
    var t := Next(c, s, Reopen(i)).value;
    assert forall k :: 0 <= k < |s.incidents| && k != i ==> t.incidents[k] == s.incidents[k];
    if s.incidents[i] == Incident(x, false) {
      assert forall k :: 0 <= k < |s.incidents| ==> s.incidents[k] != Incident(x, true);
    } else {
      assert t.incidents[i] == Incident(x, true) ==> s.incidents[i] == Incident(x, true);
      assert ActiveFor(t, x) ==> ActiveFor(s, x) by {
        if ActiveFor(t, x) {
          var k :| 0 <= k < |t.incidents| && t.incidents[k] == Incident(x, true);
          assert s.incidents[k] == Incident(x, true);
        }
      }
    }
  }

  lemma {:induction false} InvRun(c: Config, s: State, x: Subject, steps: seq<Step>, t: State)
    requires c.postgres && Inv(c, s, x) && Reaches(c, s, x, Disciplined, steps, t)
    ensures Inv(c, t, x)
    decreases |steps|
  {
    if steps != [] {
      var before := ReachesBack(c, s, x, Disciplined, steps, t);
      InvRun(c, s, x, steps[..|steps| - 1], before);
      InvStep(c, before, x, steps[|steps| - 1]);
    }
  }

  // Deduplication: on Postgres, if every creator of the subject takes the lock and no re-take and no
  // reopening is blind, no interleaving of any number of processes ever has two active incidents for it, even
  // when lock keys collide and other subjects are created without a lock.
  lemma DedupSafe(c: Config, x: Subject, steps: seq<Step>, t: State)
    requires c.postgres && Reaches(c, Start, x, Disciplined, steps, t)
    ensures UniqueFor(t, x)
  {
    InvRun(c, Start, x, steps, t);
  }

  // ----- Where the guarantee ends

  // A process that looks and misses, having started with or without the lock, and one that
  // creates.
  function Miss(start: Step): seq<Step>
    requires start.Take? || start.Enter?
  {
    [start] + [Look(start.p)]
  }

  lemma {:induction false} RunMiss(c: Config, s: State, x: Subject, practice: Practice, steps: seq<Step>, t: State,
                                   start: Step)
    requires Reaches(c, s, x, practice, steps, t) && Allowed(t, x, start, practice)
    requires start.Take? || start.Enter?
    requires start.subject == x && Next(c, t, start).Some? && !ActiveFor(t, x)
    ensures var held := start.Take? && c.postgres;
            Reaches(c, s, x, practice, steps + Miss(start),
                    Goto(t, start.p, Missed(x, held)).(locks := if held then t.locks[c.key(x) := start.p] else t.locks))
  {
    var held := start.Take? && c.postgres;
    var begun := Next(c, t, start).value;
    ReachesMore(c, s, x, practice, steps, t, start);
    ReachesMore(c, s, x, practice, steps + [start], begun, Look(start.p));
    assert steps + [start] + [Look(start.p)] == steps + Miss(start);
    assert begun.pcs[start.p := Missed(x, held)] == t.pcs[start.p := Missed(x, held)];
  }

  function Open(p: Pid): seq<Step> { [Create(p)] + [Commit(p)] }

  lemma {:induction false} RunOpen(c: Config, s: State, x: Subject, practice: Practice, steps: seq<Step>, t: State,
                                   p: Pid)
    requires Reaches(c, s, x, practice, steps, t) && PcOf(t, p).Missed? && PcOf(t, p).subject == x
    ensures Reaches(c, s, x, practice, steps + Open(p),
                    State(t.incidents + [Incident(x, true)], Unlocked(t, p), t.pcs[p := Idle]))
  {
    var creating := Goto(t, p, Creating(x, PcOf(t, p).held));
    ReachesMore(c, s, x, practice, steps, t, Create(p));
    ReachesMore(c, s, x, practice, steps + [Create(p)], creating, Commit(p));
    assert steps + [Create(p)] + [Commit(p)] == steps + Open(p);
    assert creating.pcs[p := Idle] == t.pcs[p := Idle];
  }

  // Some schedule the practice allows ends with two active incidents for the subject.
  ghost predicate Violable(c: Config, s: State, x: Subject, practice: Practice) {
    exists steps, t :: Reaches(c, s, x, practice, steps, t) && !UniqueFor(t, x)
  }

  // Two processes that both look before either commits open two incidents, if neither start takes
  // a lock: on anything but Postgres, or on Postgres through a creator that never locks.
  lemma {:induction false} UnlockedViolates(c: Config, x: Subject, practice: Practice, first: Step, second: Step)
    requires (first == Take(0, x) && second == Take(1, x) && !c.postgres)
          || (first == Enter(0, x) && second == Enter(1, x) && practice.unlocked)
    ensures Violable(c, Start, x, practice)
  {
    var steps: seq<Step>, t := [], Start;
    assert Reaches(c, Start, x, practice, steps, t);
    RunMiss(c, Start, x, practice, steps, t, first);
    steps, t := steps + Miss(first), Goto(t, 0, Missed(x, false));
    assert Reaches(c, Start, x, practice, steps, t);
    RunMiss(c, Start, x, practice, steps, t, second);
    steps, t := steps + Miss(second), Goto(t, 1, Missed(x, false));
    assert Reaches(c, Start, x, practice, steps, t);
    OpenBoth(c, x, practice, steps, t);
  }

  lemma {:induction false} OpenBoth(c: Config, x: Subject, practice: Practice, steps: seq<Step>, t: State)
    requires Reaches(c, Start, x, practice, steps, t) && t.incidents == []
    requires PcOf(t, 0) == PcOf(t, 1) == Missed(x, false)
    ensures Violable(c, Start, x, practice)
  {
    RunOpen(c, Start, x, practice, steps, t, 0);
    var t' := State([] + [Incident(x, true)], Unlocked(t, 0), t.pcs[0 := Idle]);
    RunOpen(c, Start, x, practice, steps + Open(0), t', 1);
    var end := State(t'.incidents + [Incident(x, true)], Unlocked(t', 1), t'.pcs[1 := Idle]);
    assert end.incidents[0] == end.incidents[1] == Incident(x, true);
    assert Reaches(c, Start, x, practice, steps + Open(0) + Open(1), end);
  }

  // A re-take next to an active incident is exactly what a disciplined continuation can turn into
  // a second one: if there is none, no continuation can.
  lemma {:induction false} RetakeExact(c: Config, s: State, x: Subject, p: Pid)
    requires c.postgres && Inv(c, s, x) && PcOf(s, p) == Refolding(x) && Next(c, s, Retake(p)).Some?
    ensures ActiveFor(s, x) <==> Violable(c, Next(c, s, Retake(p)).value, x, Disciplined)
  {
    var t := Next(c, s, Retake(p)).value;
    assert Reaches(c, t, x, Disciplined, [], t);
    if ActiveFor(s, x) {
      RunOpen(c, t, x, Disciplined, [], t, p);
      var end := State(t.incidents + [Incident(x, true)], Unlocked(t, p), t.pcs[p := Idle]);
      var i :| 0 <= i < |s.incidents| && s.incidents[i] == Incident(x, true);
      assert end.incidents[i] == end.incidents[|s.incidents|] == Incident(x, true);
      assert Reaches(c, t, x, Disciplined, [] + Open(p), end);
    } else {
      InvStep(c, s, x, Retake(p));
      forall steps, end | Reaches(c, t, x, Disciplined, steps, end) ensures UniqueFor(end, x) {
        InvRun(c, t, x, steps, end);
      }
    }
  }

  lemma {:induction false} FoldingProcess(c: Config, x: Subject, practice: Practice)
    requires c.postgres
    ensures Reaches(c, Start, x, practice, Miss(Take(0, x)) + [Refold(0)], State([], map[], map[0 := Refolding(x)]))
  {
    var s := State([], map[c.key(x) := 0], map[0 := Missed(x, true)]);
    var t := State([], map[], map[0 := Refolding(x)]);
    assert Reaches(c, Start, x, practice, Miss(Take(0, x)), s) by {
      assert [] + Miss(Take(0, x)) == Miss(Take(0, x));
      assert Reaches(c, Start, x, practice, [], Start);
      RunMiss(c, Start, x, practice, [], Start, Take(0, x));
    }
    assert Next(c, s, Refold(0)) == Some(t) by {
      assert Unlocked(s, 0) == map[] && s.pcs[0 := Refolding(x)] == map[0 := Refolding(x)];
    }
    ReachesMore(c, Start, x, practice, Miss(Take(0, x)), s, Refold(0));
  }

  function Overlap(x: Subject): seq<Step> { Miss(Take(0, x)) + [Refold(0)] + Miss(Take(1, x)) + Open(1) }

  lemma {:induction false} OverlappingProcess(c: Config, x: Subject, practice: Practice)
    requires c.postgres
    ensures Reaches(c, Start, x, practice, Overlap(x),
                    State([Incident(x, true)], map[], map[0 := Refolding(x), 1 := Idle]))
  {
    var steps, s := Miss(Take(0, x)) + [Refold(0)], State([], map[], map[0 := Refolding(x)]);
    FoldingProcess(c, x, practice);
    RunMiss(c, Start, x, practice, steps, s, Take(1, x));
    var t := Goto(s, 1, Missed(x, true)).(locks := s.locks[c.key(x) := 1]);
    RunOpen(c, Start, x, practice, steps + Miss(Take(1, x)), t, 1);
    assert t.locks == map[c.key(x) := 1] && Unlocked(t, 1) == map[];
    assert t.pcs[1 := Idle] == map[0 := Refolding(x), 1 := Idle];
    assert t.incidents + [Incident(x, true)] == [Incident(x, true)];
  }

  // A process that re-takes the lock next to an active incident opens another.
  lemma {:induction false} BlindRetake(c: Config, x: Subject, practice: Practice, steps: seq<Step>, s: State, p: Pid)
    requires Reaches(c, Start, x, practice, steps, s) && practice.blindRetakes
    requires PcOf(s, p) == Refolding(x) && Free(c, s, p, x) && s.incidents == [Incident(x, true)]
    ensures Violable(c, Start, x, practice)
  {
    var t := Goto(s, p, Missed(x, c.postgres)).(locks := WithLock(c, s, p, x));
    ReachesMore(c, Start, x, practice, steps, s, Retake(p));
    RunOpen(c, Start, x, practice, steps + [Retake(p)], t, p);
    var end := State(t.incidents + [Incident(x, true)], Unlocked(t, p), t.pcs[p := Idle]);
    assert !UniqueFor(end, x) by {
      assert end.incidents[0] == end.incidents[1] == Incident(x, true);
    }
  }

  // With the lock, the webhook's failed-fold path violates uniqueness: process 0 misses, commits
  // to fold its alert, process 1 opens the incident, and process 0, whose fold notice failed,
  // re-takes the lock and opens another without looking again.
  lemma {:induction false} RetakeViolates(c: Config, x: Subject, practice: Practice)
    requires c.postgres && practice.blindRetakes
    ensures Violable(c, Start, x, practice)
  {
    OverlappingProcess(c, x, practice);
    BlindRetake(c, x, practice, Overlap(x), State([Incident(x, true)], map[], map[0 := Refolding(x), 1 := Idle]), 0);
  }

  // One incident opened and resolved, and a second one opened.
  function Again(x: Subject): seq<Step> {
    Miss(Take(0, x)) + Open(0) + [Resolve(0)] + Miss(Take(1, x)) + Open(1)
  }

  lemma {:induction false} OpenedOnce(c: Config, x: Subject, practice: Practice)
    requires c.postgres
    ensures Reaches(c, Start, x, practice, Miss(Take(0, x)) + Open(0),
                    State([Incident(x, true)], map[], map[0 := Idle]))
  {
    var s := State([], map[c.key(x) := 0], map[0 := Missed(x, true)]);
    assert Reaches(c, Start, x, practice, Miss(Take(0, x)), s) by {
      assert [] + Miss(Take(0, x)) == Miss(Take(0, x));
      assert Reaches(c, Start, x, practice, [], Start);
      RunMiss(c, Start, x, practice, [], Start, Take(0, x));
    }
    RunOpen(c, Start, x, practice, Miss(Take(0, x)), s, 0);
    assert Unlocked(s, 0) == map[] && s.pcs[0 := Idle] == map[0 := Idle];
    assert s.incidents + [Incident(x, true)] == [Incident(x, true)];
  }

  lemma {:induction false} ResolvedOnce(c: Config, x: Subject, practice: Practice)
    requires c.postgres
    ensures Reaches(c, Start, x, practice, Miss(Take(0, x)) + Open(0) + [Resolve(0)],
                    State([Incident(x, false)], map[], map[0 := Idle]))
  {
    var s := State([Incident(x, true)], map[], map[0 := Idle]);
    OpenedOnce(c, x, practice);
    assert s.incidents[0 := Incident(x, false)] == [Incident(x, false)];
    ReachesMore(c, Start, x, practice, Miss(Take(0, x)) + Open(0), s, Resolve(0));
  }

  lemma {:induction false} OpenedAfter(c: Config, x: Subject, practice: Practice, steps: seq<Step>, s: State)
    requires c.postgres && s == State([Incident(x, false)], map[], map[0 := Idle])
    requires Reaches(c, Start, x, practice, steps, s)
    ensures Reaches(c, Start, x, practice, steps + Miss(Take(1, x)) + Open(1),
                    State([Incident(x, false), Incident(x, true)], map[], map[0 := Idle, 1 := Idle]))
  {
    RunMiss(c, Start, x, practice, steps, s, Take(1, x));
    var t := Goto(s, 1, Missed(x, true)).(locks := s.locks[c.key(x) := 1]);
    RunOpen(c, Start, x, practice, steps + Miss(Take(1, x)), t, 1);
    assert Unlocked(t, 1) == map[] && t.pcs[1 := Idle] == map[0 := Idle, 1 := Idle];
    assert t.incidents + [Incident(x, true)] == [Incident(x, false), Incident(x, true)];
  }

  // With the lock, reopening a resolved incident after its successor was opened gives two.
  lemma {:induction false} ReopenViolates(c: Config, x: Subject, practice: Practice)
    requires c.postgres && practice.blindReopens
    ensures Violable(c, Start, x, practice)
  {
    var s := State([Incident(x, false), Incident(x, true)], map[], map[0 := Idle, 1 := Idle]);
    ResolvedOnce(c, x, practice);
    OpenedAfter(c, x, practice, Miss(Take(0, x)) + Open(0) + [Resolve(0)],
                State([Incident(x, false)], map[], map[0 := Idle]));
    ReachesMore(c, Start, x, practice, Again(x), s, Reopen(0));
    var end := Next(c, s, Reopen(0)).value;
    assert !UniqueFor(end, x) by {
      assert end.incidents[0] == end.incidents[1] == Incident(x, true);
    }
  }

  // Deduplication of a subject holds in all schedules if and only if the installation runs on
  // Postgres, every creator of the subject takes the lock, and no re-take and no reopening is blind.
  lemma {:induction false} DedupExact(c: Config, x: Subject, practice: Practice)
    ensures Violable(c, Start, x, practice) <==> !(c.postgres && practice == Disciplined)
  {
    if !c.postgres {
      UnlockedViolates(c, x, practice, Take(0, x), Take(1, x));
    } else if practice.unlocked {
      UnlockedViolates(c, x, practice, Enter(0, x), Enter(1, x));
    } else if practice.blindRetakes {
      RetakeViolates(c, x, practice);
    } else if practice.blindReopens {
      ReopenViolates(c, x, practice);
    } else {
      forall steps, t | Reaches(c, Start, x, practice, steps, t) ensures UniqueFor(t, x) {
        DedupSafe(c, x, steps, t);
      }
    }
  }

  // ----- First-run claims

  // A claim is the same protocol on one subject, whose rows are never resolved.
  ghost predicate ClaimSchedule(x: Subject, steps: seq<Step>) {
    forall i :: 0 <= i < |steps| ==>
      && !steps[i].Retake? && !steps[i].Resolve? && !steps[i].Reopen? && !steps[i].Enter?
      && (steps[i].Take? ==> steps[i].subject == x)
  }

  ghost predicate OnlyActive(s: State, x: Subject) {
    && (forall i :: 0 <= i < |s.incidents| ==> s.incidents[i] == Incident(x, true))
    && (forall p :: p in s.pcs && s.pcs[p] != Idle ==> s.pcs[p].subject == x)
  }

  lemma {:induction false} ClaimRows(c: Config, x: Subject, steps: seq<Step>)
    requires ClaimSchedule(x, steps) && Run(c, Start, steps).Some?
    ensures OnlyActive(Run(c, Start, steps).value, x)
    ensures Admissible(c, Start, x, steps, Disciplined)
  {
    if steps != [] {
      var n := |steps| - 1;
      assert ClaimSchedule(x, steps[..n]);
      ClaimRows(c, x, steps[..n]);
      assert !steps[n].Retake? && !steps[n].Resolve? && (steps[n].Take? ==> steps[n].subject == x);
      assert !steps[n].Enter? && !steps[n].Reopen?;
    }
  }

  // Whatever the schedule, at most one first-run claim creates a founding account.
  lemma ClaimOnce(c: Config, x: Subject, steps: seq<Step>)
    requires c.postgres && ClaimSchedule(x, steps) && Run(c, Start, steps).Some?
    ensures |Run(c, Start, steps).value.incidents| <= 1
  {
    ClaimRows(c, x, steps);
    var t := Run(c, Start, steps).value;
    assert |t.incidents| >= 2 ==> t.incidents[0] == Incident(x, true) && t.incidents[1] == Incident(x, true);
    DedupSafe(c, x, steps, t);
  }

  // ----- Whose locks they are

  // Every lock is held by a process at work on a subject of that key.
  ghost predicate LocksOwned(c: Config, s: State) {
    forall k :: k in s.locks ==>
      var p := s.locks[k];
      p in s.pcs && Working(s.pcs[p]) && s.pcs[p].held && c.key(s.pcs[p].subject) == k
  }

  lemma LocksOwnedStep(c: Config, s: State, step: Step)
    requires LocksOwned(c, s) && Next(c, s, step).Some?
    ensures LocksOwned(c, Next(c, s, step).value)
  {
    var t := Next(c, s, step).value;
    forall k | k in t.locks
      ensures var p := t.locks[k]; p in t.pcs && Working(t.pcs[p]) && t.pcs[p].held && c.key(t.pcs[p].subject) == k
    {
      if k in s.locks && s.locks[k] == t.locks[k] {
        assert s.locks[k] in s.pcs;
      }
    }
  }

  // In every run a process that is idle, or has committed in order to fold, holds no lock; so the lock
  // of a subject is free for any idle process unless another one is at work under the same key.
  lemma {:induction false} IdleHoldsNone(c: Config, steps: seq<Step>)
    requires Run(c, Start, steps).Some?
    ensures var s := Run(c, Start, steps).value;
            && LocksOwned(c, s)
            && (forall k :: k in s.locks ==> !PcOf(s, s.locks[k]).Idle? && !PcOf(s, s.locks[k]).Refolding?)
            && forall p, x ::
                 PcOf(s, p).Idle?
                 && (forall q :: q in s.pcs && Working(s.pcs[q]) ==> c.key(s.pcs[q].subject) != c.key(x))
                 ==> Next(c, s, Take(p, x)).Some?
  {
    if steps != [] {
      var init := steps[..|steps| - 1];
      IdleHoldsNone(c, init);
      LocksOwnedStep(c, Run(c, Start, init).value, steps[|steps| - 1]);
    }
  }
}
