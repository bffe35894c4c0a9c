/** Locks and scheduling as a transition system: kernel/process/lock.c, the unlock and arm macros of
    include/kernel/process/lock.h, and process.c.

    The process that runs is the last of the ring.  Between any two of its steps the timer may switch to another
    process, and an interrupt may release an intr lock.  Three fields are history, which no step looks at: who holds
    what it was granted, who has armed an intr lock and not yet come back from waiting for it, and which armed intr
    locks have been released. */
module Locks {
  import opened Scan
  import opened Grants

  /** Where a process is: outside process_lock, intr_lock and process_wait, or inside one of them. */
  datatype Pc =
    | Outside
    | Planned  // process_wait: the time to wake at is set
    | Stored   // process_lock: the lock field is set
    | Entered  // intr_lock: the lock field is set; the halting loop
    | Left     // intr_lock: behind the loop
    | Tested   // intr_lock: the byte was seen to be 1
    | Marked   // both: the state is LOCK
    | Trapped  // both: the timer interrupt has been raised

  datatype Sys = Sys(
    ring: seq<Proc>, bytes: Bytes, pc: map<nat, Pc>, newPid: nat, tick: nat,
    locks: set<nat>,        // the process locks
    ilocks: set<nat>,       // the intr locks
    inside: set<Grant>,     // history: granted, and not yet unlocked (or, for an intr lock, returned from)
    user: map<nat, nat>,    // history: who armed the intr lock
    released: set<nat>)     // history: the intr locks released since armed

  datatype Action =
    | Lock(a: nat) | Mark | Trap | Return | Unlock(a: nat)
    | Arm(a: nat) | Release(a: nat) | IntrLock(a: nat) | Leave | Test
    | Plan(n: nat) | Sleep | Exit | Create | Timer

  function Current(s: Sys): Proc
    requires s.ring != []
  {
    s.ring[|s.ring| - 1]
  }

  /** The running process at this point of its code. */
  ghost predicate At(s: Sys, pc: Pc) {
    && s.ring != [] && Current(s).state == RUN
    && Current(s).process in s.pc && s.pc[Current(s).process] == pc
  }

  /** Can this step be taken?  Only the holder unlocks; one process at a time uses an intr lock; a scan that nothing
      can end is no step. */
  ghost predicate Enabled(s: Sys, x: Action) {
    match x
    case Lock(a) => At(s, Outside) && a in s.locks
    case Mark => At(s, Stored) || At(s, Tested)
    case Trap => s.ring != [] && Current(s).process in s.pc && s.pc[Current(s).process] == Marked && CanSwitch(s)
    case Return => At(s, Trapped)
    case Unlock(a) => At(s, Outside) && a in s.locks && Grant(Current(s).process, a) in s.inside
    case Arm(a) => At(s, Outside) && a in s.ilocks && (a in s.user ==> s.user[a] == Current(s).process)
    case Release(a) => a in s.ilocks
    case IntrLock(a) => At(s, Outside) && a in s.ilocks && a in s.user && s.user[a] == Current(s).process
    case Leave => At(s, Entered) && Current(s).lock in s.bytes && !(|s.ring| == 1 && s.bytes[Current(s).lock] == 1)
    case Test => At(s, Left) && Current(s).lock in s.bytes
    case Plan(n) => At(s, Outside)
    case Sleep => At(s, Planned)
    case Exit => At(s, Outside)
    case Create => At(s, Outside)
    case Timer => CanSwitch(s)
  }

  ghost predicate CanSwitch(s: Sys) {
    Ready(s.ring, s.bytes, s.tick)
  }

  /** process_switch. */
  ghost function Switch(s: Sys): Sys
    requires CanSwitch(s)
  {
    RemainingRuns(s.ring, s.bytes, s.tick);
    s.(ring := Switched(s.ring, s.bytes, s.tick), bytes := SwitchedBytes(s.ring, s.bytes), tick := s.tick + 1,
       inside := s.inside + SwitchGrants(s.ring, s.bytes))
  }

  /** The running process moves on. */
  ghost function Move(s: Sys, pc: Pc): Sys
    requires s.ring != []
  {
    s.(pc := s.pc[Current(s).process := pc])
  }

  ghost function SetCurrent(s: Sys, e: Proc): Sys
    requires s.ring != []
  {
    s.(ring := s.ring[|s.ring| - 1 := e])
  }

  /** intr_lock comes back. */
  ghost function Done(s: Sys): Sys
    requires s.ring != []
  {
    var c := Current(s);
    Move(s, Outside).(user := s.user - {c.lock}, inside := s.inside - {Grant(c.process, c.lock)})
  }

  ghost function Do(s: Sys, x: Action): Sys
    requires Enabled(s, x)
  {
    match x
    case Lock(a) => SetCurrent(Move(s, Stored), Current(s).(lock := a))
    case Mark => SetCurrent(Move(s, Marked), Current(s).(state := LOCK))
    case Trap => Switch(Move(s, Trapped))
    case Return => if Current(s).lock in s.ilocks then Done(s) else Move(s, Outside)
    case Unlock(a) => s.(bytes := s.bytes[a := 0], inside := s.inside - {Grant(Current(s).process, a)})
    case Arm(a) => s.(bytes := s.bytes[a := 1], user := s.user[a := Current(s).process], released := s.released - {a})
    case Release(a) => s.(bytes := s.bytes[a := 0], released := s.released + {a})
    case IntrLock(a) => SetCurrent(Move(s, Entered), Current(s).(lock := a))
    case Leave => Move(s, Left)
    case Test => if s.bytes[Current(s).lock] == 1 then Move(s, Tested) else Done(s)
    case Plan(n) => SetCurrent(Move(s, Planned), Current(s).(wake := s.tick + n))
    case Sleep => SetCurrent(Move(s, Outside), Current(s).(state := WAIT))
    case Exit => SetCurrent(s, Current(s).(state := EXIT))
    case Create =>
      s.(ring := [Entry(s.newPid, RUN, 0, 0)] + s.ring, pc := s.pc[s.newPid := Outside], newPid := s.newPid + 1)
    case Timer => Switch(s)
  }

  /** One process of the ring: where it is, what it waits for, what it was granted. */
  ghost predicate ProcOk(s: Sys, e: Proc) {
    && e.process < s.newPid && e.process in s.pc
    && (forall a: nat {:trigger Grant(e.process, a)} :: a in s.ilocks && Grant(e.process, a) in s.inside ==>
          e.state == RUN && e.lock == a && (s.pc[e.process] == Marked || s.pc[e.process] == Trapped))
    && match s.pc[e.process]
       case Outside => e.state != LOCK
       case Planned => e.state == RUN
       case Stored => e.state == RUN && e.lock in s.locks
       case Entered => e.state == RUN && Uses(s, e)
       case Left => e.state == RUN && Uses(s, e)
       case Tested => e.state == RUN && Uses(s, e)
       case Marked => Waits(s, e)
       case Trapped => Waits(s, e)
  }

  ghost predicate Uses(s: Sys, e: Proc) {
    e.lock in s.ilocks && e.lock in s.user && s.user[e.lock] == e.process
  }

  /** It waits, or has been granted what it waited for. */
  ghost predicate Waits(s: Sys, e: Proc) {
    (e.lock in s.locks || Uses(s, e)) && (e.state == LOCK || (e.state == RUN && Grant(e.process, e.lock) in s.inside))
  }

  ghost predicate Sane(s: Sys) {
    && s.ring != [] && Once(s.ring) && s.locks !! s.ilocks
    && (forall a: nat {:trigger a in s.bytes} :: a in s.locks || a in s.ilocks ==> a in s.bytes)
    && (forall a: nat {:trigger s.bytes[a]} :: a in s.bytes ==> s.bytes[a] == 0 || s.bytes[a] == 1)
  }

  /** Mutual exclusion: the byte of a process lock is 1 iff exactly one process is between its grant and its unlock. */
  ghost predicate Exclusive(s: Sys)
    requires Sane(s)
  {
    && (forall g: Grant {:trigger g in s.inside} :: g in s.inside ==> g.p < s.newPid)
    && (forall a: nat {:trigger a in s.locks} :: a in s.locks ==>
          a in s.bytes && (s.bytes[a] == 1 <==> exists p: nat :: Grant(p, a) in s.inside))
    && (forall g: Grant, h: Grant {:trigger g in s.inside, h in s.inside} ::
          g in s.inside && h in s.inside && g.a == h.a && g.a in s.locks ==> g == h)
  }

  /** An armed intr lock: granted to its user, it has been released; not granted, its byte tells whether it has. */
  ghost predicate Signalled(s: Sys)
    requires Sane(s)
  {
    forall a: nat {:trigger a in s.user} :: a in s.user ==> a in s.bytes && a in s.ilocks && SignalOk(s, a)
  }

  ghost predicate SignalOk(s: Sys, a: nat)
    requires a in s.user && a in s.bytes
  {
    if Grant(s.user[a], a) in s.inside then a in s.released else (s.bytes[a] == 0 <==> a in s.released)
  }

  ghost predicate ProcsOk(s: Sys) {
    forall i: nat {:trigger s.ring[i]} :: i < |s.ring| ==> ProcOk(s, s.ring[i])
  }

  ghost predicate Inv(s: Sys) {
    Sane(s) && ProcsOk(s) && Exclusive(s) && Signalled(s)
  }

  lemma StepKeepsSane(s: Sys, x: Action)
    requires Inv(s) && Enabled(s, x) && x != Trap && x != Timer
    ensures Sane(Do(s, x))
  {
    if x == Create {
      OnceAppend([Entry(s.newPid, RUN, 0, 0)], s.ring);
    }
  }

  lemma StepKeepsProcs(s: Sys, x: Action)
    requires Inv(s) && Enabled(s, x) && x != Trap && x != Timer
    ensures ProcsOk(Do(s, x))
  {
    var t := Do(s, x);
    var n := |s.ring| - 1;
    forall i: nat | i < |t.ring|
      ensures ProcOk(t, t.ring[i])
    {
      hide ProcOk;
      if x == Create {
        AfterCreate(s, t, i);
      } else if i < n {
        assert t.ring[i] == s.ring[i] && s.ring[i].process != s.ring[n].process;
        OtherProc(s, x, s.ring[i]);
      } else {
        RunningProc(s, x);
      }
    }
  }

  lemma AfterCreate(s: Sys, t: Sys, i: nat)
    requires Inv(s) && Enabled(s, Create) && t == Do(s, Create) && i < |t.ring|
    ensures ProcOk(t, t.ring[i])
  {
    if i > 0 {
      assert t.ring[i] == s.ring[i - 1];
    }
  }

  /** A step of the running process, or a release, leaves another process right. */
  lemma OtherProc(s: Sys, x: Action, e: Proc)
    requires Sane(s) && Enabled(s, x) && x != Trap && x != Timer && x != Create
    requires ProcOk(s, e) && ProcOk(s, Current(s)) && (x.Release? || e.process != Current(s).process)
    ensures ProcOk(Do(s, x), e)
  {
  }

  lemma RunningProc(s: Sys, x: Action)
    requires Inv(s) && Enabled(s, x) && x != Trap && x != Timer && x != Create
    ensures ProcOk(Do(s, x), Current(Do(s, x)))
  {
    hide Switch, CanSwitch, Once;
    assert ProcOk(s, Current(s));
  }

  lemma StepKeepsExclusive(s: Sys, x: Action)
    requires Inv(s) && Enabled(s, x) && x != Trap && x != Timer && Sane(Do(s, x))
    ensures Exclusive(Do(s, x))
  {
  }

  lemma StepKeepsSignalled(s: Sys, x: Action)
    requires Inv(s) && Enabled(s, x) && x != Trap && x != Timer && Sane(Do(s, x))
    ensures Signalled(Do(s, x))
  {
  }

  /** What a grant of the scan means here: its process waited, and is not yet recorded as holding anything there. */
  lemma GrantedWaited(s: Sys, g: Grant)
    requires Inv(s) && Waited(s.ring, g)
    ensures g.p < s.newPid && (g.a in s.locks || (g.a in s.ilocks && g.a in s.user && s.user[g.a] == g.p))
    ensures g.a in s.ilocks ==> g !in s.inside
  {
    hide Once;
    var i: nat :| i < |s.ring| && s.ring[i].process == g.p && s.ring[i].lock == g.a && s.ring[i].state == LOCK;
    assert ProcOk(s, s.ring[i]);
    assert g == Grant(g.p, g.a);
  }

  lemma SwitchKeepsExclusive(s: Sys, t: Sys, grants: set<Grant>)
    requires Inv(s) && GrantsOk(s.ring, s.bytes, t.bytes, grants) && Sane(t)
    requires t.inside == s.inside + grants && t.locks == s.locks && t.newPid == s.newPid
    ensures Exclusive(t)
  {
    hide ProcsOk, Waited, Once, Signalled;
    forall g: Grant | g in grants
      ensures g.p < s.newPid
    {
      GrantedWaited(s, g);
    }
    forall a: nat | a in t.locks
      ensures t.bytes[a] == 1 <==> exists p: nat :: Grant(p, a) in t.inside
    {
      if p: nat :| Grant(p, a) in t.inside {
        assert Grant(p, a) in s.inside ==> s.bytes[a] == 1;
      }
    }
    forall g: Grant, h: Grant | g in t.inside && h in t.inside && g.a == h.a && g.a in t.locks
      ensures g == h
    {
      assert g == Grant(g.p, g.a) && h == Grant(h.p, g.a);
      assert g in s.inside || h in s.inside ==> s.bytes[g.a] == 1;
    }
  }

  lemma SwitchKeepsSignalled(s: Sys, t: Sys, grants: set<Grant>)
    requires Inv(s) && GrantsOk(s.ring, s.bytes, t.bytes, grants) && Sane(t)
    requires t.inside == s.inside + grants && t.ilocks == s.ilocks && t.user == s.user && t.released == s.released
    ensures Signalled(t)
  {
    hide ProcsOk, Waited, Once, Exclusive;
    forall a: nat | a in t.user
      ensures a in t.bytes && a in t.ilocks && SignalOk(t, a)
    {
      assert SignalOk(s, a);
      if p: nat :| Grant(p, a) in grants {
        GrantedWaited(s, Grant(p, a));
      }
    }
  }

  lemma SwitchKeepsProcs(s: Sys, t: Sys, grants: set<Grant>)
    requires Inv(s) && GrantsOk(s.ring, s.bytes, t.bytes, grants) && AllFrom(t.ring, s.ring, grants, s.tick)
    requires t.inside == s.inside + grants && t.ilocks == s.ilocks && t.locks == s.locks
    requires t.user == s.user && t.pc == s.pc && t.newPid == s.newPid
    ensures ProcsOk(t)
  {
    hide ProcOk, GrantsOk, Once, Exclusive, Signalled;
    forall j: nat | j < |t.ring|
      ensures ProcOk(t, t.ring[j])
    {
      assert FromOne(t.ring[j], s.ring, grants, s.tick);
      var i: nat :| i < |s.ring| && From(t.ring[j], s.ring[i], grants, s.tick);
      OneAfterSwitch(s, t, grants, s.ring[i], t.ring[j], i);
    }
  }

  lemma OneAfterSwitch(s: Sys, t: Sys, grants: set<Grant>, e0: Proc, e: Proc, i: nat)
    requires Inv(s) && GrantsOk(s.ring, s.bytes, t.bytes, grants) && From(e, e0, grants, s.tick)
    requires i < |s.ring| && s.ring[i] == e0
    requires t.inside == s.inside + grants && t.ilocks == s.ilocks && t.locks == s.locks
    requires t.user == s.user && t.pc == s.pc && t.newPid == s.newPid
    ensures ProcOk(t, e)
  {
    assert ProcOk(s, e0);
    hide ProcsOk, Exclusive, Signalled, AllFrom;
    forall a: nat | Grant(e0.process, a) in grants
      ensures e0.state == LOCK && e0.lock == a
    {
      GrantIsHis(s.ring, i, grants, a);
    }
  }

  lemma GrantIsHis(q: seq<Proc>, i: nat, grants: set<Grant>, a: nat)
    requires Once(q) && i < |q| && Waited(q, Grant(q[i].process, a))
    ensures q[i].state == LOCK && q[i].lock == a
  {
  }

  lemma SwitchKeeps(s: Sys)
    requires Inv(s) && CanSwitch(s)
    ensures Inv(Switch(s))
  {
    hide ProcsOk, GrantsOk, AllFrom, Exclusive, Signalled, Switched, SwitchedBytes, SwitchGrants, Remaining, Ready;
    var t := Switch(s);
    RemainingRuns(s.ring, s.bytes, s.tick);
    SwitchOk(s.ring, s.bytes, s.tick);
    SwitchKeepsSane(s);
    SwitchKeepsProcs(s, t, SwitchGrants(s.ring, s.bytes));
    SwitchKeepsExclusive(s, t, SwitchGrants(s.ring, s.bytes));
    SwitchKeepsSignalled(s, t, SwitchGrants(s.ring, s.bytes));
  }

  lemma SwitchKeepsSane(s: Sys)
    requires Inv(s) && CanSwitch(s)
    ensures Sane(Switch(s))
  {
    hide ProcsOk, AllFrom, Exclusive, Signalled, Remaining, Ready, FirstRun, Pass, PassBytes;
    RemainingRuns(s.ring, s.bytes, s.tick);
    SwitchOk(s.ring, s.bytes, s.tick);
    SwitchedKeeps(s.ring, s.bytes, s.tick, 0);
  }

  /** Every step keeps the invariant. */
  lemma StepKeeps(s: Sys, x: Action)
    requires Inv(s) && Enabled(s, x)
    ensures Inv(Do(s, x))
  {
    hide Sane, ProcsOk, Exclusive, Signalled;
    if x == Timer {
      SwitchKeeps(s);
    } else if x == Trap {
      MoveToTrapped(s);
      SwitchKeeps(Move(s, Trapped));
    } else {
      StepKeepsSane(s, x);
      StepKeepsProcs(s, x);
      StepKeepsExclusive(s, x);
      StepKeepsSignalled(s, x);
    }
  }

  lemma MoveToTrapped(s: Sys)
    requires Inv(s) && Current(s).process in s.pc && s.pc[Current(s).process] == Marked
    ensures Inv(Move(s, Trapped))
  {
    var t, n := Move(s, Trapped), |s.ring| - 1;
    forall i: nat | i < |t.ring|
      ensures ProcOk(t, t.ring[i])
    {
      assert ProcOk(s, s.ring[i]);
      assert i < n ==> s.ring[i].process != s.ring[n].process;
    }
  }

  /** process_init: one process runs, no process lock is held, no intr lock is in use. */
  ghost predicate Initial(s: Sys) {
    && Sane(s) && |s.ring| == 1 && s.ring[0].state == RUN
    && s.ring[0].process < s.newPid && s.pc == map[s.ring[0].process := Outside]
    && (forall a: nat {:trigger a in s.locks} :: a in s.locks ==> a in s.bytes && s.bytes[a] == 0)
    && s.inside == {} && s.user == map[]
  }

  /** Any steps, in any order: preemption and releases may come anywhere. */
  ghost predicate Run(states: seq<Sys>, steps: seq<Action>) {
    && |states| == |steps| + 1 && Initial(states[0])
    && (forall i: nat {:trigger steps[i]} :: i < |steps| ==> Follows(states[i], steps[i], states[i + 1]))
  }

  ghost predicate Follows(s: Sys, x: Action, t: Sys) {
    Enabled(s, x) && t == Do(s, x)
  }

  lemma {:induction false} Always(states: seq<Sys>, steps: seq<Action>, i: nat)
    requires Run(states, steps) && i < |states|
    ensures Inv(states[i])
  {
    hide Sane;
    if i > 0 {
      Always(states, steps, i - 1);
      assert Follows(states[i - 1], steps[i - 1], states[i]);
      StepKeeps(states[i - 1], steps[i - 1]);
    }
  }

  /** In every reachable state the byte of a process lock is 1 iff exactly one process is between its grant and its
      unlock. */
  lemma MutualExclusion(states: seq<Sys>, steps: seq<Action>, i: nat, a: nat)
    requires Run(states, steps) && i < |states| && a in states[i].locks
    ensures a in states[i].bytes
    ensures states[i].bytes[a] == 1 <==> exists p: nat :: Grant(p, a) in states[i].inside
    ensures forall p: nat, p': nat :: Grant(p, a) in states[i].inside && Grant(p', a) in states[i].inside ==> p == p'
  {
    Always(states, steps, i);
  }

  /** process_lock comes back only to the one holder of the lock. */
  lemma LockReturnsHolding(s: Sys)
    requires Inv(s) && Enabled(s, Return) && Current(s).lock in s.locks
    ensures Grant(Current(s).process, Current(s).lock) in s.inside
    ensures Current(s).lock in s.bytes && s.bytes[Current(s).lock] == 1
    ensures forall p: nat :: Grant(p, Current(s).lock) in s.inside ==> p == Current(s).process
  {
    assert ProcOk(s, Current(s));
  }

  /** intr_lock comes back only after a release since the lock was armed. */
  lemma IntrLockReturnsReleased(s: Sys, x: Action)
    requires Inv(s) && Enabled(s, x) && (x == Test || x == Return) && Current(s).lock in s.ilocks
    requires Do(s, x).pc[Current(s).process] == Outside
    ensures Current(s).lock in s.released
  {
    assert ProcOk(s, Current(s));
    assert Current(s).lock in s.user && SignalOk(s, Current(s).lock);
  }

  /** A release is never lost: a process inside intr_lock whose lock has been released finds the byte 0, or has been
      granted it, or is marked with the byte 0; then the next scan that passes it makes it run (at j). */
  lemma NoLostWakeUp(s: Sys, i: nat) returns (j: nat)
    requires Inv(s) && i < |s.ring| && s.pc[s.ring[i].process] !in {Outside, Planned}
    requires s.ring[i].lock in s.ilocks && s.ring[i].lock in s.released
    ensures s.ring[i].state == RUN || Grantable(s.ring[i], s.bytes)
    ensures s.pc[s.ring[i].process] in {Entered, Left, Tested} ==> s.bytes[s.ring[i].lock] == 0
    ensures s.ring[i].state == LOCK && i < FirstRun(s.ring) ==>
              CanSwitch(s) && j < |Switch(s).ring| && Switch(s).ring[j] == s.ring[i].(state := RUN)
  {
    hide Switched, Pass, Granted;
    var e := s.ring[i];
    assert ProcOk(s, e);
    assert e.lock in s.user && SignalOk(s, e.lock);
    j := 0;
    if e.state == LOCK && i < FirstRun(s.ring) {
      OneWaiter(s, i);
      j := WokenByScan(s.ring, s.bytes, s.tick, i);
    }
  }

  lemma OneWaiter(s: Sys, i: nat)
    requires Inv(s) && i < |s.ring| && s.ring[i].state == LOCK && s.ring[i].lock in s.ilocks
    ensures forall j: nat :: j < |s.ring| && j != i ==> !(s.ring[j].state == LOCK && s.ring[j].lock == s.ring[i].lock)
  {
    assert ProcOk(s, s.ring[i]);
    forall j: nat | j < |s.ring| && j != i
      ensures !(s.ring[j].state == LOCK && s.ring[j].lock == s.ring[i].lock)
    {
      assert ProcOk(s, s.ring[j]);
    }
  }

  lemma WokenByScan(q: seq<Proc>, bytes: Bytes, tick: nat, i: nat) returns (j: nat)
    requires i < FirstRun(q) && Grantable(q[i], bytes)
    requires forall j: nat :: j < |q| && j != i ==> !(q[j].state == LOCK && q[j].lock == q[i].lock)
    ensures Ready(q, bytes, tick) && HasRun(Remaining(q, bytes, tick))
    ensures j < |Switched(q, bytes, tick)| && Switched(q, bytes, tick)[j] == q[i].(state := RUN)
  {
    hide Pass, FirstRun, Rotated;
    RemainingRuns(q, bytes, tick);
    var before := q[..FirstRun(q)];
    assert forall j: nat :: j < |before| ==> before[j] == q[j];
    j := PassGrantsIt(before, bytes, tick, i);
    var r := Remaining(q, bytes, tick);
    assert r[|q| - FirstRun(q) + j] == q[i].(state := RUN);
    j := RotatedAt(r, FirstRun(r) + 1, |q| - FirstRun(q) + j);
  }

  lemma RotatedAt(r: seq<Proc>, m: nat, k: nat) returns (j: nat)
    requires m <= |r| && k < |r|
    ensures j < |Rotated(r, m)| && Rotated(r, m)[j] == r[k]
  {
    j := if k >= m then k - m else |r| - m + k;
  }

  lemma {:induction false} PassGrantsIt(q: seq<Proc>, bytes: Bytes, tick: nat, i: nat) returns (j: nat)
    requires i < |q| && Grantable(q[i], bytes)
    requires forall j: nat :: j < |q| && j != i ==> !(q[j].state == LOCK && q[j].lock == q[i].lock)
    ensures j < |Pass(q, bytes, tick)| && Pass(q, bytes, tick)[j] == q[i].(state := RUN)
  {
    if i == 0 {
      j := 0;
    } else {
      assert forall k: nat :: k < |q[1..]| ==> q[1..][k] == q[k + 1];
      var j' := PassGrantsIt(q[1..], BytesPast(q[0], bytes), tick, i - 1);
      j := if q[0].state == EXIT then j' else j' + 1;
    }
  }

  ghost predicate IsSwitch(x: Action) {
    x == Timer || x == Trap
  }

  ghost function Switches(steps: seq<Action>): nat {
    if steps == [] then 0 else (if IsSwitch(steps[0]) then 1 else 0) + Switches(steps[1..])
  }

  /** A run without creations. */
  ghost predicate Steps(states: seq<Sys>, steps: seq<Action>) {
    && |states| == |steps| + 1
    && forall m: nat {:trigger steps[m]} :: m < |steps| ==> Follows(states[m], steps[m], states[m + 1]) && steps[m] != Create
  }

  /** Round robin: with no creation in between, a process at distance j is passed by a scan, or dispatched, within j + 1
      switches, whatever the others do (it is at m on the ring when that happens). */
  lemma {:induction false} Examined(states: seq<Sys>, steps: seq<Action>, j: nat) returns (i: nat, m: nat)
    requires Steps(states, steps) && Once(states[0].ring) && j < |states[0].ring| && j < Switches(steps)
    ensures i < |states| && m < |states[i].ring| && states[i].ring[m].process == states[0].ring[j].process
    ensures m == |states[i].ring| - 1 || (i < |steps| && IsSwitch(steps[i]) && m < FirstRun(states[i].ring))
    decreases |steps|
  {
    hide Once, Do, Enabled, FirstRun;
    var s, t, x := states[0], states[1], steps[0];
    if j == |s.ring| - 1 || (IsSwitch(x) && j < FirstRun(s.ring)) {
      return 0, j;
    }
    assert Follows(s, x, t);
    OneCloser(s, x, j);
    if IsSwitch(x) && j == FirstRun(s.ring) {
      return 1, |t.ring| - 1;
    }
    assert forall m: nat :: m < |steps[1..]| ==> steps[1..][m] == steps[m + 1];
    var i', m' := Examined(states[1..], steps[1..], if IsSwitch(x) then j - FirstRun(s.ring) - 1 else j);
    return i' + 1, m';
  }

  /** So one that runs is dispatched within j + 1 switches. */
  lemma {:induction false} Dispatched(states: seq<Sys>, steps: seq<Action>, j: nat) returns (i: nat)
    requires Steps(states, steps) && Once(states[0].ring) && j < |states[0].ring| && states[0].ring[j].state == RUN
    requires j < Switches(steps)
    ensures i < |states| && states[i].ring != [] && Current(states[i]).process == states[0].ring[j].process
    decreases |steps|
  {
    hide Once, Do, Enabled, FirstRun;
    var s, t, x := states[0], states[1], steps[0];
    if j == |s.ring| - 1 {
      return 0;
    }
    assert Follows(s, x, t);
    FirstIsFirst(s.ring, j);
    OneCloser(s, x, j);
    if IsSwitch(x) && j == FirstRun(s.ring) {
      return 1;
    }
    assert forall m: nat :: m < |steps[1..]| ==> steps[1..][m] == steps[m + 1];
    var i' := Dispatched(states[1..], steps[1..], if IsSwitch(x) then j - FirstRun(s.ring) - 1 else j);
    return i' + 1;
  }

  lemma OneCloser(s: Sys, x: Action, j: nat)
    requires Enabled(s, x) && x != Create && Once(s.ring) && j < |s.ring| - 1
    requires IsSwitch(x) ==> FirstRun(s.ring) <= j
    ensures Once(Do(s, x).ring)
    ensures !IsSwitch(x) ==> j < |Do(s, x).ring| && Do(s, x).ring[j] == s.ring[j]
    ensures IsSwitch(x) && FirstRun(s.ring) == j ==> Do(s, x).ring != [] && Current(Do(s, x)).process == s.ring[j].process
    ensures IsSwitch(x) && FirstRun(s.ring) < j ==>
              j - FirstRun(s.ring) - 1 < |Do(s, x).ring| && Do(s, x).ring[j - FirstRun(s.ring) - 1] == s.ring[j]
  {
    hide FirstRun, Switch, Once, Ready;
    if x == Timer {
      SwitchCloser(s, j);
    } else if x == Trap {
      SwitchCloser(Move(s, Trapped), j);
    } else {
      StaysPut(s, x, j);
    }
  }

  lemma FirstIsFirst(q: seq<Proc>, j: nat)
    requires j < |q| && q[j].state == RUN
    ensures FirstRun(q) <= j
  {
  }

  lemma StaysPut(s: Sys, x: Action, j: nat)
    requires Enabled(s, x) && x != Create && !IsSwitch(x) && Once(s.ring) && j < |s.ring| - 1
    ensures Once(Do(s, x).ring) && j < |Do(s, x).ring| && Do(s, x).ring[j] == s.ring[j]
  {
    hide Switch, CanSwitch;
    var t := Do(s, x);
    assert |t.ring| == |s.ring| && forall i: nat :: i < |s.ring| ==> t.ring[i].process == s.ring[i].process;
  }

  lemma SwitchCloser(s: Sys, j: nat)
    requires CanSwitch(s) && Once(s.ring) && j < |s.ring| && FirstRun(s.ring) <= j
    ensures Once(Switch(s).ring)
    ensures FirstRun(s.ring) == j ==> Switch(s).ring != [] && Current(Switch(s)) == s.ring[j]
    ensures FirstRun(s.ring) < j ==>
              j - FirstRun(s.ring) - 1 < |Switch(s).ring| && Switch(s).ring[j - FirstRun(s.ring) - 1] == s.ring[j]
  {
    hide FirstRun, Switched, Pass, Remaining;
    RemainingRuns(s.ring, s.bytes, s.tick);
    SwitchedKeeps(s.ring, s.bytes, s.tick, 0);
    Closer(s.ring, s.bytes, s.tick, j);
  }
}
