/** What the steps of Locks achieve: an unlock frees the lock and hands it on, a free lock is had, a release is seen, a
    sleeper sleeps until its time and no longer. */
module Progress {
  import opened Scan
  import opened Fates
  import opened Grants
  import opened Locks

  /** After an unlock the byte is 0 and nobody holds the lock; nothing else has changed. */
  lemma UnlockFrees(s: Sys, a: nat, t: Sys)
    requires Inv(s) && Follows(s, Unlock(a), t)
    ensures a in t.bytes && t.bytes[a] == 0 && forall p: nat :: Grant(p, a) !in t.inside
    ensures t.bytes.Keys == s.bytes.Keys && forall b: nat :: b in s.bytes && b != a ==> t.bytes[b] == s.bytes[b]
    ensures forall g: Grant :: g.a != a ==> (g in t.inside <==> g in s.inside)
    ensures t.ring == s.ring && t.pc == s.pc && t.newPid == s.newPid && t.tick == s.tick
    ensures t.locks == s.locks && t.ilocks == s.ilocks && t.user == s.user && t.released == s.released
  {
  }

  /** After a release the byte is 0 and the release is on record; nothing else has changed. */
  lemma ReleaseFrees(s: Sys, a: nat, t: Sys)
    requires Inv(s) && Follows(s, Release(a), t)
    ensures a in t.bytes && t.bytes[a] == 0 && t.released == s.released + {a}
    ensures t.bytes.Keys == s.bytes.Keys && forall b: nat :: b in s.bytes && b != a ==> t.bytes[b] == s.bytes[b]
    ensures t.ring == s.ring && t.pc == s.pc && t.newPid == s.newPid && t.tick == s.tick
    ensures t.locks == s.locks && t.ilocks == s.ilocks && t.user == s.user && t.inside == s.inside
  {
  }

  /** A switch can be made exactly when some process runs, or has slept long enough, or waits for a byte that is 0; it
      takes one tick. */
  lemma SwitchExactly(s: Sys)
    ensures Enabled(s, Timer) <==> exists e: Proc ::
              e in s.ring && (e.state == RUN || (e.state == WAIT && s.tick >= e.wake)
                              || (e.state == LOCK && e.lock in s.bytes && s.bytes[e.lock] == 0))
    ensures Enabled(s, Timer) ==>
              var t := Do(s, Timer);
              && t.tick == s.tick + 1 && t.pc == s.pc && t.newPid == s.newPid && t.locks == s.locks && t.ilocks == s.ilocks
              && t.user == s.user && t.released == s.released
  {
  }

  /** Everybody on the ring has his fate. */
  lemma SwitchFates(s: Sys, i: nat)
    requires CanSwitch(s) && i < |s.ring|
    ensures !Gone(s.ring, i) ==> Fate(s.ring, s.bytes, s.tick, i) in Switch(s).ring
  {
    hide Fate, Switched, Gone, Remaining;
    RemainingRuns(s.ring, s.bytes, s.tick);
    SwitchedFates(s.ring, s.bytes, s.tick, Fate(s.ring, s.bytes, s.tick, i));
  }

  /** The first to wait for a, of those up to place i. */
  lemma {:induction false} FirstWaiter(q: seq<Proc>, a: nat, i: nat) returns (w: nat)
    requires i < |q| && q[i].state == LOCK && q[i].lock == a
    ensures w <= i && q[w].state == LOCK && q[w].lock == a
    ensures forall j: nat :: j < w ==> !(q[j].state == LOCK && q[j].lock == a)
  {
    if j: nat :| j < i && q[j].state == LOCK && q[j].lock == a {
      w := FirstWaiter(q, a, j);
    } else {
      w := i;
    }
  }

  /** A lock byte that is 0 goes to the first waiter the scan passes, at w: that one runs and holds the lock alone, the
      byte is 1, and whoever else waits for it goes on waiting. */
  lemma HandedOn(s: Sys, a: nat, i: nat) returns (w: nat)
    requires Inv(s) && a in s.bytes && s.bytes[a] == 0 && a in s.locks + s.ilocks
    requires Passes(s.ring, i) && s.ring[i].state == LOCK && s.ring[i].lock == a
    ensures CanSwitch(s) && w <= i && s.ring[w].state == LOCK && s.ring[w].lock == a
    ensures forall j: nat :: j < w ==> !(s.ring[j].state == LOCK && s.ring[j].lock == a)
    ensures Entry(s.ring[w].process, RUN, a, s.ring[w].wake) in Switch(s).ring
    ensures a in Switch(s).bytes && Switch(s).bytes[a] == 1
    ensures Grant(s.ring[w].process, a) in Switch(s).inside
    ensures a in s.locks ==> forall p: nat :: Grant(p, a) in Switch(s).inside ==> p == s.ring[w].process
    ensures forall j: nat :: w < j < |s.ring| && s.ring[j].state == LOCK && s.ring[j].lock == a ==> s.ring[j] in Switch(s).ring
  {
    w := FirstWaiter(s.ring, a, i);
    assert Ready(s.ring, s.bytes, s.tick);
    SwitchFates(s, w);
    WaiterRuns(s, a, w);
    forall j: nat | w < j < |s.ring| && s.ring[j].state == LOCK && s.ring[j].lock == a
      ensures s.ring[j] in Switch(s).ring
    {
      SwitchFates(s, j);
    }
    hide Ready, Switch, Fate;
    GrantedTo(s, a, w);
  }

  lemma WaiterRuns(s: Sys, a: nat, w: nat)
    requires a in s.bytes && s.bytes[a] == 0 && Passes(s.ring, w) && s.ring[w].state == LOCK && s.ring[w].lock == a
    requires forall j: nat :: j < w ==> !(s.ring[j].state == LOCK && s.ring[j].lock == a)
    ensures Fate(s.ring, s.bytes, s.tick, w) == Entry(s.ring[w].process, RUN, a, s.ring[w].wake) && !Gone(s.ring, w)
  {
  }

  lemma GrantedTo(s: Sys, a: nat, w: nat)
    requires Inv(s) && CanSwitch(s) && a in s.bytes && s.bytes[a] == 0
    requires Passes(s.ring, w) && s.ring[w].state == LOCK && s.ring[w].lock == a
    requires Entry(s.ring[w].process, RUN, a, s.ring[w].wake) in Switch(s).ring
    ensures a in Switch(s).bytes && Switch(s).bytes[a] == 1 && Grant(s.ring[w].process, a) in Switch(s).inside
    ensures a in s.locks ==> forall p: nat :: Grant(p, a) in Switch(s).inside ==> p == s.ring[w].process
  {
    var t, e := Switch(s), Entry(s.ring[w].process, RUN, a, s.ring[w].wake);
    hide Inv, Switched, SwitchedBytes, SwitchGrants, GrantsOk, Once;
    RemainingRuns(s.ring, s.bytes, s.tick);
    SwitchedBytesFates(s.ring, s.bytes, a);
    assert Wanted(s.ring, a);
    RunsByGrant(s, w, e);
    SwitchKeeps(s);
    HoldersAgree(t, a);
  }

  lemma HoldersAgree(t: Sys, a: nat)
    requires Inv(t)
    ensures a in t.locks ==> forall p: nat, p': nat :: Grant(p, a) in t.inside && Grant(p', a) in t.inside ==> p == p'
  {
  }

  /** Who waited and runs was granted what it waited for. */
  lemma RunsByGrant(s: Sys, w: nat, e: Proc)
    requires Inv(s) && CanSwitch(s) && w < |s.ring| && s.ring[w].state == LOCK
    requires e in Switch(s).ring && e.process == s.ring[w].process && e.state == RUN
    ensures Grant(e.process, s.ring[w].lock) in Switch(s).inside
  {
    hide ProcsOk, Exclusive, Signalled, Switched, SwitchedBytes, SwitchGrants, GrantsOk;
    RemainingRuns(s.ring, s.bytes, s.tick);
    SwitchOk(s.ring, s.bytes, s.tick);
    var j: nat :| j < |Switch(s).ring| && Switch(s).ring[j] == e;
    assert FromOne(e, s.ring, SwitchGrants(s.ring, s.bytes), s.tick);
    var i: nat :| i < |s.ring| && From(e, s.ring[i], SwitchGrants(s.ring, s.bytes), s.tick);
    assert s.ring[i].process == s.ring[w].process;
    assert i == w;
  }

  /** The running process stores the lock and its state, and the interrupt can be raised: some process will run. */
  lemma LockGoesOn(s: Sys, a: nat) returns (t1: Sys, t2: Sys, t3: Sys)
    requires Inv(s) && At(s, Outside) && a in s.locks && a in s.bytes && s.bytes[a] == 0
    ensures Follows(s, Lock(a), t1) && Follows(t1, Mark, t2) && Follows(t2, Trap, t3)
    ensures var e := Current(s);
            && t2.ring == s.ring[|s.ring| - 1 := Entry(e.process, LOCK, a, e.wake)] && t2.bytes == s.bytes
            && t2.inside == s.inside && t2.tick == s.tick && t2.locks == s.locks && t2.ilocks == s.ilocks
            && t3 == Switch(t2.(pc := t2.pc[e.process := Trapped]))
  {
    hide Switch, Inv;
    t1 := Do(s, Lock(a));
    t2 := Do(t1, Mark);
    assert Current(t2) == Entry(Current(s).process, LOCK, a, Current(s).wake);
    assert Grantable(Current(t2), t2.bytes) && CanSwitch(t2);
    assert Enabled(t2, Trap);
    t3 := Do(t2, Trap);
  }

  /** Entry e neither runs nor can come to. */
  ghost predicate Still(e: Proc, bytes: Bytes, tick: nat) {
    && e.state != RUN && (e.state == WAIT ==> tick < e.wake)
    && (e.state == LOCK ==> e.lock in bytes && bytes[e.lock] != 0)
  }

  /** With nobody else to run, process_lock of a lock whose byte is 0 comes back at once: the four steps can be taken, and
      the caller holds the lock, alone. */
  lemma LockIsHad(s: Sys, a: nat) returns (t1: Sys, t2: Sys, t3: Sys, t4: Sys)
    requires Inv(s) && At(s, Outside) && a in s.locks && a in s.bytes && s.bytes[a] == 0
    requires forall j: nat :: j < |s.ring| - 1 ==> Still(s.ring[j], s.bytes, s.tick)
    ensures Follows(s, Lock(a), t1) && Follows(t1, Mark, t2) && Follows(t2, Trap, t3) && Follows(t3, Return, t4)
    ensures At(t4, Outside) && Current(t4) == Entry(Current(s).process, RUN, a, Current(s).wake)
    ensures a in t4.bytes && t4.bytes[a] == 1
    ensures forall p: nat :: Grant(p, a) in t4.inside <==> p == Current(s).process
  {
    hide Switch, Inv, Fate, ProcsOk, Exclusive, Signalled;
    t1, t2, t3 := LockGoesOn(s, a);
    StepKeeps(s, Lock(a));
    StepKeeps(t1, Mark);
    var u, n := Move(t2, Trapped), |s.ring| - 1;
    MoveToTrapped(t2);
    LastComesToRun(u, a);
    StepKeeps(t2, Trap);
    NotBoth(t3, a);
    t4 := Do(t3, Return);
  }

  lemma NotBoth(t: Sys, a: nat)
    requires Inv(t)
    ensures a in t.locks ==> a !in t.ilocks
  {
  }

  /** The last of the ring waits for a byte that is 0, and nobody else can run. */
  lemma LastComesToRun(u: Sys, a: nat)
    requires Inv(u) && u.ring != [] && Current(u).state == LOCK && Current(u).lock == a
    requires a in u.locks && a in u.bytes && u.bytes[a] == 0
    requires forall j: nat :: j < |u.ring| - 1 ==> Still(u.ring[j], u.bytes, u.tick)
    ensures CanSwitch(u) && Switch(u).ring != []
    ensures Switch(u).pc == u.pc && Switch(u).locks == u.locks && Switch(u).ilocks == u.ilocks
    ensures Current(Switch(u)) == Entry(Current(u).process, RUN, a, Current(u).wake)
    ensures a in Switch(u).bytes && Switch(u).bytes[a] == 1
    ensures forall p: nat :: Grant(p, a) in Switch(u).inside <==> p == Current(u).process
  {
    var n := |u.ring| - 1;
    assert Passes(u.ring, n);
    assert Grantable(u.ring[n], u.bytes);
    WaiterRuns(u, a, n);
    forall j: nat | j < n
      ensures Fate(u.ring, u.bytes, u.tick, j).state != RUN
    {
      assert Still(u.ring[j], u.bytes, u.tick);
    }
    hide Inv, Fate;
    WakesNext(u.ring, u.bytes, u.tick, n);
    var w := HandedOn(u, a, n);
  }

  /** intr_lock up to its test: the byte decides. */
  lemma IntrTests(s: Sys, a: nat) returns (t1: Sys, t2: Sys, t3: Sys)
    requires At(s, Outside) && a in s.ilocks && a in s.user && s.user[a] == Current(s).process
    requires a in s.bytes && (s.bytes[a] != 1 || |s.ring| > 1)
    ensures Follows(s, IntrLock(a), t1) && Follows(t1, Leave, t2) && Follows(t2, Test, t3)
    ensures t3.ring == s.ring[|s.ring| - 1 := Entry(Current(s).process, RUN, a, Current(s).wake)]
    ensures t3.bytes == s.bytes && t3.released == s.released
    ensures if s.bytes[a] == 1 then At(t3, Tested) && t3.user == s.user else At(t3, Outside) && a !in t3.user
  {
    hide Switch, CanSwitch;
    t1 := Do(s, IntrLock(a));
    assert At(t1, Entered) && Current(t1) == Current(s).(lock := a) && t1.bytes == s.bytes;
    t2 := Do(t1, Leave);
    assert At(t2, Left) && t2.ring == t1.ring && t2.bytes == s.bytes;
    t3 := Do(t2, Test);
  }

  /** A process alone on the ring stays in the loop of intr_lock as long as the byte is 1, and leaves it after a release. */
  lemma LoneHalts(s: Sys, a: nat, t: Sys)
    requires Follows(s, IntrLock(a), t) && |s.ring| == 1 && a in s.bytes && s.bytes[a] == 1
    ensures forall u: Sys {:trigger Follows(t, Leave, u)} :: !Follows(t, Leave, u)
    ensures forall u: Sys {:trigger Follows(t, Release(a), u)} :: Follows(t, Release(a), u) ==> Follows(u, Leave, Do(u, Leave))
  {
    hide Switch, CanSwitch;
  }

  /** An armed lock that is released lets intr_lock pass: from outside, arming, release and the three steps of intr_lock
      can be taken, and the lock is nobody's again. */
  lemma ReleaseIsSeen(s: Sys, a: nat) returns (t1: Sys, t2: Sys, t3: Sys, t4: Sys, t5: Sys)
    requires Inv(s) && At(s, Outside) && a in s.ilocks && (a in s.user ==> s.user[a] == Current(s).process)
    ensures Follows(s, Arm(a), t1) && Follows(t1, Release(a), t2) && Follows(t2, IntrLock(a), t3)
    ensures Follows(t3, Leave, t4) && Follows(t4, Test, t5)
    ensures a in t1.bytes && t1.bytes[a] == 1 && At(t5, Outside) && a !in t5.user && a in t5.bytes && t5.bytes[a] == 0
  {
    hide Inv, Switch, CanSwitch, Follows;
    t1 := Armed(s, a);
    t2 := t1.(bytes := t1.bytes[a := 0], released := t1.released + {a});
    assert Follows(t1, Release(a), t2) by {
      ReleaseIs(t1, a);
    }
    t3, t4, t5 := IntrTests(t2, a);
  }

  lemma Armed(s: Sys, a: nat) returns (t: Sys)
    requires At(s, Outside) && a in s.ilocks && (a in s.user ==> s.user[a] == Current(s).process)
    ensures Follows(s, Arm(a), t) && At(t, Outside) && t.ring == s.ring && t.ilocks == s.ilocks
    ensures t.bytes == s.bytes[a := 1] && t.user == s.user[a := Current(s).process] && a !in t.released
  {
    hide Switch, CanSwitch;
    t := Do(s, Arm(a));
  }

  lemma ReleaseIs(s: Sys, a: nat)
    requires a in s.ilocks
    ensures Follows(s, Release(a), s.(bytes := s.bytes[a := 0], released := s.released + {a}))
  {
    hide Switch, CanSwitch;
  }

  /** One that is not released makes intr_lock wait, with another process on the ring. */
  lemma ArmedWaits(s: Sys, a: nat) returns (t1: Sys, t2: Sys, t3: Sys, t4: Sys, t5: Sys)
    requires Inv(s) && At(s, Outside) && a in s.ilocks && (a in s.user ==> s.user[a] == Current(s).process) && |s.ring| > 1
    ensures Follows(s, Arm(a), t1) && Follows(t1, IntrLock(a), t2) && Follows(t2, Leave, t3)
    ensures Follows(t3, Test, t4) && Follows(t4, Mark, t5)
    ensures t5.ring == s.ring[|s.ring| - 1 := Entry(Current(s).process, LOCK, a, Current(s).wake)]
    ensures a in t5.bytes && t5.bytes[a] == 1 && a in t5.user && t5.user[a] == Current(s).process && a !in t5.released
  {
    hide Inv, Switch, CanSwitch, Follows;
    t1 := Armed(s, a);
    t2, t3, t4 := IntrTests(t1, a);
    t5 := Marks(t4);
  }

  lemma Marks(s: Sys) returns (t: Sys)
    requires At(s, Tested) || At(s, Stored)
    ensures Follows(s, Mark, t) && t.bytes == s.bytes && t.user == s.user && t.released == s.released
    ensures t.ring == s.ring[|s.ring| - 1 := Entry(Current(s).process, LOCK, Current(s).lock, Current(s).wake)]
  {
    hide Switch, CanSwitch;
    t := Do(s, Mark);
  }

  /** process_wait(n): the running process sleeps until n ticks from now. */
  lemma SleepIs(s: Sys, n: nat) returns (t1: Sys, t2: Sys)
    requires At(s, Outside)
    ensures Follows(s, Plan(n), t1) && Follows(t1, Sleep, t2) && t2.bytes == s.bytes && t2.tick == s.tick
    ensures t2.ring == s.ring[|s.ring| - 1 := Entry(Current(s).process, WAIT, Current(s).lock, s.tick + n)]
  {
    t1 := Do(s, Plan(n));
    t2 := Do(t1, Sleep);
  }

  /** A scan that passes a sleeper makes it run if its time has come, and leaves it alone otherwise. */
  lemma SleeperWakes(s: Sys, i: nat)
    requires CanSwitch(s) && i < |s.ring| && (forall j: nat :: j <= i ==> s.ring[j].state != RUN) && s.ring[i].state == WAIT
    ensures s.tick >= s.ring[i].wake ==> Entry(s.ring[i].process, RUN, s.ring[i].lock, s.ring[i].wake) in Switch(s).ring
    ensures s.tick < s.ring[i].wake ==> s.ring[i] in Switch(s).ring
  {
    SwitchFates(s, i);
  }

  /** Before its time no step wakes it. */
  lemma SleepsOn(s: Sys, x: Action, t: Sys, e: Proc)
    requires Inv(s) && Follows(s, x, t) && e in s.ring && e.state == WAIT && s.tick < e.wake
    ensures e in t.ring
  {
    hide Inv;
    var i: nat :| i < |s.ring| && s.ring[i] == e;
    if x == Timer {
      SwitchFates(s, i);
    } else if x == Trap {
      SwitchFates(Move(s, Trapped), i);
    } else if x == Create {
      assert t.ring[i + 1] == e;
    } else {
      hide Switch, CanSwitch;
      assert !x.Release? ==> i < |s.ring| - 1;
      assert t.ring[i] == e;
    }
  }

  /** Whatever happens, a sleeper sleeps as long as its time has not come. */
  lemma {:induction false} SleepsUntil(states: seq<Sys>, steps: seq<Action>, i: nat, m: nat, e: Proc)
    requires Run(states, steps) && i <= m < |states| && e in states[i].ring && e.state == WAIT
    requires forall k: nat :: i <= k < m ==> states[k].tick < e.wake
    ensures e in states[m].ring
  {
    hide Follows, Initial;
    if i < m {
      SleepsUntil(states, steps, i, m - 1, e);
      Always(states, steps, m - 1);
      assert Follows(states[m - 1], steps[m - 1], states[m]);
      SleepsOn(states[m - 1], steps[m - 1], states[m], e);
    }
  }

  /** process_exit: the running process is dead, and nothing else changes. */
  lemma ExitIs(s: Sys, t: Sys)
    requires Follows(s, Exit, t)
    ensures t.ring == s.ring[|s.ring| - 1 := Entry(Current(s).process, EXIT, Current(s).lock, Current(s).wake)]
    ensures t.bytes == s.bytes && t.inside == s.inside && t.pc == s.pc && t.tick == s.tick
  {
  }

  /** A scan that passes a dead process takes it off the ring. */
  lemma DeadGoes(s: Sys, i: nat, e: Proc)
    requires Inv(s) && CanSwitch(s) && e in Switch(s).ring
    requires i < |s.ring| && (forall j: nat :: j <= i ==> s.ring[j].state != RUN) && s.ring[i].state == EXIT
    ensures e.process != s.ring[i].process
  {
    hide ProcsOk, Exclusive, Signalled, Switched, Fate, Remaining;
    RemainingRuns(s.ring, s.bytes, s.tick);
    SwitchedFates(s.ring, s.bytes, s.tick, e);
    var k: nat :| k < |s.ring| && !Gone(s.ring, k) && e == Fate(s.ring, s.bytes, s.tick, k);
    assert Gone(s.ring, i) && k != i;
    SameProcess(s.ring, s.bytes, s.tick, k);
  }

  lemma SameProcess(q: seq<Proc>, bytes: Bytes, tick: nat, k: nat)
    requires k < |q|
    ensures Fate(q, bytes, tick, k).process == q[k].process
  {
  }

  /** process_create: a new process comes right after the running one, outside of everything. */
  lemma CreateIs(s: Sys, t: Sys)
    requires At(s, Outside)
    ensures Enabled(s, Create)
    ensures Follows(s, Create, t) ==>
              && t.ring == [Entry(s.newPid, RUN, 0, 0)] + s.ring && t.newPid == s.newPid + 1
              && s.newPid in t.pc && t.pc[s.newPid] == Outside && t.bytes == s.bytes && t.inside == s.inside
  {
  }
}
