/** The process ring in memory: kernel/process/process.c. */
module Scheduler {
  import opened Scan
  import opened Fates

  class Process {
    const pid: nat
    var state: State
    var next: Process?
    var lock: nat
    var wake: nat

    constructor (pid: nat, next: Process?)
      ensures this.pid == pid && state == RUN && this.next == next && lock == 0 && wake == 0
    {
      this.pid, state, this.next, lock, wake := pid, RUN, next, 0, 0;
    }
  }

  ghost function Procs(q: seq<Entry<Process>>): set<Process> {
    set i: nat {:trigger q[i]} | i < |q| :: q[i].process
  }

  /** Who comes after entry i on the ring. */
  ghost function After(q: seq<Entry<Process>>, i: nat): Process
    requires i < |q|
  {
    if i + 1 < |q| then q[i + 1].process else q[0].process
  }

  /** The processes stand for the entries, and their `next` fields form one cycle, in queue order. */
  ghost predicate Linked(q: seq<Entry<Process>>)
    reads Procs(q)
  {
    Once(q) && forall i: nat {:trigger q[i]} :: i < |q| ==> Stands(q, i)
  }

  ghost predicate Stands(q: seq<Entry<Process>>, i: nat)
    requires i < |q|
    reads q[i].process
  {
    var p := q[i].process;
    p.state == q[i].state && p.lock == q[i].lock && p.wake == q[i].wake && p.next == After(q, i)
  }

  /** Every lock waited for is a lock byte. */
  ghost predicate Known(q: seq<Entry<Process>>, bytes: Bytes) {
    forall i: nat {:trigger q[i]} :: i < |q| && q[i].state == LOCK ==> q[i].lock in bytes
  }

  lemma KnownAfter(q: seq<Entry<Process>>, bytes: Bytes, tick: nat)
    requires q != [] && Known(q, bytes)
    ensures Known(Turn(q, bytes, tick), BytesPast(q[0], bytes))
  {
  }

  /** Where the scan stands after n turns, when some process can run. */
  lemma AtTurn(q: seq<Entry<Process>>, bytes: Bytes, tick: nat, n: nat)
    requires Ready(q, bytes, tick)
    ensures q != [] && HasRun(Remaining(q, bytes, tick))
    ensures var (u, b) := Turns(q, bytes, tick, n);
            if u[0].state == RUN then Switched(q, bytes, tick) == u[1..] + [u[0]] && b == SwitchedBytes(q, bytes)
            else n < Length(q, bytes, tick) && (u[0].state == EXIT ==> |u| > 1)
  {
    hide Ready, Switched, Remaining, SwitchedBytes, FirstRun;
    ScanEnds(q, bytes, tick);
    var (u, b) := Turns(q, bytes, tick, n);
    var end := Length(q, bytes, tick);
    if n >= end {
      StaysStopped(q, bytes, tick, end, n);
    } else {
      TurnsAdd(q, bytes, tick, n, end - n);
      if u[0].state == RUN {
        Stopped(u, b, tick, end - n);
      } else if u[0].state == EXIT {
        NotAlone(u, b, tick, end - n);
      }
    }
  }

  lemma StaysStopped(q: seq<Entry<Process>>, bytes: Bytes, tick: nat, end: nat, n: nat)
    requires q != [] && end <= n && Turns(q, bytes, tick, end).0[0].state == RUN
    ensures Turns(q, bytes, tick, n) == Turns(q, bytes, tick, end)
  {
    TurnsAdd(q, bytes, tick, end, n - end);
    var (v, c) := Turns(q, bytes, tick, end);
    Stopped(v, c, tick, n - end);
  }

  lemma NotAlone(u: seq<Entry<Process>>, b: Bytes, tick: nat, n: nat)
    requires u != [] && Turns(u, b, tick, n).0[0].state == RUN && u[0].state == EXIT
    ensures |u| > 1
  {
    if |u| == 1 {
      NeverEnds(u, b, tick, n);
    }
  }

  lemma ProcsAfter(q: seq<Entry<Process>>, bytes: Bytes, tick: nat)
    requires Once(q) && q != [] && (q[0].state == EXIT ==> |q| > 1)
    ensures Procs(Turn(q, bytes, tick)) == Procs(q) - if q[0].state == EXIT then {q[0].process} else {}
  {
    var t := Turn(q, bytes, tick);
    forall p: Process | p in Procs(q) && (q[0].state == EXIT ==> p != q[0].process)
      ensures p in Procs(t)
    {
      var i: nat :| i < |q| && q[i].process == p;
      assert t[if i == 0 then |t| - 1 else i - 1].process == p;
    }
    forall p: Process | p in Procs(t)
      ensures p in Procs(q) && (q[0].state == EXIT ==> p != q[0].process)
    {
      var i: nat :| i < |t| && t[i].process == p;
      assert t[i].process == q[if i + 1 < |q| then i + 1 else 0].process;
    }
  }

  lemma LinkedOnce(q: seq<Entry<Process>>)
    requires Linked(q)
    ensures Once(q)
  {
  }

  lemma Head(q: seq<Entry<Process>>)
    requires Linked(q) && q != []
    ensures q[|q| - 1].process.next == q[0].process && q[0].process.state == q[0].state
  {
    assert Stands(q, |q| - 1) && Stands(q, 0);
  }

  /** The ring is the same one wherever the queue starts. */
  lemma Turned(q: seq<Entry<Process>>, bytes: Bytes)
    requires Linked(q) && q != [] && Known(q, bytes)
    ensures Linked(q[1..] + [q[0]]) && Known(q[1..] + [q[0]], bytes) && Procs(q[1..] + [q[0]]) == Procs(q)
  {
    var t := q[1..] + [q[0]];
    assert Procs(t) == Procs(q) by {
      assert forall i: nat :: i < |q| ==> q[i].process == t[if i == 0 then |t| - 1 else i - 1].process;
    }
    hide Procs;
    assert Linked(t) by {
      forall i: nat | i < |t|
        ensures Stands(t, i)
      {
        assert Stands(q, if i + 1 < |q| then i + 1 else 0);
      }
    }
  }

  /** Only the dead are freed, each once, and they are off the ring; the process switched away from is among them
      exactly when it has exited and no other one ran. */
  lemma FreedAreDead(was: seq<Entry<Process>>, was': Bytes, tick: nat, p: Process)
    requires Once(was) && was != [] && HasRun(Remaining(was, was', tick))
    ensures p in Procs(was) - Procs(Switched(was, was', tick)) <==> Reaped(was, p)
    ensures Procs(Switched(was, was', tick)) <= Procs(was)
    ensures Reaped(was, was[|was| - 1].process) <==> was[|was| - 1].state == EXIT && !HasRun(was)
  {
    hide Remaining, Switched, Once;
    ReapsPrevious(was);
    SwitchedKeeps(was, was', tick, p);
    InProcs(was, p);
    InProcs(Switched(was, was', tick), p);
    forall r: Process | r in Procs(Switched(was, was', tick))
      ensures r in Procs(was)
    {
      SwitchedKeeps(was, was', tick, r);
      InProcs(was, r);
      InProcs(Switched(was, was', tick), r);
    }
  }

  lemma InProcs(q: seq<Entry<Process>>, p: Process)
    ensures p in Procs(q) <==> On(q, p)
  {
  }

  lemma OneMore(q: seq<Entry<Process>>, e: Entry<Process>)
    ensures e.process !in Procs(q) && Once(q) ==> Once([e] + q)
    ensures Procs([e] + q) == Procs(q) + {e.process}
  {
    OnceAppend([e], q);
    assert ([e] + q)[0] == e && forall i: nat :: i < |q| ==> ([e] + q)[i + 1] == q[i];
  }

  lemma SwitchAccount(q: seq<Entry<Process>>, bytes: Bytes, tick: nat)
    requires HasRun(Remaining(q, bytes, tick))
    ensures forall i: nat :: i < |q| && !Gone(q, i) ==> Fate(q, bytes, tick, i) in Switched(q, bytes, tick)
    ensures forall i: nat :: i < |q| && (forall j: nat :: j <= i ==> q[j].state != RUN) && q[i].state == WAIT ==>
              Entry(q[i].process, if tick >= q[i].wake then RUN else WAIT, q[i].lock, q[i].wake) in Switched(q, bytes, tick)
    ensures forall a: nat :: a in bytes ==>
              a in SwitchedBytes(q, bytes) && SwitchedBytes(q, bytes)[a] == if bytes[a] == 0 && Wanted(q, a) then 1 else bytes[a]
  {
    hide Switched, SwitchedBytes, Remaining, Wanted;
    forall i: nat | i < |q| && !Gone(q, i)
      ensures Fate(q, bytes, tick, i) in Switched(q, bytes, tick)
    {
      SwitchedFates(q, bytes, tick, Fate(q, bytes, tick, i));
    }
    forall a: nat | a in bytes
      ensures a in SwitchedBytes(q, bytes) && SwitchedBytes(q, bytes)[a] == if bytes[a] == 0 && Wanted(q, a) then 1 else bytes[a]
    {
      SwitchedBytesFates(q, bytes, a);
    }
    forall i: nat | i < |q| && (forall j: nat :: j <= i ==> q[j].state != RUN) && q[i].state == WAIT
      ensures Entry(q[i].process, if tick >= q[i].wake then RUN else WAIT, q[i].lock, q[i].wake) in Switched(q, bytes, tick)
    {
      assert Fate(q, bytes, tick, i) in Switched(q, bytes, tick);
    }
  }

  class Kernel {
    var current: Process
    var bytes: Bytes
    var newPid: nat
    ghost var ring: seq<Entry<Process>>  // from the one after `current` round to `current`
    ghost var freed: set<Process>        // given to vmm_free_page

    ghost predicate Valid()
      reads this, Procs(ring)
    {
      ring != [] && Linked(ring) && Known(ring, bytes) && current == ring[|ring| - 1].process && freed !! Procs(ring)
    }

    /** init_current_process */
    constructor (bytes: Bytes)
      ensures Valid() && ring == [Entry(current, RUN, 0, 0)] && current.pid == 0 && newPid == 1
      ensures this.bytes == bytes && freed == {} && fresh(current)
    {
      var first := new Process(0, null);
      first.next := first;
      current := first;
      this.bytes := bytes;
      newPid := 1;
      ring := [Entry(first, RUN, 0, 0)];
      freed := {};
    }

    /** A granted or woken process, or one passed over: the queue turns. */
    method Pass(last: Process, ghost q: seq<Entry<Process>>, tick: nat) returns (next: Process)
      requires Linked(q) && q != [] && last == q[|q| - 1].process
      requires q[0].state == LOCK || q[0].state == WAIT
      requires q[0].state == LOCK ==> q[0].lock in bytes
      modifies this`bytes, Procs(q)
      ensures next == q[0].process
      ensures bytes == BytesPast(q[0], old(bytes)) && Linked(Turn(q, old(bytes), tick))
    {
      assert Stands(q, |q| - 1) && Stands(q, 0);
      next := last.next;
      if next.state == LOCK {
        if bytes[next.lock] == 0 {
          bytes := bytes[next.lock := 1];
          next.state := RUN;
        }
      } else {
        if tick >= next.wake {
          next.state := RUN;
        }
      }
      assert q == [q[0]] + q[1..];
      OnceAppend([q[0]], q[1..]);
      ghost var t := Turn(q, old(bytes), tick);
      forall i: nat | i < |t|
        ensures Stands(t, i)
      {
        assert i + 1 < |q| ==> old(Stands(q, i + 1)) && t[i] == q[i + 1] && q[i + 1].process != q[0].process;
      }
    }

    /** A dead process: `last` is linked past it, and its pages are freed. */
    method Unlink(last: Process, ghost q: seq<Entry<Process>>, tick: nat)
      requires Linked(q) && |q| > 1 && last == q[|q| - 1].process && q[0].state == EXIT
      modifies this`freed, Procs(q)
      ensures Linked(Turn(q, bytes, tick))
      ensures freed == old(freed) + {q[0].process}
    {
      assert Stands(q, |q| - 1) && Stands(q, 0);
      var next := last.next;
      last.next := next.next;
      freed := freed + {next};
      assert q == [q[0]] + q[1..];
      OnceAppend([q[0]], q[1..]);
      ghost var t := Turn(q, bytes, tick);
      forall i: nat | i < |t|
        ensures Stands(t, i)
      {
        assert old(Stands(q, i + 1)) && t[i] == q[i + 1];
        assert i + 1 < |t| ==> q[i + 1].process != q[|q| - 1].process && After(t, i) == After(q, i + 1);
      }
    }

    /** One turn of the scan, at a process that does not run. */
    method Examine(last: Process, ghost q: seq<Entry<Process>>, tick: nat) returns (last': Process)
      requires Linked(q) && q != [] && last == q[|q| - 1].process && q[0].state != RUN
      requires q[0].state == LOCK ==> q[0].lock in bytes
      requires q[0].state == EXIT ==> |q| > 1
      modifies this`bytes, this`freed, Procs(q)
      ensures bytes == BytesPast(q[0], old(bytes)) && Linked(Turn(q, old(bytes), tick))
      ensures last' == Turn(q, old(bytes), tick)[|Turn(q, old(bytes), tick)| - 1].process
      ensures freed == old(freed) + if q[0].state == EXIT then {q[0].process} else {}
    {
      hide Once;
      assert Stands(q, |q| - 1) && Stands(q, 0);
      var next := last.next;
      if next.state == EXIT {
        Unlink(last, q, tick);
        last' := last;
      } else {
        last' := Pass(last, q, tick);
      }
    }

    /** The scan: `last` is the process before the one it stops at. */
    method Scan(tick: nat) returns (last: Process, ghost q: seq<Entry<Process>>)
      requires Valid() && Ready(ring, bytes, tick)
      modifies this`bytes, this`freed, Procs(ring)
      ensures HasRun(Remaining(ring, old(bytes), tick))
      ensures q != [] && Linked(q) && Known(q, bytes) && last == q[|q| - 1].process
      ensures Switched(ring, old(bytes), tick) == q[1..] + [q[0]] && bytes == SwitchedBytes(ring, old(bytes))
      ensures Procs(q) <= Procs(ring) && freed == old(freed) + (Procs(ring) - Procs(q))
    {
      hide Once, Ready, Switched, Remaining, SwitchedBytes, FirstRun, Linked, Known, Turn, Procs, BytesPast;
      ghost var n := 0;
      q, last := ring, current;
      Head(q);
      while last.next.state != RUN
        invariant q != [] && Linked(q) && Known(q, bytes) && last == q[|q| - 1].process
        invariant last.next == q[0].process && q[0].process.state == q[0].state
        invariant (q, bytes) == Turns(ring, old(bytes), tick, n)
        invariant Procs(q) <= Procs(ring) && freed == old(freed) + (Procs(ring) - Procs(q))
        decreases Length(ring, old(bytes), tick) - n
      {
        AtTurn(ring, old(bytes), tick, n);
        TurnsNext(ring, old(bytes), tick, n);
        last, q := Step(last, q, tick);
        n := n + 1;
      }
      AtTurn(ring, old(bytes), tick, n);
    }

    method Step(last: Process, ghost q: seq<Entry<Process>>, tick: nat) returns (last': Process, ghost q': seq<Entry<Process>>)
      requires Linked(q) && Known(q, bytes) && q != [] && last == q[|q| - 1].process && q[0].state != RUN
      requires q[0].state == EXIT ==> |q| > 1
      modifies this`bytes, this`freed, Procs(q)
      ensures q' == Turn(q, old(bytes), tick) && bytes == BytesPast(q[0], old(bytes))
      ensures Linked(q') && Known(q', bytes) && last' == q'[|q'| - 1].process
      ensures last'.next == q'[0].process && q'[0].process.state == q'[0].state
      ensures Procs(q') <= Procs(q) && freed == old(freed) + (Procs(q) - Procs(q'))
    {
      hide Once, Linked, BytesPast;
      KnownAfter(q, bytes, tick);
      LinkedOnce(q);
      ProcsAfter(q, bytes, tick);
      ghost var b := bytes;
      last' := Examine(last, q, tick);
      q' := Turn(q, b, tick);
      Head(q');
    }

    /** process_switch: `switched` tells whether another process is switched to. */
    method Switch(tick: nat) returns (switched: bool)
      requires Valid() && Ready(ring, bytes, tick)
      modifies this, Procs(ring)
      ensures HasRun(Remaining(old(ring), old(bytes), tick)) && newPid == old(newPid)
      ensures Valid() && ring == Switched(old(ring), old(bytes), tick) && bytes == SwitchedBytes(old(ring), old(bytes))
      ensures switched <==> current != old(current)
      ensures freed == old(freed) + (Procs(old(ring)) - Procs(ring))
      ensures forall i: nat :: i < |old(ring)| && !Gone(old(ring), i) ==> Fate(old(ring), old(bytes), tick, i) in ring
      ensures forall i: nat :: i < |old(ring)| && (forall j: nat :: j <= i ==> old(ring)[j].state != RUN) && old(ring)[i].state == WAIT ==>
                Entry(old(ring)[i].process, if tick >= old(ring)[i].wake then RUN else WAIT, old(ring)[i].lock, old(ring)[i].wake) in ring
      ensures forall a: nat :: a in old(bytes) ==>
                a in bytes && bytes[a] == if old(bytes)[a] == 0 && Wanted(old(ring), a) then 1 else old(bytes)[a]
    {
      hide Once, Ready, Switched, Remaining, SwitchedBytes, FirstRun, Linked, Known, Procs, Fate, Gone, Wanted;
      var prev := current;
      var last, q := Scan(tick);
      Head(q);
      Turned(q, bytes);
      var next := last.next;
      switched := next != prev;
      if switched {
        current := next;
      }
      ring := q[1..] + [q[0]];
      SwitchAccount(old(ring), old(bytes), tick);
    }

    /** process_create up to the store into the new process's `next`.  Interrupts are on from here to Insert. */
    method Prepare() returns (created: Process)
      requires Valid()
      modifies this`newPid
      ensures Valid() && ring == old(ring) && newPid == old(newPid) + 1 && freed == old(freed)
      ensures fresh(created) && created.pid == old(newPid) && created.state == RUN && created.lock == 0 && created.wake == 0
      ensures created.next == ring[0].process
    {
      Head(ring);
      created := new Process(newPid, current.next);
      newPid := newPid + 1;
    }

    /** The last store of process_create: the new process comes right after the current one.  The ring survives exactly
        when the process that Prepare linked the new one to still comes after the current one. */
    method Insert(created: Process)
      requires Valid() && created !in Procs(ring) && created !in freed
      requires created.state == RUN && created.lock == 0 && created.wake == 0 && created.next != created
      modifies this`ring, current
      ensures ring == [Entry(created, RUN, 0, 0)] + old(ring) && freed == old(freed)
      ensures Valid() <==> created.next == old(ring)[0].process
    {
      ghost var q := ring;
      Head(q);
      current.next := created;
      ring := [Entry(created, RUN, 0, 0)] + q;
      OneMore(q, Entry(created, RUN, 0, 0));
      if created.next == q[0].process {
        forall i: nat | i < |ring|
          ensures Stands(ring, i)
        {
          assert i > 0 ==> old(Stands(q, i - 1)) && ring[i] == q[i - 1];
          assert 0 < i < |q| ==> q[i - 1].process != q[|q| - 1].process;
        }
      } else {
        assert !Stands(ring, 0);
      }
    }

    /** process_create; 0 when there is no memory. */
    method Create(memory: bool) returns (pid: nat)
      requires Valid()
      modifies this`ring, this`newPid, current
      ensures Valid() && current == old(current) && bytes == old(bytes) && freed == old(freed)
      ensures !memory ==> pid == 0 && ring == old(ring) && newPid == old(newPid)
      ensures memory ==> pid == old(newPid) && newPid == pid + 1 && |ring| > 0 && ring[1..] == old(ring)
      ensures memory ==> fresh(ring[0].process) && ring[0].process.pid == pid && ring[0] == Entry(ring[0].process, RUN, 0, 0)
    {
      hide Linked, Known, Once;
      if !memory {
        return 0;
      }
      pid := newPid;
      var created := Prepare();
      Insert(created);
    }

    /** The running process changes its own state: process_exit, process_lock and process_wait before the interrupt. */
    method Mark(state: State, lock: nat, wake: nat)
      requires Valid() && (state == LOCK ==> lock in bytes)
      modifies this`ring, current
      ensures Valid() && ring == old(ring)[|old(ring)| - 1 := Entry(current, state, lock, wake)]
    {
      ghost var n := |ring| - 1;
      assert Stands(ring, n);
      current.state, current.lock, current.wake := state, lock, wake;
      ghost var q := ring;
      ring := ring[n := Entry(current, state, lock, wake)];
      forall i: nat | i < |ring|
        ensures Stands(ring, i)
      {
        assert old(Stands(q, i)) && After(ring, i) == After(q, i);
        assert i < n ==> q[i].process != q[n].process;
      }
    }
  }

  /** The next process runs: it is switched to. */
  lemma NextRuns(q: seq<Entry<Process>>, bytes: Bytes, tick: nat)
    requires q != [] && q[0].state == RUN
    ensures Ready(q, bytes, tick) && HasRun(Remaining(q, bytes, tick)) && Switched(q, bytes, tick) == q[1..] + [q[0]]
  {
    assert FirstRun(q) == 0 && q[..0] == [];
    assert Remaining(q, bytes, tick) == q;
  }

  /** The next process is dead and the one after it runs: the dead one is off the ring. */
  lemma NextIsDead(e: Entry<Process>, f: Entry<Process>, bytes: Bytes, tick: nat)
    requires e.state == EXIT && f.state == RUN
    ensures Ready([e, f], bytes, tick) && HasRun(Remaining([e, f], bytes, tick)) && Switched([e, f], bytes, tick) == [f]
  {
    var q := [e, f];
    assert q[1].state == RUN && q[1..] == [f] && FirstRun(q[1..]) == 0 && FirstRun(q) == 1;
    assert q[..1] == [e] && Pass([e], bytes, tick) == [] && q[1..] + [] == [f];
    assert FirstRun([f]) == 0;
  }

  /** A ring of two: the process after the running one is dead. */
  method DeadAhead() returns (k: Kernel)
    ensures k.Valid() && |k.ring| == 2 && k.ring[0].state == EXIT && k.ring[1].state == RUN && k.bytes == map[]
    ensures fresh(k) && fresh(k.ring[0].process) && fresh(k.ring[1].process)
  {
    hide Switched, Remaining, Ready, FirstRun, SwitchedBytes, Once, Linked, Known;
    k := new Kernel(map[]);
    var pid := k.Create(true);
    ghost var a, b := k.ring[1], k.ring[0];
    NextRuns(k.ring, k.bytes, 0);
    BytesPastRunning(k.ring, k.bytes);
    var switched := k.Switch(0);
    assert k.ring == [a, b] && k.bytes == map[];
    k.Mark(EXIT, 0, 0);
    NextRuns(k.ring, k.bytes, 0);
    BytesPastRunning(k.ring, k.bytes);
    switched := k.Switch(0);
    assert k.ring == [Entry(b.process, EXIT, 0, 0), a];
  }

  /** The running process of that ring creates another one.  The timer comes between Prepare and Insert, the dead process
      is freed, and the new one is linked to it. */
  method InsertExample() returns (k: Kernel)
    ensures !k.Valid()
  {
    hide Switched, Remaining, Ready, FirstRun, SwitchedBytes, Linked, Known;
    k := DeadAhead();
    ghost var a, b := k.ring[1], k.ring[0];
    assert k.ring == [b, a] && a.process != b.process by {
      TwoDiffer(k);
    }
    var created := k.Prepare();
    NextIsDead(b, a, k.bytes, 0);
    var switched := k.Switch(0);
    k.Insert(created);
  }

  lemma TwoDiffer(k: Kernel)
    requires k.Valid() && |k.ring| == 2
    ensures k.ring[0].process != k.ring[1].process
  {
  }

  lemma BytesPastRunning(q: seq<Entry<Process>>, bytes: Bytes)
    requires q != [] && q[0].state == RUN
    ensures SwitchedBytes(q, bytes) == bytes
  {
    assert q[..0] == [];
  }
}
