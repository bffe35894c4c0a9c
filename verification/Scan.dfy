/** The scan of process_switch (kernel/process/process.c:24-60), on values.

    A queue holds the ring in the order the scan meets it: its first entry is the process after `last`, its last
    entry is `last` itself.  Turn is one `goto switch_to`; Switched is the ring after a whole scan, in closed form. */
module Scan {
  datatype State = RUN | EXIT | LOCK | WAIT

  datatype Entry<P> = Entry(process: P, state: State, lock: nat, wake: nat)

  /** The lock bytes, by address. */
  type Bytes = map<nat, nat>

  predicate Grantable<P>(e: Entry<P>, bytes: Bytes) {
    e.state == LOCK && e.lock in bytes && bytes[e.lock] == 0
  }

  predicate Due<P>(e: Entry<P>, tick: nat) {
    e.state == WAIT && tick >= e.wake
  }

  /** An entry that is not running, after the scan has passed it; and the lock bytes. */
  function Passed<P>(e: Entry<P>, bytes: Bytes, tick: nat): Entry<P> {
    if Grantable(e, bytes) || Due(e, tick) then e.(state := RUN) else e
  }

  function BytesPast<P>(e: Entry<P>, bytes: Bytes): Bytes {
    if Grantable(e, bytes) then bytes[e.lock := 1] else bytes
  }

  /** What the entries of a queue become when the scan passes them all: the dead are gone. */
  function Pass<P>(q: seq<Entry<P>>, bytes: Bytes, tick: nat): (r: seq<Entry<P>>)
    ensures |r| <= |q|
  {
    if q == [] then [] else
      (if q[0].state == EXIT then [] else [Passed(q[0], bytes, tick)]) + Pass(q[1..], BytesPast(q[0], bytes), tick)
  }

  function PassBytes<P>(q: seq<Entry<P>>, bytes: Bytes): Bytes {
    if q == [] then bytes else PassBytes(q[1..], BytesPast(q[0], bytes))
  }

  /** The first running entry; |q| when there is none. */
  function FirstRun<P>(q: seq<Entry<P>>): (k: nat)
    ensures k <= |q| && (k < |q| ==> q[k].state == RUN)
    ensures forall i: nat :: i < k ==> q[i].state != RUN
  {
    if q == [] || q[0].state == RUN then 0 else 1 + FirstRun(q[1..])
  }

  predicate HasRun<P>(q: seq<Entry<P>>) {
    FirstRun(q) < |q|
  }

  /** Can some process run: does it run, or is its lock free, or is its time come? */
  ghost predicate Ready<P>(q: seq<Entry<P>>, bytes: Bytes, tick: nat) {
    exists i: nat {:trigger q[i]} :: i < |q| && (q[i].state == RUN || Grantable(q[i], bytes) || Due(q[i], tick))
  }

  /** One turn of the scan, at a process that does not run.  The last process of a ring, dead, stays: its `next` is
      itself. */
  function Turn<P>(q: seq<Entry<P>>, bytes: Bytes, tick: nat): (r: seq<Entry<P>>)
    requires q != []
    ensures r != []
  {
    if q[0].state != EXIT then q[1..] + [Passed(q[0], bytes, tick)] else if |q| == 1 then q else q[1..]
  }

  /** n turns; a running process at the head stops the scan. */
  function Turns<P>(q: seq<Entry<P>>, bytes: Bytes, tick: nat, n: nat): (r: (seq<Entry<P>>, Bytes))
    requires q != []
    ensures r.0 != []
    decreases n
  {
    if n == 0 || q[0].state == RUN then (q, bytes)
    else Turns(Turn(q, bytes, tick), BytesPast(q[0], bytes), tick, n - 1)
  }

  lemma {:induction false} PassAppend<P>(a: seq<Entry<P>>, e: Entry<P>, bytes: Bytes, tick: nat)
    ensures PassBytes(a + [e], bytes) == BytesPast(e, PassBytes(a, bytes))
    ensures Pass(a + [e], bytes, tick) ==
            Pass(a, bytes, tick) + if e.state == EXIT then [] else [Passed(e, PassBytes(a, bytes), tick)]
  {
    if a == [] {
      assert a + [e] == [e] && [e][1..] == [];
    } else {
      assert (a + [e])[1..] == a[1..] + [e];
      PassAppend(a[1..], e, BytesPast(a[0], bytes), tick);
    }
  }

  /** One turn moves the head of the queue behind the others. */
  lemma OneTurn<P>(q: seq<Entry<P>>, bytes: Bytes, tick: nat, i: nat)
    requires i < |q|
    ensures q[..i + 1] == q[..i] + [q[i]]
    ensures PassBytes(q[..i + 1], bytes) == BytesPast(q[i], PassBytes(q[..i], bytes))
    ensures q[i + 1..] + Pass(q[..i], bytes, tick) != [] || q[i].state != EXIT ==>
              Turn(q[i..] + Pass(q[..i], bytes, tick), PassBytes(q[..i], bytes), tick) ==
              q[i + 1..] + Pass(q[..i + 1], bytes, tick)
  {
    assert q[..i + 1] == q[..i] + [q[i]];
    PassAppend(q[..i], q[i], bytes, tick);
    var u := q[i..] + Pass(q[..i], bytes, tick);
    assert u[0] == q[i] && u[1..] == q[i + 1..] + Pass(q[..i], bytes, tick);
  }

  /** Passing only ever makes processes run, and only waiting ones. */
  lemma {:induction false} PassedFrom<P>(q: seq<Entry<P>>, bytes: Bytes, tick: nat, j: nat) returns (i: nat)
    requires j < |Pass(q, bytes, tick)|
    ensures i < |q| && q[i].state != EXIT
    ensures Pass(q, bytes, tick)[j] == q[i] || Pass(q, bytes, tick)[j] == q[i].(state := RUN)
  {
    if q[0].state != EXIT && j == 0 {
      i := 0;
    } else {
      var i' := PassedFrom(q[1..], BytesPast(q[0], bytes), tick, if q[0].state == EXIT then j else j - 1);
      i := i' + 1;
    }
  }

  /** A process that can run does run once the scan has passed the whole queue, or another one got its lock. */
  lemma {:induction false} ReadyRuns<P>(q: seq<Entry<P>>, bytes: Bytes, tick: nat)
    ensures Ready(q, bytes, tick) <==> HasRun(Pass(q, bytes, tick))
  {
    if q != [] {
      var rest, bytes' := q[1..], BytesPast(q[0], bytes);
      ReadyRuns(rest, bytes', tick);
      var p := Pass(q, bytes, tick);
      var here := q[0].state == RUN || Grantable(q[0], bytes) || Due(q[0], tick);
      if here {
        assert p[0].state == RUN;
      } else {
        assert bytes' == bytes;
        if Ready(q, bytes, tick) {
          var i: nat :| i < |q| && (q[i].state == RUN || Grantable(q[i], bytes) || Due(q[i], tick));
          assert rest[i - 1] == q[i];
        }
        if Ready(rest, bytes, tick) {
          var i: nat :| i < |rest| && (rest[i].state == RUN || Grantable(rest[i], bytes) || Due(rest[i], tick));
          assert q[i + 1] == rest[i];
        }
        RunsLater(q, p, Pass(rest, bytes, tick));
      }
    }
  }

  lemma RunsLater<P>(q: seq<Entry<P>>, p: seq<Entry<P>>, rest: seq<Entry<P>>)
    requires p == rest || (p != [] && p[0].state != RUN && p[1..] == rest)
    ensures HasRun(p) <==> HasRun(rest)
  {
  }

  /** Nothing left for the scan to do at an entry. */
  predicate Idle<P>(e: Entry<P>, bytes: Bytes, tick: nat) {
    e.state != EXIT && !Grantable(e, bytes) && !Due(e, tick)
  }

  /** After one pass, a second finds nothing to do. */
  lemma {:induction false} PassSettles<P>(q: seq<Entry<P>>, bytes: Bytes, tick: nat)
    ensures forall j: nat :: j < |Pass(q, bytes, tick)| ==> Idle(Pass(q, bytes, tick)[j], PassBytes(q, bytes), tick)
    ensures forall a: nat :: a in bytes && bytes[a] != 0 ==> a in PassBytes(q, bytes) && PassBytes(q, bytes)[a] != 0
    ensures forall a: nat :: a in PassBytes(q, bytes) ==> a in bytes
  {
    if q != [] {
      PassSettles(q[1..], BytesPast(q[0], bytes), tick);
    }
  }

  lemma {:induction false} PassIdle<P>(q: seq<Entry<P>>, bytes: Bytes, tick: nat)
    requires forall j: nat :: j < |q| ==> Idle(q[j], bytes, tick)
    ensures Pass(q, bytes, tick) == q && PassBytes(q, bytes) == bytes
  {
    if q != [] {
      assert forall j: nat :: j < |q[1..]| ==> q[1..][j] == q[j + 1];
      PassIdle(q[1..], bytes, tick);
    }
  }

  /** What is left of the queue once the scan has passed the processes before the first running one, or all of them if
      none runs; the head of it, or in the latter case the first that runs now, is where the scan stops. */
  function Remaining<P>(q: seq<Entry<P>>, bytes: Bytes, tick: nat): seq<Entry<P>> {
    q[FirstRun(q)..] + Pass(q[..FirstRun(q)], bytes, tick)
  }

  function Rotated<P>(q: seq<Entry<P>>, n: nat): seq<Entry<P>>
    requires n <= |q|
  {
    q[n..] + q[..n]
  }

  /** The ring after the scan, the process it stops at last, and the lock bytes. */
  function Switched<P>(q: seq<Entry<P>>, bytes: Bytes, tick: nat): seq<Entry<P>>
    requires HasRun(Remaining(q, bytes, tick))
  {
    var r := Remaining(q, bytes, tick);
    Rotated(r, FirstRun(r) + 1)
  }

  function SwitchedBytes<P>(q: seq<Entry<P>>, bytes: Bytes): Bytes {
    PassBytes(q[..FirstRun(q)], bytes)
  }

  lemma {:induction false} TurnsNext<P>(q: seq<Entry<P>>, bytes: Bytes, tick: nat, n: nat)
    requires q != []
    ensures var (u, b) := Turns(q, bytes, tick, n);
            Turns(q, bytes, tick, n + 1) == if u[0].state == RUN then (u, b) else (Turn(u, b, tick), BytesPast(u[0], b))
    decreases n
  {
    if n > 0 && q[0].state != RUN {
      TurnsNext(Turn(q, bytes, tick), BytesPast(q[0], bytes), tick, n - 1);
    }
  }

  /** The first round, as far as nothing runs. */
  lemma {:induction false} FirstRound<P>(q: seq<Entry<P>>, bytes: Bytes, tick: nat, i: nat)
    requires q != [] && i <= FirstRun(q) && (i < |q| || Pass(q, bytes, tick) != [])
    ensures Turns(q, bytes, tick, i) == (q[i..] + Pass(q[..i], bytes, tick), PassBytes(q[..i], bytes))
  {
    if i == 0 {
      assert q[0..] + Pass(q[..0], bytes, tick) == q;
    } else {
      hide Turns, FirstRun, Pass, PassBytes;
      FirstRound(q, bytes, tick, i - 1);
      NextInRound(q, bytes, tick, i - 1);
    }
  }

  lemma NextInRound<P>(q: seq<Entry<P>>, bytes: Bytes, tick: nat, i: nat)
    requires i < FirstRun(q) && (i + 1 < |q| || Pass(q, bytes, tick) != [])
    requires Turns(q, bytes, tick, i) == (q[i..] + Pass(q[..i], bytes, tick), PassBytes(q[..i], bytes))
    ensures Turns(q, bytes, tick, i + 1) == (q[i + 1..] + Pass(q[..i + 1], bytes, tick), PassBytes(q[..i + 1], bytes))
  {
    hide Turns, FirstRun, Pass, PassBytes;
    TurnsNext(q, bytes, tick, i);
    if i + 1 == |q| {
      assert q[..i] + [q[i]] == q;
      PassAppend(q[..i], q[i], bytes, tick);
    }
    OneTurn(q, bytes, tick, i);
    assert (q[i..] + Pass(q[..i], bytes, tick))[0] == q[i];
  }

  /** The second round: the settled processes before the one that runs are met again. */
  lemma {:induction false} SecondRound<P>(p: seq<Entry<P>>, bytes: Bytes, tick: nat, i: nat)
    requires i <= FirstRun(p) < |p| && forall j: nat :: j < |p| ==> Idle(p[j], bytes, tick)
    ensures Turns(p, bytes, tick, i) == (p[i..] + p[..i], bytes)
  {
    assert forall j: nat :: j < |p[..i]| ==> p[..i][j] == p[j];
    PassIdle(p[..i], bytes, tick);
    FirstRound(p, bytes, tick, i);
  }

  lemma {:induction false} TurnsAdd<P>(q: seq<Entry<P>>, bytes: Bytes, tick: nat, n: nat, m: nat)
    requires q != []
    ensures var (u, b) := Turns(q, bytes, tick, n);
            Turns(q, bytes, tick, n + m) == Turns(u, b, tick, m)
    decreases n
  {
    if n > 0 && q[0].state != RUN {
      TurnsAdd(Turn(q, bytes, tick), BytesPast(q[0], bytes), tick, n - 1, m);
    } else if n > 0 {
      Stopped(q, bytes, tick, n + m);
      Stopped(q, bytes, tick, m);
    }
  }

  lemma Stopped<P>(q: seq<Entry<P>>, bytes: Bytes, tick: nat, n: nat)
    requires q != [] && q[0].state == RUN
    ensures Turns(q, bytes, tick, n) == (q, bytes)
  {
  }

  /** How many turns the scan takes. */
  function Length<P>(q: seq<Entry<P>>, bytes: Bytes, tick: nat): nat {
    FirstRun(q) + FirstRun(Remaining(q, bytes, tick))
  }

  /** When some process can run, the scan ends within two rounds, with the ring and the lock bytes in closed form. */
  lemma ScanEnds<P>(q: seq<Entry<P>>, bytes: Bytes, tick: nat)
    requires Ready(q, bytes, tick)
    ensures q != [] && Length(q, bytes, tick) < 2 * |q| && HasRun(Remaining(q, bytes, tick))
    ensures var (u, b) := Turns(q, bytes, tick, Length(q, bytes, tick));
            u[0].state == RUN && Switched(q, bytes, tick) == u[1..] + [u[0]] && SwitchedBytes(q, bytes) == b
  {
    hide Turns, Pass, FirstRun, SwitchedBytes, Remaining;
    RemainingRuns(q, bytes, tick);
    BothRounds(q, bytes, tick);
    RotateOne(Remaining(q, bytes, tick), FirstRun(Remaining(q, bytes, tick)));
  }

  lemma RotateOne<P>(r: seq<Entry<P>>, m: nat)
    requires m < |r|
    ensures var u := Rotated(r, m);
            u[0] == r[m] && u[1..] + [u[0]] == Rotated(r, m + 1)
  {
    assert r[m..] == [r[m]] + r[m + 1..] && r[..m + 1] == r[..m] + [r[m]];
  }

  lemma RemainingRuns<P>(q: seq<Entry<P>>, bytes: Bytes, tick: nat)
    requires Ready(q, bytes, tick)
    ensures HasRun(Remaining(q, bytes, tick)) && |Remaining(q, bytes, tick)| <= |q|
    ensures HasRun(q) ==> FirstRun(Remaining(q, bytes, tick)) == 0
  {
    hide Pass;
    var k := FirstRun(q);
    var r := Remaining(q, bytes, tick);
    if k < |q| {
      assert r[0] == q[k];
    } else {
      assert q[..k] == q && r == Pass(q, bytes, tick);
      ReadyRuns(q, bytes, tick);
    }
  }

  lemma BothRounds<P>(q: seq<Entry<P>>, bytes: Bytes, tick: nat)
    requires Ready(q, bytes, tick) && HasRun(Remaining(q, bytes, tick))
    ensures q != []
    ensures var r := Remaining(q, bytes, tick);
            Turns(q, bytes, tick, Length(q, bytes, tick)) == (Rotated(r, FirstRun(r)), SwitchedBytes(q, bytes))
  {
    hide Turns, FirstRun, Pass, PassBytes;
    RemainingRuns(q, bytes, tick);
    if FirstRun(q) < |q| {
      FirstRound(q, bytes, tick, FirstRun(q));
      var r := Remaining(q, bytes, tick);
      assert Rotated(r, 0) == r;
    } else {
      AllPassed(q, bytes, tick);
    }
  }

  /** Nothing runs at first: the second round begins with all passed. */
  lemma AllPassed<P>(q: seq<Entry<P>>, bytes: Bytes, tick: nat)
    requires q != [] && FirstRun(q) == |q| && HasRun(Remaining(q, bytes, tick))
    ensures var r := Remaining(q, bytes, tick);
            Turns(q, bytes, tick, |q| + FirstRun(r)) == (Rotated(r, FirstRun(r)), SwitchedBytes(q, bytes))
  {
    hide Turns, FirstRun, Pass, PassBytes, Idle;
    var r := Remaining(q, bytes, tick);
    assert q[..|q|] == q && q[|q|..] + Pass(q, bytes, tick) == Pass(q, bytes, tick) == r;
    FirstRound(q, bytes, tick, |q|);
    PassSettles(q, bytes, tick);
    SecondRound(r, PassBytes(q, bytes), tick, FirstRun(r));
    TurnsAdd(q, bytes, tick, |q|, FirstRun(r));
  }

  /** When none can, it never ends. */
  lemma {:induction false} NeverEnds<P>(q: seq<Entry<P>>, bytes: Bytes, tick: nat, n: nat)
    requires q != [] && !Ready(q, bytes, tick)
    ensures Turns(q, bytes, tick, n).0[0].state != RUN
    decreases n
  {
    assert q[0].state != RUN;
    if n > 0 {
      var u := Turn(q, bytes, tick);
      assert !Grantable(q[0], bytes) && !Due(q[0], tick);
      forall i: nat | i < |u|
        ensures u[i].state != RUN && !Grantable(u[i], bytes) && !Due(u[i], tick)
      {
        assert u[i] == if q[0].state == EXIT && |q| == 1 then q[0] else if i + 1 < |q| then q[i + 1] else q[0];
      }
      NeverEnds(u, bytes, tick, n - 1);
    }
  }

  /** So: it ends exactly when some process can run. */
  lemma EndsExactly<P>(q: seq<Entry<P>>, bytes: Bytes, tick: nat)
    requires q != []
    ensures Ready(q, bytes, tick) <==> exists n: nat :: Turns(q, bytes, tick, n).0[0].state == RUN
  {
    if Ready(q, bytes, tick) {
      ScanEnds(q, bytes, tick);
      assert Turns(q, bytes, tick, Length(q, bytes, tick)).0[0].state == RUN;
    } else {
      forall n: nat
        ensures Turns(q, bytes, tick, n).0[0].state != RUN
      {
        NeverEnds(q, bytes, tick, n);
      }
    }
  }

  /** Is the process somewhere in the queue?  Is no process there twice? */
  ghost predicate On<P>(q: seq<Entry<P>>, p: P) {
    exists i: nat {:trigger q[i]} :: i < |q| && q[i].process == p
  }

  ghost predicate Once<P>(q: seq<Entry<P>>) {
    forall i: nat, j: nat {:trigger q[i], q[j]} :: i < j < |q| ==> q[i].process != q[j].process
  }

  /** Passing drops the dead and nobody else, and duplicates nobody. */
  lemma {:induction false} PassKeeps<P>(q: seq<Entry<P>>, bytes: Bytes, tick: nat, p: P)
    requires Once(q)
    ensures Once(Pass(q, bytes, tick))
    ensures On(Pass(q, bytes, tick), p) <==> exists i: nat {:trigger q[i]} :: i < |q| && q[i].process == p && q[i].state != EXIT
  {
    if q != [] {
      var rest, b := q[1..], BytesPast(q[0], bytes);
      var r := Pass(rest, b, tick);
      PassKeeps(rest, b, tick, p);
      var all := Pass(q, bytes, tick);
      assert q[0].state != EXIT ==> all[1..] == r;
      if On(r, q[0].process) {
        PassKeeps(rest, b, tick, q[0].process);
      }
      if i: nat :| i < |q| && q[i].process == p && q[i].state != EXIT {
        if i > 0 {
          assert rest[i - 1] == q[i];
          var j: nat :| j < |r| && r[j].process == p;
          assert all[if q[0].state == EXIT then j else j + 1] == r[j];
        } else {
          assert all[0].process == p;
        }
      }
    }
  }

  /** The processes a scan reaps: the dead it meets before it meets a running one. */
  ghost predicate Reaped<P>(q: seq<Entry<P>>, p: P) {
    exists i: nat {:trigger q[i]} :: i < FirstRun(q) && q[i].process == p && q[i].state == EXIT
  }

  lemma OnAppend<P>(a: seq<Entry<P>>, b: seq<Entry<P>>, p: P)
    ensures On(a + b, p) <==> On(a, p) || On(b, p)
  {
    var q := a + b;
    if i: nat :| i < |a| && a[i].process == p {
      assert q[i].process == p;
    }
    if i: nat :| i < |b| && b[i].process == p {
      assert q[|a| + i].process == p;
    }
    if i: nat :| i < |q| && q[i].process == p {
      assert if i < |a| then a[i].process == p else b[i - |a|].process == p;
    }
  }

  lemma OnceAppend<P>(a: seq<Entry<P>>, b: seq<Entry<P>>)
    ensures Once(a + b) <==> Once(a) && Once(b) && forall i: nat, j: nat :: i < |a| && j < |b| ==> a[i].process != b[j].process
    ensures Once(a + b) <==> Once(b + a)
  {
    OneOrder(a, b);
    OneOrder(b, a);
  }

  lemma OneOrder<P>(a: seq<Entry<P>>, b: seq<Entry<P>>)
    ensures Once(a + b) <==> Once(a) && Once(b) && forall i: nat, j: nat :: i < |a| && j < |b| ==> a[i].process != b[j].process
  {
    var q := a + b;
    if Once(q) {
      forall i: nat, j: nat | i < j < |a| ensures a[i].process != a[j].process { assert q[i] == a[i] && q[j] == a[j]; }
      forall i: nat, j: nat | i < j < |b| ensures b[i].process != b[j].process {
        assert q[|a| + i] == b[i] && q[|a| + j] == b[j];
      }
      forall i: nat, j: nat | i < |a| && j < |b| ensures a[i].process != b[j].process {
        assert q[i] == a[i] && q[|a| + j] == b[j];
      }
    }
  }

  /** The ring keeps every process it had, once, but for those reaped. */
  lemma SwitchedKeeps<P>(q: seq<Entry<P>>, bytes: Bytes, tick: nat, p: P)
    requires Once(q) && HasRun(Remaining(q, bytes, tick))
    ensures Once(Switched(q, bytes, tick))
    ensures On(Switched(q, bytes, tick), p) <==> On(q, p) && !Reaped(q, p)
  {
    hide FirstRun, On, Once, Reaped;
    var r := Remaining(q, bytes, tick);
    var m := FirstRun(r) + 1;
    RemainingKeeps(q, bytes, tick, p);
    assert r == r[..m] + r[m..];
    OnceAppend(r[..m], r[m..]);
    OnAppend(r[..m], r[m..], p);
    OnAppend(r[m..], r[..m], p);
  }

  lemma RemainingKeeps<P>(q: seq<Entry<P>>, bytes: Bytes, tick: nat, p: P)
    requires Once(q)
    ensures Once(Remaining(q, bytes, tick))
    ensures On(Remaining(q, bytes, tick), p) <==> On(q, p) && !Reaped(q, p)
  {
    hide FirstRun, Pass, On, Reaped;
    var k := FirstRun(q);
    var before, after := q[..k], q[k..];
    var passed := Pass(before, bytes, tick);
    assert q == before + after;
    OnceAppend(before, after);
    PassKeeps(before, bytes, tick, p);
    forall i: nat, j: nat | i < |after| && j < |passed|
      ensures after[i].process != passed[j].process
    {
      var j' := PassedFrom(before, bytes, tick, j);
    }
    hide Once;
    OnceAppend(after, passed);
    OnAppend(before, after, p);
    OnAppend(after, passed, p);
    ReapedOrNot(q, p);
  }

  lemma ReapedOrNot<P>(q: seq<Entry<P>>, p: P)
    requires Once(q)
    ensures var before, after := q[..FirstRun(q)], q[FirstRun(q)..];
            && (On(before, p) && !Reaped(q, p) <==>
                  exists i: nat {:trigger before[i]} :: i < |before| && before[i].process == p && before[i].state != EXIT)
            && (On(after, p) ==> !Reaped(q, p))
  {
    hide FirstRun;
    var before, after := q[..FirstRun(q)], q[FirstRun(q)..];
    assert forall i: nat :: i < |after| ==> after[i] == q[FirstRun(q) + i];
  }

  /** The process switched away from, last in the queue, is reaped in its own switch exactly when it has exited and no
      other process runs. */
  lemma ReapsPrevious<P>(q: seq<Entry<P>>)
    requires q != [] && Once(q)
    ensures Reaped(q, q[|q| - 1].process) <==> q[|q| - 1].state == EXIT && !HasRun(q)
  {
    var n := |q| - 1;
    if q[n].state == EXIT && !HasRun(q) {
      assert q[n].process == q[n].process;
    }
  }

  lemma RunsAtHead<P>(q: seq<Entry<P>>, bytes: Bytes, tick: nat)
    requires HasRun(q)
    ensures var r, k := Remaining(q, bytes, tick), FirstRun(q);
            && |r| >= |q| - k && FirstRun(r) == 0
            && forall i: nat {:trigger r[i]} :: i < |q| - k ==> r[i] == q[k + i]
  {
    hide Pass;
    var r := Remaining(q, bytes, tick);
    assert r[0] == q[FirstRun(q)];
  }

  lemma NotRotated<P>(r: seq<Entry<P>>)
    ensures Rotated(r, 0) == r
  {
  }

  /** A process the scan does not reach keeps its state and comes strictly closer; the one it stops at, if it ran
      before, is the first that ran. */
  lemma Closer<P>(q: seq<Entry<P>>, bytes: Bytes, tick: nat, j: nat)
    requires j < |q| && FirstRun(q) <= j
    ensures HasRun(Remaining(q, bytes, tick))
    ensures var r := Switched(q, bytes, tick);
            && |r| > 0 && r[|r| - 1] == q[FirstRun(q)]
            && (FirstRun(q) < j ==> j - FirstRun(q) - 1 < |r| - 1 && r[j - FirstRun(q) - 1] == q[j])
  {
    hide Pass, FirstRun, Remaining, Rotated;
    RunsAtHead(q, bytes, tick);
    RotateOne(Remaining(q, bytes, tick), 0);
    assert Rotated(Remaining(q, bytes, tick), 0) == Remaining(q, bytes, tick) by {
      NotRotated(Remaining(q, bytes, tick));
    }
  }

  /** Who comes after place i, round the ring. */
  function Round(n: nat, i: nat): (k: nat)
    requires i < n
    ensures k < n
  {
    if i + 1 < n then i + 1 else 0
  }

  ghost predicate Precedes<P>(q: seq<Entry<P>>, p: P, s: P) {
    exists i: nat {:trigger q[i]} :: i < |q| && q[i].process == p && q[Round(|q|, i)].process == s
  }

  lemma {:induction false} PassLast<P>(q: seq<Entry<P>>, bytes: Bytes, tick: nat)
    requires q != [] && q[|q| - 1].state != EXIT
    ensures Pass(q, bytes, tick) != []
    ensures Pass(q, bytes, tick)[|Pass(q, bytes, tick)| - 1].process == q[|q| - 1].process
  {
    var n := |q| - 1;
    assert q == q[..n] + [q[n]];
    PassAppend(q[..n], q[n], bytes, tick);
  }

  /** Two living neighbours stay neighbours when the scan passes them. */
  lemma {:induction false} PassPair<P>(q: seq<Entry<P>>, bytes: Bytes, tick: nat, i: nat) returns (j: nat)
    requires i + 1 < |q| && q[i].state != EXIT && q[i + 1].state != EXIT
    ensures j + 1 < |Pass(q, bytes, tick)|
    ensures Pass(q, bytes, tick)[j].process == q[i].process && Pass(q, bytes, tick)[j + 1].process == q[i + 1].process
  {
    if i == 0 {
      j := 0;
      assert Pass(q[1..], BytesPast(q[0], bytes), tick)[0].process == q[1].process;
    } else {
      var j' := PassPair(q[1..], BytesPast(q[0], bytes), tick, i - 1);
      j := if q[0].state == EXIT then j' else j' + 1;
    }
  }

  lemma PairAt<P>(r: seq<Entry<P>>, j: nat, p: P, s: P)
    requires j < |r| && r[j].process == p && r[Round(|r|, j)].process == s
    ensures Precedes(r, p, s)
  {
  }

  lemma RemainingPair<P>(q: seq<Entry<P>>, bytes: Bytes, tick: nat, i: nat)
    requires i < |q|
    requires i < FirstRun(q) ==> q[i].state != EXIT
    requires Round(|q|, i) < FirstRun(q) ==> q[Round(|q|, i)].state != EXIT
    ensures Precedes(Remaining(q, bytes, tick), q[i].process, q[Round(|q|, i)].process)
  {
    hide Pass, FirstRun, Precedes;
    var k := FirstRun(q);
    var before, after := q[..k], q[k..];
    var passed := Pass(before, bytes, tick);
    if k == 0 {
      PassNone<P>(bytes, tick);
      assert before == [] && after + passed == q;
      PairAt(q, i, q[i].process, q[Round(|q|, i)].process);
    } else if i + 1 < k {
      var j := PassPair(before, bytes, tick, i);
      PairAt(after + passed, |after| + j, q[i].process, q[i + 1].process);
    } else if i + 1 == k {
      SeamPair(q, bytes, tick, k);
    } else {
      BehindPair(q, bytes, tick, k, i);
    }
  }

  /** From the one the scan stops at on; the last of these comes before the first passed. */
  lemma BehindPair<P>(q: seq<Entry<P>>, bytes: Bytes, tick: nat, k: nat, i: nat)
    requires 0 < k <= i < |q| && (i + 1 == |q| ==> q[0].state != EXIT)
    ensures Precedes(q[k..] + Pass(q[..k], bytes, tick), q[i].process, q[Round(|q|, i)].process)
  {
    hide Pass, Precedes;
    var before, after := q[..k], q[k..];
    if i + 1 == |q| {
      PassFirst(before, bytes, tick);
    }
    PairAt(after + Pass(before, bytes, tick), i - k, q[i].process, q[Round(|q|, i)].process);
  }

  /** At the seam: the last process passed comes before the one the scan stops at, or before the first passed. */
  lemma SeamPair<P>(q: seq<Entry<P>>, bytes: Bytes, tick: nat, k: nat)
    requires 0 < k <= |q| && q[k - 1].state != EXIT && (k == |q| ==> q[0].state != EXIT)
    ensures Precedes(q[k..] + Pass(q[..k], bytes, tick), q[k - 1].process, q[Round(|q|, k - 1)].process)
  {
    hide Pass, Precedes;
    var before, after := q[..k], q[k..];
    var passed := Pass(before, bytes, tick);
    PassLast(before, bytes, tick);
    if k == |q| {
      PassFirst(before, bytes, tick);
    }
    PairAt(after + passed, |after| + |passed| - 1, q[k - 1].process, q[Round(|q|, k - 1)].process);
  }

  lemma PassNone<P>(bytes: Bytes, tick: nat)
    ensures Pass<P>([], bytes, tick) == []
  {
  }

  lemma PassFirst<P>(q: seq<Entry<P>>, bytes: Bytes, tick: nat)
    requires q != [] && q[0].state != EXIT
    ensures Pass(q, bytes, tick) != [] && Pass(q, bytes, tick)[0].process == q[0].process
  {
  }

  lemma RotatedPair<P>(r: seq<Entry<P>>, m: nat, p: P, s: P)
    requires m <= |r| && Precedes(r, p, s)
    ensures Precedes(Rotated(r, m), p, s)
  {
    var i: nat :| i < |r| && r[i].process == p && r[Round(|r|, i)].process == s;
    RotatedTo(r, m, i);
    RotatedTo(r, m, Round(|r|, i));
    hide Rotated, Precedes;
    PairAt(Rotated(r, m), To(|r|, m, i), p, s);
  }

  function To(n: nat, m: nat, i: nat): (j: nat)
    requires i < n && m <= n
    ensures j < n
  {
    if i >= m then i - m else n - m + i
  }

  lemma RotatedTo<P>(r: seq<Entry<P>>, m: nat, i: nat)
    requires i < |r| && m <= |r|
    ensures |Rotated(r, m)| == |r| && Rotated(r, m)[To(|r|, m, i)] == r[i]
    ensures To(|r|, m, Round(|r|, i)) == Round(|r|, To(|r|, m, i)) || m == |r| || m == 0
    ensures m == |r| || m == 0 ==> Rotated(r, m) == r
  {
  }

  /** A scan parts two neighbours on the ring only by reaping one of them. */
  lemma NeighboursStay<P>(q: seq<Entry<P>>, bytes: Bytes, tick: nat, p: P, s: P)
    requires HasRun(Remaining(q, bytes, tick)) && Precedes(q, p, s) && !Reaped(q, p) && !Reaped(q, s)
    ensures Precedes(Switched(q, bytes, tick), p, s)
  {
    hide FirstRun, Rotated, Remaining;
    var i: nat :| i < |q| && q[i].process == p && q[Round(|q|, i)].process == s;
    RemainingPair(q, bytes, tick, i);
    RotatedPair(Remaining(q, bytes, tick), FirstRun(Remaining(q, bytes, tick)) + 1, p, s);
  }

  /** A ring nothing can end: its only process waits for a lock that is held. */
  lemma StuckExample(n: nat)
    ensures Turns([Entry(0, LOCK, 7, 0)], map[7 := 1], 0, n).0[0].state != RUN
  {
    NeverEnds([Entry(0, LOCK, 7, 0)], map[7 := 1], 0, n);
  }

  /** Process 0 has exited, process 1 waits for a free lock: the scan frees process 0, which it switches away from. */
  lemma ReapedExample()
    ensures var q := [Entry(1, LOCK, 7, 0), Entry(0, EXIT, 0, 0)];
            && HasRun(Remaining(q, map[7 := 0], 0)) && Reaped(q, 0)
            && Switched(q, map[7 := 0], 0) == [Entry(1, RUN, 7, 0)]
  {
    var q := [Entry(1, LOCK, 7, 0), Entry(0, EXIT, 0, 0)];
    assert q[1].process == 0 && q[1..] == [Entry(0, EXIT, 0, 0)] && q[1..][1..] == [];
    assert FirstRun(q) == 2 && q[..2] == q && q[2..] == [];
    assert Pass(q[1..], map[7 := 1], 0) == [];
    assert Pass(q, map[7 := 0], 0) == [Entry(1, RUN, 7, 0)];
    var r := Remaining(q, map[7 := 0], 0);
    assert r == [Entry(1, RUN, 7, 0)] && FirstRun(r) == 0;
    assert r[1..] + r[..1] == r;
  }
}
