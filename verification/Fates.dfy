/** What a switch does to each process, said of the ring before and the ring after alone: an account of process_switch
    (kernel/process/process.c:24-60) that the scan is measured against. */
module Fates {
  import opened Scan

  /** No process up to place i runs, so the scan passes it. */
  ghost predicate Passes<P>(q: seq<Entry<P>>, i: nat) {
    i < |q| && forall j: nat :: j <= i ==> q[j].state != RUN
  }

  /** What becomes of the process at place i.  A sleeper runs once its time has come, and not before; of those that wait
      for a lock whose byte is 0 the first runs; a process that runs, or stands behind one that does, stays as it is. */
  ghost function Fate<P>(q: seq<Entry<P>>, bytes: Bytes, tick: nat, i: nat): Entry<P>
    requires i < |q|
  {
    var e := q[i];
    if !Passes(q, i) then e
    else if e.state == WAIT then
      if tick >= e.wake then Entry(e.process, RUN, e.lock, e.wake) else e
    else if e.state == LOCK then
      if e.lock in bytes && bytes[e.lock] == 0 && forall j: nat :: j < i ==> !(q[j].state == LOCK && q[j].lock == e.lock) then
        Entry(e.process, RUN, e.lock, e.wake)
      else e
    else e
  }

  /** The dead that are passed are gone. */
  ghost predicate Gone<P>(q: seq<Entry<P>>, i: nat) {
    Passes(q, i) && q[i].state == EXIT
  }

  /** The byte of a lock is taken when one of those passed waits for it. */
  ghost predicate Wanted<P>(q: seq<Entry<P>>, a: nat) {
    exists i: nat {:trigger q[i]} :: Passes(q, i) && q[i].state == LOCK && q[i].lock == a
  }

  lemma FateLater<P>(q: seq<Entry<P>>, bytes: Bytes, tick: nat, i: nat)
    requires 0 < i < |q| && q[0].state != RUN
    ensures Fate(q, bytes, tick, i) == Fate(q[1..], BytesPast(q[0], bytes), tick, i - 1)
  {
    var rest := q[1..];
    assert forall j: nat :: j < |rest| ==> rest[j] == q[j + 1];
    assert Passes(q, i) <==> Passes(rest, i - 1) by {
      assert forall j: nat :: 0 < j <= i ==> q[j] == rest[j - 1];
    }
    assert (forall j: nat :: j < i ==> !(q[j].state == LOCK && q[j].lock == q[i].lock)) <==>
           !(q[0].state == LOCK && q[0].lock == q[i].lock)
           && forall j: nat :: j < i - 1 ==> !(rest[j].state == LOCK && rest[j].lock == q[i].lock) by {
      assert forall j: nat :: 0 < j < i ==> q[j] == rest[j - 1];
    }
  }

  /** A pass over a queue in which nobody runs gives everybody his fate, in order. */
  lemma {:induction false} PassFates<P>(q: seq<Entry<P>>, bytes: Bytes, tick: nat, e: Entry<P>)
    requires forall j: nat :: j < |q| ==> q[j].state != RUN
    ensures e in Pass(q, bytes, tick) <==> exists i: nat :: i < |q| && q[i].state != EXIT && e == Fate(q, bytes, tick, i)
  {
    if q != [] {
      var rest, b := q[1..], BytesPast(q[0], bytes);
      assert forall j: nat :: j < |rest| ==> rest[j] == q[j + 1];
      PassFates(rest, b, tick, e);
      assert Passed(q[0], bytes, tick) == Fate(q, bytes, tick, 0);
      if i: nat :| i < |rest| && rest[i].state != EXIT && e == Fate(rest, b, tick, i) {
        FateLater(q, bytes, tick, i + 1);
        assert q[i + 1].state != EXIT && e == Fate(q, bytes, tick, i + 1);
      }
      if i: nat :| i < |q| && q[i].state != EXIT && e == Fate(q, bytes, tick, i) {
        if i > 0 {
          FateLater(q, bytes, tick, i);
          assert rest[i - 1].state != EXIT && e == Fate(rest, b, tick, i - 1);
        }
      }
    }
  }

  lemma FateBefore<P>(q: seq<Entry<P>>, bytes: Bytes, tick: nat, i: nat)
    requires i < |q|
    ensures i < FirstRun(q) <==> Passes(q, i)
    ensures i < FirstRun(q) ==> Fate(q, bytes, tick, i) == Fate(q[..FirstRun(q)], bytes, tick, i)
  {
    var k := FirstRun(q);
    hide FirstRun;
    if i < k {
      var before := q[..k];
      assert forall j: nat :: j < k ==> before[j] == q[j];
      assert Passes(before, i);
    }
  }

  /** The ring after a switch holds everybody with his fate, but for the dead that were passed. */
  lemma SwitchedFates<P>(q: seq<Entry<P>>, bytes: Bytes, tick: nat, e: Entry<P>)
    requires HasRun(Remaining(q, bytes, tick))
    ensures e in Switched(q, bytes, tick) <==> exists i: nat :: i < |q| && !Gone(q, i) && e == Fate(q, bytes, tick, i)
  {
    var k := FirstRun(q);
    var before := q[..k];
    var r := Remaining(q, bytes, tick);
    hide FirstRun, Pass, Passes, Rotated;
    PassFates(before, bytes, tick, e);
    assert e in Switched(q, bytes, tick) <==> e in r by {
      InRotated(r, FirstRun(r) + 1, e);
    }
    assert e in r <==> e in q[k..] || e in Pass(before, bytes, tick);
    if e in q[k..] {
      var i: nat :| i < |q[k..]| && q[k..][i] == e;
      FateBefore(q, bytes, tick, k + i);
      assert e == Fate(q, bytes, tick, k + i);
    }
    if i: nat :| i < |before| && before[i].state != EXIT && e == Fate(before, bytes, tick, i) {
      FateBefore(q, bytes, tick, i);
      assert !Gone(q, i) && e == Fate(q, bytes, tick, i);
    }
    if i: nat :| i < |q| && !Gone(q, i) && e == Fate(q, bytes, tick, i) {
      FateBefore(q, bytes, tick, i);
      if i < k {
        assert before[i] == q[i] && e == Fate(before, bytes, tick, i);
      } else {
        assert q[k..][i - k] == e;
      }
    }
  }

  lemma InRotated<P>(r: seq<Entry<P>>, n: nat, e: Entry<P>)
    requires n <= |r|
    ensures e in Rotated(r, n) <==> e in r
  {
    assert r == r[..n] + r[n..];
  }

  /** A byte that was 0 and is wanted is 1 afterwards, and no other byte changes. */
  lemma {:induction false} PassBytesFates<P>(q: seq<Entry<P>>, bytes: Bytes, a: nat)
    requires forall j: nat :: j < |q| ==> q[j].state != RUN
    ensures PassBytes(q, bytes).Keys == bytes.Keys
    ensures a in bytes ==> PassBytes(q, bytes)[a] == if bytes[a] == 0 && Wanted(q, a) then 1 else bytes[a]
  {
    if q != [] {
      var rest, b := q[1..], BytesPast(q[0], bytes);
      assert forall j: nat :: j < |rest| ==> rest[j] == q[j + 1];
      PassBytesFates(rest, b, a);
      assert Wanted(q, a) <==> (q[0].state == LOCK && q[0].lock == a) || Wanted(rest, a) by {
        if i: nat :| Passes(q, i) && q[i].state == LOCK && q[i].lock == a {
          assert i > 0 ==> Passes(rest, i - 1) && rest[i - 1] == q[i];
        }
        if i: nat :| Passes(rest, i) && rest[i].state == LOCK && rest[i].lock == a {
          assert forall j: nat :: 0 < j <= i + 1 ==> q[j] == rest[j - 1];
          assert Passes(q, i + 1) && q[i + 1] == rest[i];
        }
        if q[0].state == LOCK && q[0].lock == a {
          assert Passes(q, 0);
        }
      }
    }
  }

  lemma SwitchedBytesFates<P>(q: seq<Entry<P>>, bytes: Bytes, a: nat)
    ensures SwitchedBytes(q, bytes).Keys == bytes.Keys
    ensures a in bytes ==> SwitchedBytes(q, bytes)[a] == if bytes[a] == 0 && Wanted(q, a) then 1 else bytes[a]
  {
    var k := FirstRun(q);
    var before := q[..k];
    hide FirstRun, PassBytes;
    PassBytesFates(before, bytes, a);
    assert Wanted(q, a) <==> Wanted(before, a) by {
      if i: nat :| Passes(q, i) && q[i].state == LOCK && q[i].lock == a {
        FateBefore(q, bytes, 0, i);
        assert Passes(before, i) && before[i] == q[i];
      }
      if i: nat :| Passes(before, i) && before[i].state == LOCK && before[i].lock == a {
        assert q[i] == before[i];
        FateBefore(q, bytes, 0, i);
      }
    }
  }

  /** The process switched to is the first that runs ... */
  lemma RunsNext<P>(q: seq<Entry<P>>, bytes: Bytes, tick: nat, k: nat)
    requires k < |q| && q[k].state == RUN && forall j: nat :: j < k ==> q[j].state != RUN
    ensures HasRun(Remaining(q, bytes, tick)) && Switched(q, bytes, tick) != []
    ensures Switched(q, bytes, tick)[|Switched(q, bytes, tick)| - 1] == q[k]
  {
    hide Pass, Rotated;
    var r := Remaining(q, bytes, tick);
    assert FirstRun(q) == k && r[0] == q[k] && FirstRun(r) == 0;
    LastRotated(r, 0);
  }

  /** ... and where none does, the first that comes to run. */
  lemma WakesNext<P>(q: seq<Entry<P>>, bytes: Bytes, tick: nat, k: nat)
    requires (forall j: nat :: j < |q| ==> q[j].state != RUN) && k < |q| && Fate(q, bytes, tick, k).state == RUN
    requires forall j: nat :: j < k ==> Fate(q, bytes, tick, j).state != RUN
    ensures HasRun(Remaining(q, bytes, tick)) && Switched(q, bytes, tick) != []
    ensures Switched(q, bytes, tick)[|Switched(q, bytes, tick)| - 1] == Fate(q, bytes, tick, k)
  {
    assert FirstRun(q) == |q|;
    hide FirstRun, Pass, Fate, Rotated;
    var p := Pass(q, bytes, tick);
    assert q[..|q|] == q && q[|q|..] == [];
    assert Remaining(q, bytes, tick) == [] + p == p;
    FirstFate(q, bytes, tick, k);
    LastRotated(p, FirstRun(p));
  }

  lemma LastRotated<P>(r: seq<Entry<P>>, m: nat)
    requires m < |r|
    ensures |Rotated(r, m + 1)| == |r| && Rotated(r, m + 1)[|r| - 1] == r[m]
  {
  }

  lemma {:induction false} FirstFate<P>(q: seq<Entry<P>>, bytes: Bytes, tick: nat, k: nat)
    requires (forall j: nat :: j < |q| ==> q[j].state != RUN) && k < |q| && Fate(q, bytes, tick, k).state == RUN
    requires forall j: nat :: j < k ==> Fate(q, bytes, tick, j).state != RUN
    ensures HasRun(Pass(q, bytes, tick))
    ensures Pass(q, bytes, tick)[FirstRun(Pass(q, bytes, tick))] == Fate(q, bytes, tick, k)
  {
    var rest, b := q[1..], BytesPast(q[0], bytes);
    var p := Pass(q, bytes, tick);
    assert Passed(q[0], bytes, tick) == Fate(q, bytes, tick, 0);
    if k == 0 {
      assert p[0] == Fate(q, bytes, tick, 0);
    } else {
      assert forall j: nat :: j < |rest| ==> rest[j] == q[j + 1];
      FateLater(q, bytes, tick, k);
      forall j: nat | j < k - 1
        ensures Fate(rest, b, tick, j).state != RUN
      {
        FateLater(q, bytes, tick, j + 1);
      }
      FirstFate(rest, b, tick, k - 1);
      assert Fate(q, bytes, tick, 0).state != RUN;
      hide Fate, FirstRun, Passed, BytesPast;
      assert q[0].state != EXIT ==> p[0].state != RUN && p[1..] == Pass(rest, b, tick);
      SkipOne(p, Pass(rest, b, tick));
    }
  }

  lemma SkipOne<P>(p: seq<Entry<P>>, rest: seq<Entry<P>>)
    requires HasRun(rest) && (p == rest || (p != [] && p[0].state != RUN && p[1..] == rest))
    ensures HasRun(p) && p[FirstRun(p)] == rest[FirstRun(rest)]
  {
  }
}
