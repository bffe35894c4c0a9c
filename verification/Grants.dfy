/** Which locks a scan grants, and to whom. */
module Grants {
  import opened Scan

  /** A process of the ring, by its pid. */
  type Proc = Entry<nat>

  /** pid p was given the lock byte at a. */
  datatype Grant = Grant(p: nat, a: nat)

  /** The grants of a scan that passes the queue. */
  ghost function Granted(q: seq<Proc>, bytes: Bytes): set<Grant> {
    if q == [] then {} else
      (if Grantable(q[0], bytes) then {Grant(q[0].process, q[0].lock)} else {}) + Granted(q[1..], BytesPast(q[0], bytes))
  }

  /** What entry e0 may become: itself, or running, if it was given its lock or its time has come. */
  ghost predicate From(e: Proc, e0: Proc, grants: set<Grant>, tick: nat) {
    if e0.state == LOCK && Grant(e0.process, e0.lock) in grants then e == e0.(state := RUN)
    else e == e0 || (e0.state == WAIT && e0.wake <= tick && e == e0.(state := RUN))
  }

  ghost predicate AllFrom(r: seq<Proc>, q: seq<Proc>, grants: set<Grant>, tick: nat) {
    forall j: nat {:trigger r[j]} :: j < |r| ==> FromOne(r[j], q, grants, tick)
  }

  ghost predicate FromOne(e: Proc, q: seq<Proc>, grants: set<Grant>, tick: nat) {
    exists i: nat {:trigger q[i]} :: i < |q| && From(e, q[i], grants, tick)
  }

  ghost predicate Waited(q: seq<Proc>, g: Grant) {
    exists i: nat {:trigger q[i]} :: i < |q| && q[i].process == g.p && q[i].lock == g.a && q[i].state == LOCK
  }

  /** Whoever is given a lock waited for it; its byte was 0 and is 1 now; nobody else is given the same lock, and no
      other byte changes. */
  ghost predicate GrantsOk(q: seq<Proc>, bytes: Bytes, bytes': Bytes, grants: set<Grant>) {
    && bytes'.Keys == bytes.Keys
    && (forall a: nat {:trigger bytes'[a]} {:trigger bytes[a]} :: a in bytes ==>
          bytes'[a] == if exists p: nat :: Grant(p, a) in grants then 1 else bytes[a])
    && (forall g: Grant {:trigger g in grants} :: g in grants ==> g.a in bytes && bytes[g.a] == 0 && Waited(q, g))
    && (forall g: Grant, h: Grant {:trigger g in grants, h in grants} :: g in grants && h in grants && g.a == h.a ==> g == h)
  }

  /** However many waiters one scan meets. */
  lemma {:induction false} PassGrants(q: seq<Proc>, bytes: Bytes, tick: nat)
    requires Once(q)
    ensures GrantsOk(q, bytes, PassBytes(q, bytes), Granted(q, bytes))
    ensures AllFrom(Pass(q, bytes, tick), q, Granted(q, bytes), tick)
  {
    if q != [] {
      var rest, b := q[1..], BytesPast(q[0], bytes);
      assert forall i: nat :: i < |rest| ==> rest[i] == q[i + 1];
      PassGrants(rest, b, tick);
      GrantsMore(q, bytes);
      FromMore(q, bytes, tick);
    }
  }

  lemma GrantsMore(q: seq<Proc>, bytes: Bytes)
    requires q != [] && Once(q)
    requires var b := BytesPast(q[0], bytes); GrantsOk(q[1..], b, PassBytes(q[1..], b), Granted(q[1..], b))
    ensures GrantsOk(q, bytes, PassBytes(q, bytes), Granted(q, bytes))
  {
    var rest, b := q[1..], BytesPast(q[0], bytes);
    var grants, later := Granted(q, bytes), Granted(rest, b);
    forall g: Grant | g in grants
      ensures g.a in bytes && bytes[g.a] == 0 && Waited(q, g)
    {
      if g in later {
        WaitedMore(q, g);
      } else {
        assert Waited(q, g) by {
          assert q[0].process == g.p;
        }
      }
    }
    hide Waited;
    forall a: nat | a in bytes
      ensures PassBytes(q, bytes)[a] == if exists p: nat :: Grant(p, a) in grants then 1 else bytes[a]
    {
      if p: nat :| Grant(p, a) in later {
        assert Grant(p, a) in grants;
      } else if Grantable(q[0], bytes) && q[0].lock == a {
        assert Grant(q[0].process, a) in grants;
      }
    }
  }

  lemma WaitedMore(q: seq<Proc>, g: Grant)
    requires q != [] && Waited(q[1..], g)
    ensures Waited(q, g)
  {
    var i: nat :| i < |q[1..]| && q[1..][i].process == g.p && q[1..][i].lock == g.a && q[1..][i].state == LOCK;
    assert q[i + 1] == q[1..][i];
  }

  lemma FromMore(q: seq<Proc>, bytes: Bytes, tick: nat)
    requires q != [] && Once(q)
    requires var b := BytesPast(q[0], bytes);
             GrantsOk(q[1..], b, PassBytes(q[1..], b), Granted(q[1..], b)) && AllFrom(Pass(q[1..], b, tick), q[1..], Granted(q[1..], b), tick)
    ensures AllFrom(Pass(q, bytes, tick), q, Granted(q, bytes), tick)
  {
    var rest, b := q[1..], BytesPast(q[0], bytes);
    var grants, later := Granted(q, bytes), Granted(rest, b);
    var r, r' := Pass(q, bytes, tick), Pass(rest, b, tick);
    forall j: nat | j < |r|
      ensures FromOne(r[j], q, grants, tick)
    {
      var skip := if q[0].state == EXIT then 0 else 1;
      if j < skip {
        NotLater(q, later, q[0].process, q[0].lock);
        assert From(r[0], q[0], grants, tick);
      } else {
        assert r[j] == r'[j - skip];
        var i: nat :| i < |rest| && From(r'[j - skip], rest[i], later, tick);
        assert q[i + 1] == rest[i] && From(r[j], q[i + 1], grants, tick);
      }
    }
  }

  lemma NotLater(q: seq<Proc>, later: set<Grant>, p: nat, a: nat)
    requires q != [] && Once(q) && p == q[0].process
    requires forall g: Grant {:trigger g in later} :: g in later ==> Waited(q[1..], g)
    ensures Grant(p, a) !in later
  {
    assert forall i: nat :: i < |q[1..]| ==> q[1..][i].process == q[i + 1].process != p;
  }

  /** The grants of a whole scan. */
  ghost function SwitchGrants(q: seq<Proc>, bytes: Bytes): set<Grant> {
    Granted(q[..FirstRun(q)], bytes)
  }

  lemma SwitchOk(q: seq<Proc>, bytes: Bytes, tick: nat)
    requires Once(q) && HasRun(Remaining(q, bytes, tick))
    ensures GrantsOk(q, bytes, SwitchedBytes(q, bytes), SwitchGrants(q, bytes))
    ensures AllFrom(Switched(q, bytes, tick), q, SwitchGrants(q, bytes), tick)
  {
    hide FirstRun, Pass, PassBytes, Granted;
    var k := FirstRun(q);
    var before := q[..k];
    assert Once(before) by {
      assert q == before + q[k..];
      OnceAppend(before, q[k..]);
    }
    PassGrants(before, bytes, tick);
    BeforeOk(q, k, bytes, PassBytes(before, bytes), Granted(before, bytes));
    RemainingFrom(q, k, Pass(before, bytes, tick), bytes, PassBytes(before, bytes), Granted(before, bytes), tick);
    var r := Remaining(q, bytes, tick);
    RotatedFrom(r, q, FirstRun(r) + 1, Granted(before, bytes), tick);
  }

  lemma BeforeOk(q: seq<Proc>, k: nat, bytes: Bytes, bytes': Bytes, grants: set<Grant>)
    requires k <= |q| && GrantsOk(q[..k], bytes, bytes', grants)
    ensures GrantsOk(q, bytes, bytes', grants)
  {
    forall g: Grant | g in grants
      ensures Waited(q, g)
    {
      var i: nat :| i < |q[..k]| && q[..k][i].process == g.p && q[..k][i].lock == g.a && q[..k][i].state == LOCK;
      assert q[i] == q[..k][i];
    }
  }

  lemma RemainingFrom(q: seq<Proc>, k: nat, passed: seq<Proc>, bytes: Bytes, bytes': Bytes, grants: set<Grant>, tick: nat)
    requires k <= |q| && Once(q) && GrantsOk(q[..k], bytes, bytes', grants) && AllFrom(passed, q[..k], grants, tick)
    ensures AllFrom(q[k..] + passed, q, grants, tick)
  {
    var r := q[k..] + passed;
    forall j: nat | j < |r|
      ensures FromOne(r[j], q, grants, tick)
    {
      if j < |q| - k {
        assert r[j] == q[k + j] && From(r[j], q[k + j], grants, tick);
      } else {
        var i: nat :| i < k && From(passed[j - (|q| - k)], q[..k][i], grants, tick);
        assert From(r[j], q[i], grants, tick);
      }
    }
  }

  lemma RotatedFrom(r: seq<Proc>, q: seq<Proc>, n: nat, grants: set<Grant>, tick: nat)
    requires n <= |r| && AllFrom(r, q, grants, tick)
    ensures AllFrom(Rotated(r, n), q, grants, tick)
  {
    var s := Rotated(r, n);
    forall j: nat | j < |s|
      ensures FromOne(s[j], q, grants, tick)
    {
      var m := if j < |r| - n then n + j else j - (|r| - n);
      assert s[j] == r[m];
    }
  }
}
