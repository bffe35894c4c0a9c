/** What kernel/mm/vmm.c does to the kernel map, on values. */
module Slots {
  import opened Basics
  import opened Pmm

  /** slot[i]: the frame mapped at slot i of the kernel map above the direct map (0: none); free: the free frames;
      owner: for each frame the kernel got for a slot, that slot.  A slot may also map a frame it does not own: a
      window onto a frame of an address space. */
  datatype Books = Books(slot: seq<nat>, free: set<nat>, owner: map<nat, nat>)

  /** The frames owned are usable memory, not free, and mapped where they are owned. */
  ghost predicate OwnersOk(b: Books, base: nat, pages: nat) {
    forall f: nat {:trigger f in b.owner} :: f in b.owner ==>
      base <= f < pages && f !in b.free && b.owner[f] < |b.slot| && b.slot[b.owner[f]] == f
  }

  /** Does slot i own the frame it maps? */
  ghost predicate Held(b: Books, i: nat) {
    i < |b.slot| && b.slot[i] in b.owner && b.owner[b.slot[i]] == i
  }

  ghost function Unmapped(slot: seq<nat>): (r: set<nat>)
    ensures forall i: nat :: i in r <==> i < |slot| && slot[i] == 0
  {
    UnmappedBelow(slot, |slot|)
  }

  ghost function UnmappedBelow(slot: seq<nat>, n: nat): (r: set<nat>)
    requires n <= |slot|
    ensures forall i: nat :: i in r <==> i < n && slot[i] == 0
  {
    if n == 0 then {} else UnmappedBelow(slot, n - 1) + if slot[n - 1] == 0 then {n - 1} else {}
  }

  lemma UnmappedAfterMap(slot: seq<nat>, i: nat, frame: nat)
    requires i < |slot| && slot[i] == 0 && frame != 0
    ensures Unmapped(slot[i := frame]) == Unmapped(slot) - {i}
  {
  }

  lemma UnmappedAll(slot: seq<nat>)
    requires forall i: nat :: i < |slot| ==> slot[i] == 0
    ensures |Unmapped(slot)| == |slot|
  {
    assert Unmapped(slot) == Run(0, |slot|);
  }

  /** The largest element. */
  ghost function Top(free: set<nat>): (t: nat)
    requires free != {}
    ensures t in free && forall g: nat :: g in free ==> g <= t
  {
    var x :| x in free;
    if free == {x} then x else
      var y := Top(free - {x});
      assert free == (free - {x}) + {x};
      if y > x then y else x
  }

  lemma TopIs(free: set<nat>, t: nat)
    requires t in free && forall g: nat :: g in free ==> g <= t
    ensures Top(free) == t
  {
  }

  /** n unmapped slots from `head` on get the n highest free frames, one after the other. */
  ghost function Backed(b: Books, head: nat, n: nat): (r: Books)
    requires head + n <= |b.slot| && n <= |b.free|
    ensures |r.slot| == |b.slot| && r.free <= b.free && |r.free| == |b.free| - n
  {
    if n == 0 then b else BackedOnce(Backed(b, head, n - 1), head + n - 1)
  }

  ghost function BackedOnce(b: Books, i: nat): (r: Books)
    requires i < |b.slot| && b.free != {}
    ensures |r.slot| == |b.slot| && r.free <= b.free && |r.free| == |b.free| - 1
  {
    var f := Top(b.free);
    Books(b.slot[i := f], b.free - {f}, b.owner[f := i])
  }

  lemma BackedSingle(b: Books, i: nat)
    requires i < |b.slot| && b.free != {}
    ensures |b.free| >= 1 && Backed(b, i, 1) == BackedOnce(b, i)
  {
    assert Backed(b, i, 0) == b;
  }

  /** The n slots from `head` on give their frames back. */
  ghost function Released(b: Books, head: nat, n: nat): (r: Books)
    requires head + n <= |b.slot|
    ensures |r.slot| == |b.slot|
  {
    if n == 0 then b else ReleasedOnce(Released(b, head, n - 1), head + n - 1)
  }

  ghost function ReleasedOnce(b: Books, i: nat): (r: Books)
    requires i < |b.slot|
    ensures |r.slot| == |b.slot|
  {
    Books(b.slot[i := 0], b.free + {b.slot[i]}, b.owner - {b.slot[i]})
  }

  /** Backing touches the run alone, and gives it distinct frames off the top of the free set. */
  lemma {:induction false} BackedRun(b: Books, head: nat, n: nat)
    requires head + n <= |b.slot| && n <= |b.free|
    ensures forall j: nat :: j < |b.slot| && !(head <= j < head + n) ==> Backed(b, head, n).slot[j] == b.slot[j]
    ensures forall j: nat :: head <= j < head + n ==>
              Backed(b, head, n).slot[j] in b.free && Backed(b, head, n).slot[j] !in Backed(b, head, n).free
    ensures forall j: nat, g: nat :: head <= j < head + n && g in Backed(b, head, n).free ==> g < Backed(b, head, n).slot[j]
    ensures forall j: nat, k: nat :: head <= j < k < head + n ==> Backed(b, head, n).slot[k] < Backed(b, head, n).slot[j]
  {
    if n > 0 {
      BackedRun(b, head, n - 1);
    }
  }

  /** Backing keeps the owners right. */
  lemma {:induction false} BackedOwnersOk(b: Books, head: nat, n: nat, base: nat, pages: nat)
    requires head + n <= |b.slot| && n <= |b.free|
    requires OwnersOk(b, base, pages) && 0 < base && forall f: nat :: f in b.free ==> base <= f < pages
    requires forall j: nat :: head <= j < head + n ==> b.slot[j] == 0
    ensures OwnersOk(Backed(b, head, n), base, pages)
  {
    if n > 0 {
      BackedOwnersOk(b, head, n - 1, base, pages);
      var a := Backed(b, head, n - 1);
      assert a.slot[head + n - 1] == 0 by {
        BackedRun(b, head, n - 1);
      }
      assert Top(a.free) in b.free;
    }
  }

  /** The frames taken, and only they, get an owner: the slot of the run they are mapped at. */
  lemma {:induction false} BackedOwners(b: Books, head: nat, n: nat)
    requires head + n <= |b.slot| && n <= |b.free|
    requires forall f: nat :: f in b.owner ==> f !in b.free
    ensures forall f: nat :: f in Backed(b, head, n).owner <==> f in b.owner || (f in b.free && f !in Backed(b, head, n).free)
    ensures forall f: nat :: f in b.owner ==> Backed(b, head, n).owner[f] == b.owner[f]
    ensures forall f: nat :: f in b.free && f !in Backed(b, head, n).free ==> head <= Backed(b, head, n).owner[f] < head + n
    ensures forall j: nat :: head <= j < head + n ==> Held(Backed(b, head, n), j)
  {
    if n > 0 {
      BackedOwners(b, head, n - 1);
      BackedRun(b, head, n - 1);
      forall j: nat | head <= j < head + n
        ensures Held(Backed(b, head, n), j)
      {
        assert j < head + n - 1 ==> Held(Backed(b, head, n - 1), j);
      }
    }
  }

  lemma BackedUnmapped(b: Books, head: nat, n: nat)
    requires head + n <= |b.slot| && n <= |b.free| && 0 !in b.free
    ensures Unmapped(Backed(b, head, n).slot) == Unmapped(b.slot) - Run(head, n)
  {
    hide Run, UnmappedBelow, Backed;
    BackedRun(b, head, n);
    assert forall i: nat :: head <= i < head + n ==> Backed(b, head, n).slot[i] != 0;
  }

  /** Every slot above `pos` is mapped. */
  ghost predicate AboveMapped(slot: seq<nat>, pos: nat) {
    pos < |slot| && forall i: nat :: pos < i < |slot| ==> slot[i] != 0
  }

  /** All the books at once, with vmm_pos lowered when the run ends there. */
  lemma BackedBooks(b: Books, head: nat, n: nat, pos: nat, base: nat, pages: nat)
    requires 0 < n <= |b.free| && head + n - 1 <= pos && (head + n - 1 == pos ==> head > 0)
    requires OwnersOk(b, base, pages) && AboveMapped(b.slot, pos) && 0 < base
    requires forall f: nat :: f in b.free ==> base <= f < pages
    requires forall j: nat :: head <= j < head + n ==> b.slot[j] == 0
    ensures OwnersOk(Backed(b, head, n), base, pages)
    ensures AboveMapped(Backed(b, head, n).slot, if head + n - 1 == pos then head - 1 else pos)
    ensures |Unmapped(Backed(b, head, n).slot)| == |Unmapped(b.slot)| - n
  {
    BackedOwnersOk(b, head, n, base, pages);
    BackedUnmapped(b, head, n);
    assert Run(head, n) <= Unmapped(b.slot);
    assert AboveMapped(Backed(b, head, n).slot, if head + n - 1 == pos then head - 1 else pos) by {
      BackedRun(b, head, n);
    }
  }

  /** Releasing unmaps the run alone. */
  lemma {:induction false} ReleasedRun(b: Books, head: nat, n: nat)
    requires head + n <= |b.slot|
    ensures forall j: nat :: j < |b.slot| ==> Released(b, head, n).slot[j] == if head <= j < head + n then 0 else b.slot[j]
  {
    if n > 0 {
      ReleasedRun(b, head, n - 1);
    }
  }

  /** Releasing held slots frees the frames they own and no other. */
  lemma {:induction false} ReleasedOwners(b: Books, head: nat, n: nat, base: nat, pages: nat)
    requires head + n <= |b.slot| && OwnersOk(b, base, pages)
    requires forall j: nat :: head <= j < head + n ==> Held(b, j)
    ensures OwnersOk(Released(b, head, n), base, pages)
    ensures forall f: nat :: f in Released(b, head, n).owner <==> f in b.owner && !(head <= b.owner[f] < head + n)
    ensures forall f: nat :: f in Released(b, head, n).owner ==> Released(b, head, n).owner[f] == b.owner[f]
    ensures forall f: nat :: f in Released(b, head, n).free <==> f in b.free || (f in b.owner && head <= b.owner[f] < head + n)
  {
    if n > 0 {
      ReleasedOwners(b, head, n - 1, base, pages);
      ReleasedRun(b, head, n - 1);
      assert Held(b, head + n - 1);
    }
  }

  /** All the books at once, with vmm_pos raised to the end of the run. */
  lemma ReleasedBooks(b: Books, head: nat, n: nat, pos: nat, base: nat, pages: nat)
    requires 0 < n && head + n <= |b.slot| && OwnersOk(b, base, pages) && AboveMapped(b.slot, pos) && 0 < base
    requires forall j: nat :: head <= j < head + n ==> Held(b, j)
    ensures OwnersOk(Released(b, head, n), base, pages)
    ensures AboveMapped(Released(b, head, n).slot, Max(head + n - 1, pos))
    ensures |Unmapped(Released(b, head, n).slot)| == |Unmapped(b.slot)| + n
  {
    hide Run, Unmapped, Released;
    ReleasedOwners(b, head, n, base, pages);
    forall j: nat | head <= j < head + n
      ensures b.slot[j] != 0
    {
      assert Held(b, j);
    }
    ReleasedUnmapped(b, head, n);
    ReleasedRun(b, head, n);
  }

  lemma ReleasedUnmapped(b: Books, head: nat, n: nat)
    requires head + n <= |b.slot|
    requires forall j: nat :: head <= j < head + n ==> b.slot[j] != 0
    ensures Unmapped(Released(b, head, n).slot) == Unmapped(b.slot) + Run(head, n)
    ensures Run(head, n) !! Unmapped(b.slot)
  {
    hide Run, UnmappedBelow, Released;
    ReleasedRun(b, head, n);
  }

  /** Backing and releasing the same unmapped run changes nothing, whichever frames were free. */
  lemma ReleaseUndoesBack(b: Books, head: nat, n: nat, base: nat, pages: nat)
    requires head + n <= |b.slot| && n <= |b.free|
    requires OwnersOk(b, base, pages) && 0 < base && forall f: nat :: f in b.free ==> base <= f < pages
    requires forall j: nat :: head <= j < head + n ==> b.slot[j] == 0
    ensures Released(Backed(b, head, n), head, n) == b
  {
    var a := Backed(b, head, n);
    var r := Released(a, head, n);
    assert r.slot == b.slot by {
      BackedRun(b, head, n);
      ReleasedRun(a, head, n);
    }
    assert r.owner == b.owner && r.free == b.free by {
      BackedOwners(b, head, n);
      BackedOwnersOk(b, head, n, base, pages);
      ReleasedOwners(a, head, n, base, pages);
      SameOwners(b, a, r, head, n);
    }
  }

  lemma SameOwners(b: Books, a: Books, r: Books, head: nat, n: nat)
    requires forall f: nat :: f in b.owner ==> f !in b.free && !(head <= b.owner[f] < head + n)
    requires a.free <= b.free
    requires forall f: nat :: f in a.owner <==> f in b.owner || (f in b.free && f !in a.free)
    requires forall f: nat :: f in b.owner ==> a.owner[f] == b.owner[f]
    requires forall f: nat :: f in b.free && f !in a.free ==> head <= a.owner[f] < head + n
    requires forall f: nat :: f in r.owner <==> f in a.owner && !(head <= a.owner[f] < head + n)
    requires forall f: nat :: f in r.owner ==> r.owner[f] == a.owner[f]
    requires forall f: nat :: f in r.free <==> f in a.free || (f in a.owner && head <= a.owner[f] < head + n)
    ensures r.owner == b.owner && r.free == b.free
  {
  }

  /** A run of unmapped slots has come to map something, with vmm_pos lowered when it ends there. */
  lemma FilledBooks(slot: seq<nat>, slot': seq<nat>, head: nat, n: nat, pos: nat)
    requires 0 < n && head + n - 1 <= pos && (head + n - 1 == pos ==> head > 0) && AboveMapped(slot, pos) && |slot'| == |slot|
    requires forall j: nat :: head <= j < head + n ==> slot[j] == 0 && slot'[j] != 0
    requires forall j: nat :: j < |slot| && !(head <= j < head + n) ==> slot'[j] == slot[j]
    ensures AboveMapped(slot', if head + n - 1 == pos then head - 1 else pos)
    ensures |Unmapped(slot')| == |Unmapped(slot)| - n
  {
    hide Run, UnmappedBelow;
    assert Unmapped(slot') == Unmapped(slot) - Run(head, n);
    assert Run(head, n) <= Unmapped(slot);
  }

  /** n slots from `head` on stop mapping what they map. */
  ghost function Cleared(slot: seq<nat>, head: nat, n: nat): (r: seq<nat>)
    requires head + n <= |slot|
    ensures |r| == |slot|
    ensures forall j: nat {:trigger r[j]} :: j < |slot| ==> r[j] == if head <= j < head + n then 0 else slot[j]
  {
    if n == 0 then slot else Cleared(slot, head, n - 1)[head + n - 1 := 0]
  }

  /** Closing windows: slots that own nothing are unmapped, no frame is freed. */
  lemma ClearedBooks(b: Books, head: nat, n: nat, pos: nat, base: nat, pages: nat)
    requires 0 < n && head + n <= |b.slot| && OwnersOk(b, base, pages) && AboveMapped(b.slot, pos)
    requires forall j: nat :: head <= j < head + n ==> b.slot[j] != 0 && !Held(b, j)
    ensures OwnersOk(b.(slot := Cleared(b.slot, head, n)), base, pages)
    ensures AboveMapped(Cleared(b.slot, head, n), Max(head + n - 1, pos))
    ensures |Unmapped(Cleared(b.slot, head, n))| == |Unmapped(b.slot)| + n
  {
    hide Cleared, Run, UnmappedBelow;
    assert OwnersOk(b.(slot := Cleared(b.slot, head, n)), base, pages) by {
      assert forall f: nat :: f in b.owner ==> Held(b, b.owner[f]) && !(head <= b.owner[f] < head + n);
    }
    ClearedUnmapped(b.slot, head, n);
  }

  /** Clearing anything else spoils the books. */
  lemma ClearedExactly(b: Books, head: nat, n: nat, pos: nat, base: nat, pages: nat)
    requires 0 < n && head + n <= |b.slot| && OwnersOk(b, base, pages) && AboveMapped(b.slot, pos) && 0 < base
    ensures AboveMapped(Cleared(b.slot, head, n), Max(head + n - 1, pos))
    ensures OwnersOk(b.(slot := Cleared(b.slot, head, n)), base, pages) && |Unmapped(Cleared(b.slot, head, n))| == |Unmapped(b.slot)| + n
            <==> forall j: nat :: head <= j < head + n ==> b.slot[j] != 0 && !Held(b, j)
  {
    hide Cleared, Run, UnmappedBelow;
    if j: nat :| head <= j < head + n && b.slot[j] == 0 {
      OneLess(b.slot, head, n, j);
    } else if j: nat :| head <= j < head + n && Held(b, j) {
      assert b.slot[j] in b.owner && Cleared(b.slot, head, n)[j] == 0;
    } else {
      ClearedBooks(b, head, n, pos, base, pages);
    }
  }

  /** An unmapped slot in the run is not unmapped anew. */
  lemma OneLess(slot: seq<nat>, head: nat, n: nat, j: nat)
    requires head <= j < head + n <= |slot| && slot[j] == 0
    ensures |Unmapped(Cleared(slot, head, n))| < |Unmapped(slot)| + n
  {
    hide Cleared, UnmappedBelow;
    assert Unmapped(Cleared(slot, head, n)) <= Unmapped(slot) + (Run(head, n) - {j});
    SubsetSize(Unmapped(Cleared(slot, head, n)), Unmapped(slot) + (Run(head, n) - {j}));
  }

  lemma ClearedUnmapped(slot: seq<nat>, head: nat, n: nat)
    requires head + n <= |slot| && forall j: nat :: head <= j < head + n ==> slot[j] != 0
    ensures Unmapped(Cleared(slot, head, n)) == Unmapped(slot) + Run(head, n)
    ensures |Unmapped(Cleared(slot, head, n))| == |Unmapped(slot)| + n
  {
    hide Cleared, UnmappedBelow;
    assert Unmapped(Cleared(slot, head, n)) == Unmapped(slot) + Run(head, n);
    assert Unmapped(slot) !! Run(head, n);
  }

  /** The frames pmm_alloc_page can still give: all free ones but the one at the lower search position. */
  ghost function Available(free: set<nat>, head: nat): nat {
    |free - {head}|
  }

  lemma AvailableAfter(was: set<nat>, now: set<nat>, head: nat, n: nat)
    requires now <= was && |now| == |was| - n && (head in was ==> head in now)
    ensures Available(was, head) == Available(now, head) + n
    ensures now <= {head} <==> Available(now, head) == 0
  {
    if head in was {
      assert was == (was - {head}) + {head};
      assert now == (now - {head}) + {head};
    } else {
      assert was == was - {head} && now == now - {head};
    }
    if now <= {head} {
      assert now - {head} == {};
    }
    if Available(now, head) == 0 {
      assert now - {head} == {};
    }
  }

  lemma NoneAvailable(free: set<nat>, edge: nat)
    ensures Available(free, edge) == 0 <==> free <= {edge}
  {
  }

  lemma AvailableLess(free: set<nat>, head: nat, f: nat)
    requires f in free && f != head
    ensures Available(free - {f}, head) == Available(free, head) - 1
  {
    assert free - {f} - {head} == (free - {head}) - {f};
  }

  /** Two free frames or more: one of them is not the one at `edge`. */
  lemma OneIsBelow(free: set<nat>, edge: nat)
    ensures |free| >= 2 ==> exists p: nat :: p in free && p != edge
    ensures free <= {edge} ==> |free| <= 1
  {
    if |free| >= 2 {
      assert free - {edge} != {} by {
        if free - {edge} == {} {
          assert free <= {edge};
          SubsetSize(free, {edge});
        }
      }
      var p: nat :| p in free - {edge};
    }
    if free <= {edge} {
      SubsetSize(free, {edge});
    }
  }

  lemma {:induction false} SubsetSize<T>(a: set<T>, b: set<T>)
    requires a <= b
    ensures |a| <= |b|
  {
    if a != {} {
      var x :| x in a;
      SubsetSize(a - {x}, b - {x});
    }
  }
}
