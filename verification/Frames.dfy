/** Who has which frame, over every run of the two frame allocators and of pmm_free_page (kernel/mm/pmm.c). */
module Frames {
  import opened Page
  import opened Pmm

  /** `count` frames from `frame` on, given to one owner. */
  datatype Lease = Lease(frame: nat, count: nat)

  datatype Request = One | Up(count: nat) | Return(id: nat)

  /** The leases are runs of usable frames, and each of their frames is booked to exactly the lease it belongs to. */
  ghost predicate Booked(leases: map<nat, Lease>, owner: map<nat, nat>, base: nat, pages: nat, next: nat) {
    && (forall id: nat {:trigger id in leases} :: id in leases ==>
          id < next && 0 < leases[id].count && base <= leases[id].frame && leases[id].frame + leases[id].count <= pages)
    && (forall id: nat, f: nat {:trigger Has(owner, f, id), leases[id]} :: id in leases ==>
          (leases[id].frame <= f < leases[id].frame + leases[id].count <==> Has(owner, f, id)))
    && (forall f: nat {:trigger f in owner} :: f in owner ==> owner[f] in leases)
  }

  ghost predicate Has(owner: map<nat, nat>, f: nat, id: nat) {
    f in owner && owner[f] == id
  }

  /** So two leases have no frame in common. */
  lemma LeasesApart(leases: map<nat, Lease>, owner: map<nat, nat>, base: nat, pages: nat, next: nat, a: nat, b: nat)
    requires Booked(leases, owner, base, pages, next) && a in leases && b in leases && a != b
    ensures Run(leases[a].frame, leases[a].count) !! Run(leases[b].frame, leases[b].count)
  {
    forall f: nat | f in Run(leases[a].frame, leases[a].count)
      ensures f !in Run(leases[b].frame, leases[b].count)
    {
      assert Has(owner, f, a) && !Has(owner, f, b);
    }
  }

  function Assigned(owner: map<nat, nat>, frames: set<nat>, id: nat): map<nat, nat> {
    owner + map f: nat | f in frames :: id
  }

  lemma BookedMore(leases: map<nat, Lease>, owner: map<nat, nat>, base: nat, pages: nat, next: nat, l: Lease)
    requires Booked(leases, owner, base, pages, next)
    requires 0 < l.count && base <= l.frame && l.frame + l.count <= pages && Run(l.frame, l.count) !! owner.Keys
    ensures Booked(leases[next := l], Assigned(owner, Run(l.frame, l.count), next), base, pages, next + 1)
  {
    var leases', owner' := leases[next := l], Assigned(owner, Run(l.frame, l.count), next);
    forall id: nat, f: nat | id in leases'
      ensures leases'[id].frame <= f < leases'[id].frame + leases'[id].count <==> Has(owner', f, id)
    {
      assert id != next ==> (Has(owner, f, id) <==> leases[id].frame <= f < leases[id].frame + leases[id].count);
    }
  }

  lemma BookedLess(leases: map<nat, Lease>, owner: map<nat, nat>, base: nat, pages: nat, next: nat, id: nat, run: set<nat>)
    requires Booked(leases, owner, base, pages, next) && id in leases && run == Run(leases[id].frame, leases[id].count)
    ensures run <= owner.Keys
    ensures Booked(leases - {id}, owner - run, base, pages, next)
  {
    hide Run;
    var leases', owner' := leases - {id}, owner - run;
    forall f: nat
      ensures f in run ==> f in owner
      ensures f in owner' ==> owner'[f] in leases'
    {
      assert Has(owner, f, id) <==> f in run;
    }
    forall id': nat, f: nat | id' in leases'
      ensures leases'[id'].frame <= f < leases'[id'].frame + leases'[id'].count <==> Has(owner', f, id')
    {
      assert Has(owner, f, id') <==> leases[id'].frame <= f < leases[id'].frame + leases[id'].count;
      assert Has(owner, f, id) <==> f in run;
    }
  }

  lemma Moved(free: set<nat>, out: set<nat>, run: set<nat>)
    requires run <= out && free !! out
    ensures (free + run) + (out - run) == free + out && (free + run) !! (out - run) && run !! free
  {
  }

  class Clients {
    const pmm: FrameAllocator
    ghost const usable: set<nat>
    var leases: map<nat, Lease>
    var next: nat
    ghost var owner: map<nat, nat>

    /** Every usable frame is free or has one owner. */
    ghost predicate Valid()
      reads this, pmm, pmm.bitmap
    {
      && pmm.Valid() && Booked(leases, owner, pmm.base, pmm.pages, next)
      && usable == pmm.free + owner.Keys && pmm.free !! owner.Keys
    }

    constructor (pmm: FrameAllocator)
      requires pmm.Valid()
      ensures Valid() && this.pmm == pmm && leases == map[] && usable == pmm.free
    {
      this.pmm, leases, next, owner, usable := pmm, map[], 0, map[], pmm.free;
    }

    /** Frames that have just been taken get their owner. */
    method Book(frame: nat, count: nat, ghost was: set<nat>)
      requires pmm.Valid() && Booked(leases, owner, pmm.base, pmm.pages, next)
      requires 0 < count && pmm.base <= frame && frame + count <= pmm.pages
      requires usable == was + owner.Keys && was !! owner.Keys
      requires Run(frame, count) <= was && pmm.free == was - Run(frame, count)
      modifies this
      ensures Valid() && leases == old(leases)[old(next) := Lease(frame, count)] && next == old(next) + 1
    {
      hide Run, Booked, FrameAllocator.Valid;
      BookedMore(leases, owner, pmm.base, pmm.pages, next, Lease(frame, count));
      owner := Assigned(owner, Run(frame, count), next);
      leases := leases[next := Lease(frame, count)];
      next := next + 1;
    }

    method GiveBack(id: nat)
      requires Valid() && id in leases
      modifies this, pmm, pmm.bitmap
      ensures Valid() && leases == old(leases) - {id}
      ensures pmm.free == old(pmm.free) + Run(old(leases)[id].frame, old(leases)[id].count)
    {
      hide Run, FrameAllocator.Valid;
      var l := leases[id];
      assert pmm.base <= l.frame && l.frame + l.count <= pmm.pages && 0 < l.count;
      ghost var was := pmm.free;
      RunIsOut(id);
      hide Booked;
      ReturnRun(l);
      Unbook(id, was);
    }

    lemma RunIsOut(id: nat)
      requires Valid() && id in leases
      ensures Run(leases[id].frame, leases[id].count) !! pmm.free
    {
      hide Run, FrameAllocator.Valid;
      BookedLess(leases, owner, pmm.base, pmm.pages, next, id, Run(leases[id].frame, leases[id].count));
    }

    method Unbook(id: nat, ghost was: set<nat>)
      requires pmm.Valid() && Booked(leases, owner, pmm.base, pmm.pages, next) && id in leases
      requires usable == was + owner.Keys && was !! owner.Keys
      requires pmm.free == was + Run(leases[id].frame, leases[id].count)
      modifies this`owner, this`leases
      ensures Valid() && leases == old(leases) - {id}
    {
      hide Run, FrameAllocator.Valid, Booked;
      ghost var run, out := Run(leases[id].frame, leases[id].count), owner.Keys;
      BookedLess(leases, owner, pmm.base, pmm.pages, next, id, run);
      Moved(was, out, run);
      owner := owner - run;
      assert owner.Keys == out - run;
      leases := leases - {id};
    }

    method ReturnRun(l: Lease)
      requires pmm.Valid() && 0 < l.count && pmm.base <= l.frame && l.frame + l.count <= pmm.pages
      requires Run(l.frame, l.count) !! pmm.free
      modifies pmm, pmm.bitmap
      ensures pmm.Valid() && pmm.free == old(pmm.free) + Run(l.frame, l.count)
    {
      hide Run, Bounded, Clear;
      assert l.frame * 0x1000 / 0x1000 == l.frame;
      pmm.FreePage(l.frame * 0x1000, l.count);
    }

    /** One request; refused ones change nothing. */
    method Happen(r: Request)
      requires Valid()
      modifies this, pmm, pmm.bitmap
      ensures Valid()
    {
      hide Run, Booked, FrameAllocator.Valid, FreeRun;
      match r {
        case One =>
          ghost var was := pmm.free;
          var attr := pmm.AllocPage();
          if attr != 0 {
            assert Run(attr / 0x1000, 1) == {attr / 0x1000};
            Book(attr / 0x1000, 1, was);
          }
        case Up(count) =>
          if count > 0 {
            Take(count);
          }
        case Return(id) =>
          if id in leases {
            GiveBack(id);
          }
      }
    }

    method Take(count: nat)
      requires Valid() && count > 0
      modifies this, pmm, pmm.bitmap
      ensures Valid()
    {
      assert pmm.base > 0;
      hide Booked, FrameAllocator.Valid;
      ghost var was := pmm.free;
      var attr := pmm.UpAllocPage(count);
      if attr != 0 {
        assert Run(attr / 0x1000, count) <= was && attr / 0x1000 in Run(attr / 0x1000, count);
        Book(attr / 0x1000, count, was);
      }
    }

    /** Over any run of requests every usable frame stays free or with its one owner. */
    method Serve(run: seq<Request>)
      requires Valid()
      modifies this, pmm, pmm.bitmap
      ensures Valid()
    {
      for i := 0 to |run|
        invariant Valid()
      {
        Happen(run[i]);
      }
    }
  }
}
