/** User address spaces, kernel/mm/umm.c.  A directory is known by its frame (the kernel reaches frames of the direct
    map at their own address); 0 is NULL. */
module Umm {
  import opened Page
  import opened Pmm
  import opened Kmm
  import opened Search
  import opened Slots
  import opened Vmm
  import opened Spaces

  const PAGE_OFFSET: word := 0xc000_0000

  /** What can happen to address spaces: one is made, one of the live ones faults, one of them ends. */
  datatype Event = Create | Fault(which: nat, attr: word) | End(which: nat)

  /** How many pages the bytes attr, ..., attr + len - 1 touch. */
  function PageCount(attr: word, len: nat): nat {
    (attr % 0x1000 + len + 0xfff) / 0x1000
  }

  lemma PageSplit(attr: word, len: nat)
    ensures FrameOf(GetPageAttr(attr)) == FrameOf(attr)
    ensures (attr + len - GetPageAttr(attr) + 0xfff) / 0x1000 == PageCount(attr, len)
    ensures 0 < len && attr + len <= 0x1_0000_0000 ==> FrameOf(attr) + PageCount(attr, len) == FrameOf(attr + len - 1) + 1
    ensures 0 < len && attr + len <= PAGE_OFFSET ==> FrameOf(attr) + PageCount(attr, len) <= USER_PAGES
  {
  }

  lemma PageCountPositive(attr: word, len: nat)
    requires 0 < len
    ensures PageCount(attr, len) > 0
  {
  }

  /** Pointers with the same offset in their pages count the same pages. */
  lemma SameCount(r: word, attr: word, len: nat)
    requires r % 0x1000 == attr % 0x1000
    ensures PageCount(r, len) == PageCount(attr, len) && FrameOf(GetPageAttr(r)) == FrameOf(r)
    ensures FrameOf(r) + PageCount(attr, len) <= GLOBL_PAGE_NUM ==> r + len < 0x1_0000_0000
  {
  }

  lemma Offset(p: word, attr: word)
    requires p % 0x1000 == 0
    ensures p <= p + (attr - GetPageAttr(attr)) < 0x1_0000_0000
    ensures GetPageAttr(p + (attr - GetPageAttr(attr))) == p
    ensures (p + (attr - GetPageAttr(attr))) % 0x1000 == attr % 0x1000
  {
    assert p == p / 0x1000 * 0x1000 && p <= 0xffff_f000;
    assert (p + attr % 0x1000) % 0x1000 == attr % 0x1000;
  }

  class AddressSpaces {
    const vmm: PageAllocator
    ghost const kernel: seq<word>   // what kernel_mmap_pde holds
    var mem: Memory                 // physical memory
    ghost var use: map<nat, Use>    // the frames of all address spaces

    /** No frame of an address space is free, or owned by a slot of the kernel map. */
    ghost predicate Apart()
      reads this, vmm, vmm.pmm
    {
      forall f: nat {:trigger f in use} :: f in use ==> vmm.pmm.base <= f < vmm.pmm.pages && f !in vmm.pmm.free && f !in vmm.owner
    }

    ghost predicate Tables()
      reads this, vmm, vmm.pmm
    {
      Sized(mem, vmm.pmm.pages) && TablesOk(mem, use) && KernelShared(mem, use, kernel)
    }

    ghost predicate Valid()
      reads this, vmm, vmm.kmm, vmm.kmm.entries, vmm.kmm.directory, vmm.pmm, vmm.pmm.bitmap
    {
      Core() && vmm.Valid()
    }

    ghost predicate Core()
      reads this, vmm, vmm.kmm, vmm.kmm.entries, vmm.kmm.directory, vmm.pmm, vmm.pmm.bitmap
    {
      && vmm.Sound() && Apart() && Tables() && PagesOk(mem, use)
      && vmm.kmm.directory as object != vmm.pmm.bitmap
      && vmm.kmm.directory[..] == kernel && |kernel| == 0x400
      && forall m: nat :: m < KERNEL_PDE ==> kernel[m] == 0
    }

    constructor (vmm: PageAllocator, mem: Memory)
      requires vmm.Valid() && Sized(mem, vmm.pmm.pages)
      requires vmm.kmm.directory as object != vmm.pmm.bitmap
      requires forall m: nat :: m < KERNEL_PDE ==> vmm.kmm.directory[m] == 0
      ensures Valid() && this.vmm == vmm && this.mem == mem && use == map[]
    {
      hide PageAllocator.Flagged, FrameAllocator.Coherent, OwnersOk;
      this.vmm := vmm;
      this.kernel := vmm.kmm.directory[..];
      this.mem := mem;
      use := map[];
    }

    /** A frame for a directory or a table: dmm_alloc_page(1). */
    method TakeFrame() returns (f: nat)
      requires vmm.Sound() && Apart()
      modifies vmm.pmm, vmm.pmm.bitmap
      ensures vmm.Sound() && Apart()
      ensures f == 0 <==> forall p: nat :: p in old(vmm.pmm.free) && p < vmm.dmmap ==> p >= old(vmm.pmm.tail)
      ensures f == 0 ==> vmm.pmm.free == old(vmm.pmm.free)
      ensures f != 0 ==> f in old(vmm.pmm.free) && f < vmm.dmmap && vmm.pmm.free == old(vmm.pmm.free) - {f}
      ensures f != 0 ==> forall p: nat :: p in old(vmm.pmm.free) ==> f <= p
      ensures f != 0 ==> f !in use && f !in vmm.owner && vmm.pmm.base <= f < vmm.pmm.pages
    {
      hide Run, KernelMap.Valid;
      var attr := vmm.DmmAllocPage(1);
      f := attr / 0x1000;
      assert forall p: nat :: FreeRun(old(vmm.pmm.free), p, 1) <==> p in old(vmm.pmm.free);
      if f != 0 {
        assert Run(f, 1) == {f};
        forall p: nat | p in old(vmm.pmm.free)
          ensures f <= p
        {
          assert FreeRun(old(vmm.pmm.free), p, 1);
        }
      }
    }

    /** The branch of set_umm_value that makes a table: a zeroed frame, entered in the directory. */
    method MakeTable(d: nat, m: nat) returns (t: nat)
      requires vmm.Sound() && Apart() && Tables() && IsDir(use, d) && m < KERNEL_PDE && Word(mem, d, m) == 0
      modifies this, vmm.pmm, vmm.pmm.bitmap
      ensures vmm.Sound() && Apart() && Tables()
      ensures t == 0 <==> forall p: nat :: p in old(vmm.pmm.free) && p < vmm.dmmap ==> p >= old(vmm.pmm.tail)
      ensures t == 0 ==> mem == old(mem) && use == old(use) && vmm.pmm.free == old(vmm.pmm.free)
      ensures t != 0 ==> t in old(vmm.pmm.free) && vmm.pmm.free == old(vmm.pmm.free) - {t}
      ensures t != 0 ==> t !in old(use) && use == NewUse(old(use), d, m, t) && Word(mem, d, m) == t * 0x1000 + 7
      ensures SameEntries(old(mem), mem, old(use), d, m)
      ensures forall d': nat, n: nat :: IsDir(old(use), d') && n < USER_PAGES ==> Flat(mem, d', n) == Flat(old(mem), d', n)
    {
      t := TakeFrame();
      if t != 0 {
        FillTable(d, m, t);
      }
    }

    method FillTable(d: nat, m: nat, t: nat)
      requires Tables() && IsDir(use, d) && m < KERNEL_PDE && Word(mem, d, m) == 0
      requires t !in use && 0 < t < vmm.pmm.pages <= 0x100000
      modifies this
      ensures Tables() && use == NewUse(old(use), d, m, t) && FrameOf(Word(mem, d, m)) == t
      ensures SameEntries(old(mem), mem, old(use), d, m)
      ensures forall d': nat, n: nat :: IsDir(old(use), d') && n < USER_PAGES ==> Flat(mem, d', n) == Flat(old(mem), d', n)
    {
      hide Zeroed;
      NewTableOk(mem, use, d, m, t);
      ghost var was := mem;
      ZeroedNext(was, t, 0);
      for i := 0 to 0x400
        invariant mem == Zeroed(was, t, i) && use == old(use)
      {
        ZeroedNext(was, t, i);
        mem := Store(mem, t, i, 0);
      }
      mem := Store(mem, d, m, SetPage(AddrOf(t), USER_ENTRY));
      use := use[t := Table(d, m)];
    }

    /** set_umm_value: 1 when page FrameOf(attr) of the address space now has entry v; every other page of every
        address space keeps its entry, even when a table had to be made. */
    method SetValue(attr: word, v: word, d: nat) returns (ok: word)
      requires vmm.Sound() && Apart() && Tables() && IsDir(use, d)
      modifies this, vmm.pmm, vmm.pmm.bitmap
      ensures vmm.Sound() && Apart() && Tables() && ok <= 1
      ensures ok == 0 <==>
              attr >= PAGE_OFFSET || (Word(old(mem), d, PdeIndex(attr)) == 0
                && forall p: nat :: p in old(vmm.pmm.free) && p < vmm.dmmap ==> p >= old(vmm.pmm.tail))
      ensures ok == 0 ==> mem == old(mem) && use == old(use) && vmm.pmm.free == old(vmm.pmm.free)
      ensures ok == 1 ==> forall d': nat, n: nat :: IsDir(old(use), d') && n < USER_PAGES ==>
                Flat(mem, d', n) == if d' == d && n == FrameOf(attr) then v else Flat(old(mem), d', n)
      ensures SameEntries(old(mem), mem, old(use), d, PdeIndex(attr))
      ensures ok == 1 ==> Word(mem, d, PdeIndex(attr)) != 0
      ensures ok == 1 && Word(old(mem), d, PdeIndex(attr)) != 0 ==>
                use == old(use) && vmm.pmm.free == old(vmm.pmm.free) && vmm.pmm.head == old(vmm.pmm.head)
      ensures ok == 1 && Word(old(mem), d, PdeIndex(attr)) == 0 ==>
                var t := FrameOf(Word(mem, d, PdeIndex(attr)));
                && t in old(vmm.pmm.free) && t !in old(use) && vmm.pmm.free == old(vmm.pmm.free) - {t}
                && use == NewUse(old(use), d, PdeIndex(attr), t)
    {
      if attr >= PAGE_OFFSET {
        return 0;
      }
      var t := 0;
      if GetPageAttr(Word(mem, d, PdeIndex(attr))) == 0 {
        t := MakeTable(d, PdeIndex(attr));
        if t == 0 {
          return 0;
        }
      } else {
        t := FrameOf(Word(mem, d, PdeIndex(attr)));
      }
      StoreEntry(attr, v, d, t);
      return 1;
    }

    /** The last step of set_umm_value. */
    method StoreEntry(attr: word, v: word, d: nat, t: nat)
      requires Tables() && IsDir(use, d) && attr < PAGE_OFFSET
      requires Word(mem, d, PdeIndex(attr)) != 0 && t == FrameOf(Word(mem, d, PdeIndex(attr)))
      modifies this`mem
      ensures Tables()
      ensures FrameOf(Word(mem, d, PdeIndex(attr))) == t && Word(mem, d, PdeIndex(attr)) != 0
      ensures SameEntries(old(mem), mem, use, d, PdeIndex(attr))
      ensures forall d': nat, n: nat :: IsDir(use, d') && n < USER_PAGES ==>
                Flat(mem, d', n) == if d' == d && n == FrameOf(attr) then v else Flat(old(mem), d', n)
    {
      StoreOk(mem, use, d, FrameOf(attr), v);
      mem := Store(mem, t, PteIndex(attr), v);
    }

    /** umm_alloc_pde: a directory with no user page and the kernel's entries. */
    method AllocPde() returns (d: nat)
      requires Core()
      modifies this, vmm.pmm, vmm.pmm.bitmap
      ensures Core()
      ensures d == 0 <==> forall p: nat :: p in old(vmm.pmm.free) && p < vmm.dmmap ==> p >= old(vmm.pmm.tail)
      ensures d == 0 ==> mem == old(mem) && use == old(use) && vmm.pmm.free == old(vmm.pmm.free)
      ensures d != 0 ==> d !in old(use) && use == old(use)[d := Directory(d)]
      ensures d != 0 ==> d in old(vmm.pmm.free) && vmm.pmm.free == old(vmm.pmm.free) - {d}
      ensures d != 0 ==> forall p: nat :: p in old(vmm.pmm.free) ==> d <= p
      ensures d != 0 ==> forall n: nat :: n < USER_PAGES ==> Flat(mem, d, n) == 0
      ensures d != 0 ==> forall m: nat :: m < KERNEL_PDE ==> Word(mem, d, m) == 0
      ensures forall d': nat, n: nat :: IsDir(old(use), d') && n < USER_PAGES ==> Flat(mem, d', n) == Flat(old(mem), d', n)
    {
      d := TakeFrame();
      if d != 0 {
        CopyKernel(d);
      }
    }

    method CopyKernel(d: nat)
      requires Tables() && PagesOk(mem, use) && d !in use && 0 < d < vmm.pmm.pages <= 0x100000
      requires vmm.kmm.directory[..] == kernel && |kernel| == 0x400 && forall m: nat :: m < KERNEL_PDE ==> kernel[m] == 0
      modifies this
      ensures Tables() && PagesOk(mem, use) && use == old(use)[d := Directory(d)]
      ensures forall n: nat :: n < USER_PAGES ==> Flat(mem, d, n) == 0
      ensures forall m: nat :: m < KERNEL_PDE ==> Word(mem, d, m) == 0
      ensures forall d': nat, n: nat :: IsDir(old(use), d') && n < USER_PAGES ==> Flat(mem, d', n) == Flat(old(mem), d', n)
    {
      NewDirectoryOk(mem, use, d, kernel);
      ghost var was := mem;
      CopiedNext(was, d, kernel, 0);
      for i := 0 to 0x400
        invariant mem == Copied(was, d, kernel, i) && use == old(use)
      {
        CopiedNext(was, d, kernel, i);
        mem := Store(mem, d, i, vmm.kmm.directory[i]);
      }
      use := use[d := Directory(d)];
    }

    /** Frame f is out, and nobody's yet. */
    ghost predicate InHand(f: nat)
      reads this, vmm, vmm.pmm
    {
      vmm.pmm.base <= f < vmm.pmm.pages && f !in use && f !in vmm.pmm.free && f !in vmm.owner
    }

    /** Has page FrameOf(attr) no frame yet?  (There is none at a kernel address.) */
    ghost predicate Vacant(d: nat, attr: word)
      reads this
    {
      attr < PAGE_OFFSET ==> FrameOf(Flat(mem, d, FrameOf(attr))) == 0
    }

    lemma MappedHasTable(mem: Memory, d: nat, attr: word)
      requires attr < PAGE_OFFSET && FrameOf(Flat(mem, d, FrameOf(attr))) != 0
      ensures Word(mem, d, PdeIndex(attr)) != 0
    {
    }

    /** A frame that is out and in the account of a space, and mapped by no page: umm_free will not find it. */
    ghost predicate Lost(f: nat)
      reads this, vmm, vmm.pmm
    {
      && f in use && f !in vmm.pmm.free && !PagesOk(mem, use)
      && forall d: nat, n: nat {:trigger Flat(mem, d, n)} :: IsDir(use, d) && n < USER_PAGES ==> FrameOf(Flat(mem, d, n)) != f
    }

    /** The second half of umm_handler: the frame in hand is entered for the page.  A page that had a frame loses it. */
    method EnterFrame(d: nat, attr: word, f: nat) returns (ok: word)
      requires Core() && IsDir(use, d) && InHand(f)
      modifies this, vmm.pmm, vmm.pmm.bitmap
      ensures ok <= 1 && vmm.Sound() && Apart() && (ok == 0 || old(Vacant(d, attr)) ==> Core())
      ensures ok == 0 ==> mem == old(mem) && use == old(use) && vmm.pmm.free == old(vmm.pmm.free)
      ensures ok == 1 ==> attr < PAGE_OFFSET && FrameOf(Flat(mem, d, FrameOf(attr))) == f
      ensures ok == 1 ==> Flat(mem, d, FrameOf(attr)) == f * 0x1000 + 7
      ensures ok == 1 ==> SameEntries(old(mem), mem, old(use), d, PdeIndex(attr)) && Word(mem, d, PdeIndex(attr)) != 0
      ensures ok == 1 ==>
                |vmm.pmm.free| == |old(vmm.pmm.free)| - if Word(old(mem), d, PdeIndex(attr)) == 0 then 1 else 0
      ensures ok == 1 && old(Vacant(d, attr)) ==>
                Grown(old(use), use, old(vmm.pmm.free) + {f}, vmm.pmm.free, d) && f in use.Keys - old(use).Keys
      ensures ok == 1 && !old(Vacant(d, attr)) ==>
                use == old(use) && vmm.pmm.free == old(vmm.pmm.free) && Lost(FrameOf(Flat(old(mem), d, FrameOf(attr))))
      ensures forall d': nat, n: nat :: IsDir(old(use), d') && n < USER_PAGES && (d' != d || n != FrameOf(attr)) ==>
                Flat(mem, d', n) == Flat(old(mem), d', n)
      ensures ok == 0 <==>
              attr >= PAGE_OFFSET || (Word(old(mem), d, PdeIndex(attr)) == 0
                && forall p: nat :: p in old(vmm.pmm.free) && p < vmm.dmmap ==> p >= old(vmm.pmm.tail))
      ensures ok == 1 && Word(old(mem), d, PdeIndex(attr)) != 0 ==>
                vmm.pmm.free == old(vmm.pmm.free) && vmm.pmm.head == old(vmm.pmm.head)
    {
      hide Flat, TablesOk, PagesOk, Sized, KernelShared, Grown, KernelMap.Valid, SetPage;
      EntryKeepsFrame(f, USER_ENTRY);
      assert PdeIndex(attr) == FrameOf(attr) / 0x400;
      ok := SetValue(attr, SetPage(AddrOf(f), USER_ENTRY), d);
      if ok == 1 {
        ghost var t := FrameOf(Word(mem, d, PdeIndex(attr)));
        if old(Vacant(d, attr)) {
          GrownByFault(old(use), use, old(vmm.pmm.free), vmm.pmm.free, d, FrameOf(attr), f, t);
          Label(d, FrameOf(attr), f, t, old(mem), old(use));
        } else {
          MappedHasTable(old(mem), d, attr);
          NowLost(d, FrameOf(attr), SetPage(AddrOf(f), USER_ENTRY), old(mem));
        }
      }
    }

    /** The frame a page had before another one was entered. */
    lemma NowLost(d: nat, n: nat, v: word, mem0: Memory)
      requires Apart() && PagesOk(mem0, use) && IsDir(use, d) && n < USER_PAGES && FrameOf(Flat(mem0, d, n)) != 0 && FrameOf(v) !in use
      requires forall d': nat, n': nat :: IsDir(use, d') && n' < USER_PAGES ==>
                 Flat(mem, d', n') == if d' == d && n' == n then v else Flat(mem0, d', n')
      ensures Lost(FrameOf(Flat(mem0, d, n)))
    {
    }

    /** The same at a page that has no frame yet. */
    method Enter(d: nat, attr: word, f: nat) returns (ok: word)
      requires Core() && IsDir(use, d) && InHand(f) && Vacant(d, attr)
      modifies this, vmm.pmm, vmm.pmm.bitmap
      ensures Core() && ok <= 1
      ensures ok == 0 ==> mem == old(mem) && use == old(use) && vmm.pmm.free == old(vmm.pmm.free)
      ensures ok == 1 ==> attr < PAGE_OFFSET && FrameOf(Flat(mem, d, FrameOf(attr))) == f
      ensures ok == 1 ==> Flat(mem, d, FrameOf(attr)) == f * 0x1000 + 7
      ensures ok == 1 ==> SameEntries(old(mem), mem, old(use), d, PdeIndex(attr)) && Word(mem, d, PdeIndex(attr)) != 0
      ensures ok == 1 ==>
                |vmm.pmm.free| == |old(vmm.pmm.free)| - if Word(old(mem), d, PdeIndex(attr)) == 0 then 1 else 0
      ensures ok == 1 ==> Grown(old(use), use, old(vmm.pmm.free) + {f}, vmm.pmm.free, d) && f in use.Keys - old(use).Keys
      ensures forall d': nat, n: nat :: IsDir(old(use), d') && n < USER_PAGES && (d' != d || n != FrameOf(attr)) ==>
                Flat(mem, d', n) == Flat(old(mem), d', n)
      ensures ok == 0 <==>
              attr >= PAGE_OFFSET || (Word(old(mem), d, PdeIndex(attr)) == 0
                && forall p: nat :: p in old(vmm.pmm.free) && p < vmm.dmmap ==> p >= old(vmm.pmm.tail))
      ensures ok == 1 && Word(old(mem), d, PdeIndex(attr)) != 0 ==>
                vmm.pmm.free == old(vmm.pmm.free) && vmm.pmm.head == old(vmm.pmm.head)
    {
      hide Flat, Core, Vacant, Grown, SameEntries, Lost, InHand, Apart, PageAllocator.Sound;
      ok := EnterFrame(d, attr, f);
    }

    /** Frame f is now the page's. */
    ghost method Label(d: nat, n: nat, f: nat, t: nat, mem0: Memory, use0: map<nat, Use>)
      requires vmm.Sound() && Apart() && Tables() && InHand(f)
      requires PagesOk(mem0, use0) && IsDir(use0, d) && n < USER_PAGES && FrameOf(Flat(mem0, d, n)) == 0
      requires use == use0 || (t !in use0 && use == NewUse(use0, d, n / 0x400, t))
      requires forall d': nat, n': nat :: IsDir(use0, d') && n' < USER_PAGES ==>
                 Flat(mem, d', n') == if d' == d && n' == n then SetPage(AddrOf(f), USER_ENTRY) else Flat(mem0, d', n')
      modifies this`use
      ensures Apart() && Tables() && PagesOk(mem, use) && use == old(use)[f := UserPage(d, n)]
    {
      hide Flat, SetPage, KernelMap.Valid;
      EntryKeepsFrame(f, USER_ENTRY);
      PagesAfterFault(mem0, mem, use0, use, d, n, t, SetPage(AddrOf(f), USER_ENTRY));
      TablesAfterMap(mem, use, d, n, f);
      use := use[f := UserPage(d, n)];
    }

    lemma Mapped(d: nat, attr: word)
      requires !Vacant(d, attr)
      ensures attr < PAGE_OFFSET && Word(mem, d, PdeIndex(attr)) != 0
    {
      MappedHasTable(mem, d, attr);
    }

    /** umm_handler.  It does not ask whether the page is mapped: a fault at one that is loses the frame it had, as long as
        another one can be had. */
    method Handler(d: nat, attr: word) returns (ok: word)
      requires Core() && IsDir(use, d)
      modifies this, vmm.pmm, vmm.pmm.bitmap
      ensures ok <= 1 && (Core() <==> old(Vacant(d, attr)) || old(vmm.pmm.free <= {vmm.pmm.head}))
      ensures ok == 1 <==>
              && attr < PAGE_OFFSET && !(old(vmm.pmm.free) <= {old(vmm.pmm.head)})
              && (Word(old(mem), d, PdeIndex(attr)) != 0 || SpreadBelow(old(vmm.pmm.free), vmm.dmmap))
      ensures ok == 0 ==> mem == old(mem) && use == old(use) && vmm.pmm.free == old(vmm.pmm.free)
      ensures ok == 1 ==> Flat(mem, d, FrameOf(attr)) % 0x1000 == 7 && Word(mem, d, PdeIndex(attr)) != 0
      ensures ok == 1 && old(Vacant(d, attr)) ==>
                && Grown(old(use), use, old(vmm.pmm.free), vmm.pmm.free, d)
                && FrameOf(Flat(mem, d, FrameOf(attr))) in use.Keys - old(use).Keys
                && |vmm.pmm.free| == |old(vmm.pmm.free)| - if Word(old(mem), d, PdeIndex(attr)) == 0 then 2 else 1
      ensures ok == 1 && !old(Vacant(d, attr)) ==>
                && use == old(use) && Lost(FrameOf(Flat(old(mem), d, FrameOf(attr))))
                && vmm.pmm.free == old(vmm.pmm.free) - {FrameOf(Flat(mem, d, FrameOf(attr)))}
      ensures forall d': nat, n: nat :: IsDir(old(use), d') && n < USER_PAGES && (d' != d || n != FrameOf(attr)) ==>
                Flat(mem, d', n) == Flat(old(mem), d', n)
    {
      hide Flat, TablesOk, PagesOk, Sized, KernelShared, Grown, KernelMap.Valid, FrameAllocator.Coherent, Vacant;
      if !Vacant(d, attr) {
        Mapped(d, attr);
      }
      var phy := vmm.pmm.AllocPage();
      if phy == 0 {
        return 0;
      }
      assert vmm.pmm.free + {FrameOf(phy)} == old(vmm.pmm.free);
      BelowTop(old(vmm.pmm.free), FrameOf(phy), vmm.dmmap);
      ok := EnterFrame(d, attr, phy / 0x1000);
      if ok == 0 {
        Undo(phy);
      }
    }

    /** Undoing pmm_alloc_page when the page could not be entered. */
    method Undo(phy: word)
      requires vmm.Sound() && Apart() && phy == AddrOf(FrameOf(phy))
      requires vmm.pmm.base <= FrameOf(phy) < vmm.pmm.pages
      requires FrameOf(phy) !in use && FrameOf(phy) !in vmm.pmm.free && FrameOf(phy) !in vmm.owner
      modifies vmm.pmm, vmm.pmm.bitmap
      ensures vmm.Sound() && Apart() && vmm.pmm.free == old(vmm.pmm.free) + {FrameOf(phy)}
    {
      vmm.pmm.FreePage(phy, 1);
      assert Run(FrameOf(phy), 1) == {FrameOf(phy)};
    }

    /** What the loops of umm_free rely on: the frames in use were all out when it began (with the free set `was`). */
    ghost predicate Ending(d: nat, was: set<nat>)
      reads this, vmm, vmm.pmm, vmm.pmm.bitmap
    {
      && vmm.pmm.Valid() && TablesOk(mem, use) && PagesOk(mem, use) && IsDir(use, d)
      && forall f: nat {:trigger f in use} :: f in use ==> vmm.pmm.base <= f < vmm.pmm.pages && f !in was
    }

    /** pmm_free_page of one frame of the address space. */
    method FreeFrame(f: nat, d: nat, ghost was: set<nat>)
      requires Ending(d, was) && f in use && f !in vmm.pmm.free
      modifies vmm.pmm, vmm.pmm.bitmap
      ensures Ending(d, was) && vmm.pmm.free == old(vmm.pmm.free) + {f}
    {
      hide Run, TablesOk, PagesOk;
      assert f < 0x100000;
      vmm.pmm.FreePage(AddrOf(f), 1);
      assert Run(f, 1) == {f};
    }

    /** The inner loop of umm_free: the pages of one table. */
    method FreePages(d: nat, m: nat, ghost was: set<nat>)
      requires Ending(d, was) && m < KERNEL_PDE && Word(mem, d, m) != 0
      requires vmm.pmm.free == was + Freed(use, d, m * 0x400, m)
      modifies vmm.pmm, vmm.pmm.bitmap
      ensures Ending(d, was) && vmm.pmm.free == was + Freed(use, d, (m + 1) * 0x400, m)
    {
      hide Freed, TablesOk, PagesOk, Word, FrameAllocator.Valid;
      var t := FrameOf(Word(mem, d, m));
      for n := 0 to 0x400
        invariant Ending(d, was) && vmm.pmm.free == was + Freed(use, d, m * 0x400 + n, m)
      {
        PageAt(mem, use, d, m, n);
        var f := FrameOf(Word(mem, t, n));
        if f != 0 {
          FreeFrame(f, d, was);
        }
      }
    }

    /** umm_free: every frame of the address space goes back, once, and no other. */
    method Free(d: nat)
      requires Core() && IsDir(use, d)
      modifies this`use, vmm.pmm, vmm.pmm.bitmap
      ensures Core() && use == Without(old(use), d)
      ensures vmm.pmm.free == old(vmm.pmm.free) + FramesOf(old(use), d)
    {
      hide Without, FramesOf, TablesOk, PagesOk, KernelShared, KernelMap.Valid;
      WithoutOk(mem, use, d, kernel);
      FreeTables(d, vmm.pmm.free);
      use := Without(use, d);
    }

    /** The outer loop of umm_free, and the directory. */
    method FreeTables(d: nat, ghost was: set<nat>)
      requires Ending(d, was) && vmm.pmm.free == was
      modifies vmm.pmm, vmm.pmm.bitmap
      ensures vmm.pmm.Valid() && vmm.pmm.free == was + FramesOf(use, d)
    {
      hide Ending, FramesOf, TablesOk, PagesOk, FrameAllocator.Valid;
      assert Freed(use, d, 0, 0) == {};
      hide Freed;
      for m := 0 to KERNEL_PDE
        invariant Ending(d, was) && vmm.pmm.free == was + Freed(use, d, m * 0x400, m)
      {
        FreeTable(d, m, was);
      }
      assert KERNEL_PDE * 0x400 == USER_PAGES;
      FreeDirectory(d, was);
    }

    method FreeDirectory(d: nat, ghost was: set<nat>)
      requires Ending(d, was) && vmm.pmm.free == was + Freed(use, d, USER_PAGES, KERNEL_PDE)
      modifies vmm.pmm, vmm.pmm.bitmap
      ensures vmm.pmm.Valid() && vmm.pmm.free == was + FramesOf(use, d)
    {
      hide Freed, FramesOf, FrameAllocator.Valid;
      FreedAll(mem, use, d);
      FreeFrame(d, d, was);
    }

    /** One turn of the outer loop. */
    method FreeTable(d: nat, m: nat, ghost was: set<nat>)
      requires Ending(d, was) && m < KERNEL_PDE && vmm.pmm.free == was + Freed(use, d, m * 0x400, m)
      modifies vmm.pmm, vmm.pmm.bitmap
      ensures Ending(d, was) && vmm.pmm.free == was + Freed(use, d, (m + 1) * 0x400, m + 1)
    {
      hide Freed, PagesOk, FrameAllocator.Valid;
      FreedTable(mem, use, d, (m + 1) * 0x400, m);
      if GetPageAttr(Word(mem, d, m)) != 0 {
        FreePages(d, m, was);
        FreeFrame(FrameOf(Word(mem, d, m)), d, was);
      } else {
        NoPages(mem, use, d, m);
      }
    }

    /** One event; `live` are the directories made since the start. */
    method Happen(e: Event, live: seq<nat>, ghost use0: map<nat, Use>, ghost free0: set<nat>) returns (live': seq<nat>)
      requires Core() && Accounted(use0, use, free0, vmm.pmm.free, live)
      requires forall f: nat {:trigger use0[f]} :: f in use0 ==> IsDir(use0, use0[f].dir)
      modifies this, vmm.pmm, vmm.pmm.bitmap
      ensures Core() && Accounted(use0, use, free0, vmm.pmm.free, live')
      ensures e.End? && e.which < |live| ==> |live'| == |live| - 1
    {
      hide Accounted, Flat, TablesOk, PagesOk, Grown, Without, FramesOf, PageAllocator.Sound;
      live' := live;
      match e {
        case Create =>
          var d := AllocPde();
          if d != 0 {
            AccountedBirth(use0, old(use), free0, old(vmm.pmm.free), live, d);
            live' := live + [d];
          }
        case Fault(k, attr) =>
          LiveDirs(use0, use, free0, vmm.pmm.free, live);
          if k < |live| && (attr >= PAGE_OFFSET || FrameOf(Flat(mem, live[k], FrameOf(attr))) == 0) {
            var ok := Handler(live[k], attr);
            if ok == 1 {
              AccountedGrowth(use0, old(use), use, free0, old(vmm.pmm.free), vmm.pmm.free, live, k);
            }
          }
        case End(k) =>
          LiveDirs(use0, use, free0, vmm.pmm.free, live);
          if k < |live| {
            AccountedDeath(use0, use, free0, vmm.pmm.free, live, k);
            Free(live[k]);
            live' := live[..k] + live[k + 1..];
          }
      }
    }

    /** Any run of events, after which every address space made in it ends: the free frames, their count and the
        frames of the address spaces that were there before are exactly as at the start. */
    method Lives(script: seq<Event>)
      requires Valid()
      modifies this, vmm.pmm, vmm.pmm.bitmap
      ensures Valid() && use == old(use)
      ensures vmm.pmm.free == old(vmm.pmm.free) && vmm.pmm.freeCount == old(vmm.pmm.freeCount)
    {
      hide Accounted, TablesOk, PagesOk, Without, FramesOf, KernelMap.Valid;
      ghost var use0, free0 := use, vmm.pmm.free;
      DirsInUse(mem, use);
      AccountedStart(use, free0);
      var live: seq<nat> := [];
      for i := 0 to |script|
        invariant Core() && Accounted(use0, use, free0, vmm.pmm.free, live)
      {
        live := Happen(script[i], live, use0, free0);
      }
      while live != []
        invariant Core() && Accounted(use0, use, free0, vmm.pmm.free, live)
        decreases |live|
      {
        live := Happen(End(0), live, use0, free0);
      }
      AccountedEnd(use0, use, free0, vmm.pmm.free);
    }

    /** get_globl_phy_attr: the physical address behind a kernel address. */
    function GlobalPhyAttr(attr: word): word
      requires vmm.kmm.Valid() && FrameOf(attr) < GLOBL_PAGE_NUM && vmm.kmm.table[FrameOf(attr)] < 0x100000
      reads vmm.kmm, vmm.kmm.entries
    {
      vmm.kmm.GetAttr(FrameOf(attr)) + attr % 0x1000
    }

    /** The frame behind page n, found or made, as in the loop of vmm_mmap_pde_page; 0 when there is none to be had.
        With all memory in the direct map, get_globl_phy_attr of a physical address is that address. */
    method PageFor(d: nat, n: nat) returns (f: nat)
      requires Core() && IsDir(use, d) && n < USER_PAGES && vmm.dmmap == vmm.pmm.pages
      modifies this, vmm.pmm, vmm.pmm.bitmap
      ensures Core() && f < 0x100000
      ensures f == 0 <==> old(NoFrameFor(d, n))
      ensures f == 0 ==> Now() == old(Now()) && vmm.pmm.head == old(vmm.pmm.head)
      ensures f != 0 ==> Next(old(Now()), Now(), d, n, f)
      ensures f != 0 && old(Word(mem, d, n / 0x400)) != 0 ==>
                OneLess(old(vmm.pmm.free), old(vmm.pmm.head), old(FrameOf(Flat(mem, d, n)) == 0))
    {
      hide TablesOk, PagesOk, KernelShared, Next, KernelMap.Valid, Flat;
      f := FrameOf(GetValue(mem, d, n * 0x1000));
      GetIsFlat(mem, d, n * 0x1000);
      if f == 0 {
        f := FreshFor(d, n);
      } else {
        PageInRange(d, n);
        NothingNext(Now(), d, n);
      }
    }

    /** Page n has no frame, and pmm_alloc_page has none for it. */
    ghost predicate NoFrameFor(d: nat, n: nat)
      reads this, vmm, vmm.pmm
    {
      FrameOf(Flat(mem, d, n)) == 0 && vmm.pmm.free <= {vmm.pmm.head}
    }

    /** A page was seen to: one frame less is available if it had none, and the lower search position has not moved. */
    ghost predicate OneLess(free: set<nat>, head: nat, one: bool)
      reads vmm.pmm
    {
      vmm.pmm.head == head && Available(vmm.pmm.free, head) == Available(free, head) - if one then 1 else 0
    }

    /** The branch that makes one. */
    method FreshFor(d: nat, n: nat) returns (f: nat)
      requires Core() && IsDir(use, d) && n < USER_PAGES && vmm.dmmap == vmm.pmm.pages && FrameOf(Flat(mem, d, n)) == 0
      modifies this, vmm.pmm, vmm.pmm.bitmap
      ensures Core() && f < 0x100000
      ensures f == 0 <==> old(vmm.pmm.free <= {vmm.pmm.head})
      ensures f == 0 ==> Now() == old(Now()) && vmm.pmm.head == old(vmm.pmm.head)
      ensures f != 0 ==> Next(old(Now()), Now(), d, n, f)
      ensures f != 0 && old(Word(mem, d, n / 0x400)) != 0 ==> OneLess(old(vmm.pmm.free), old(vmm.pmm.head), true)
    {
      hide TablesOk, PagesOk, KernelShared, Grown, SameEntries, KernelMap.Valid, Flat, Next, Available;
      assert FrameOf(n * 0x1000) == n && PdeIndex(n * 0x1000) == n / 0x400;
      var phy := vmm.pmm.AllocPage();
      f := phy / 0x1000;
      if f != 0 {
        assert vmm.pmm.free + {f} == old(vmm.pmm.free);
        assert vmm.kmm.table[f] == f;
        AvailableLess(old(vmm.pmm.free), vmm.pmm.head, f);
        PutIn(d, n, GlobalPhyAttr(phy) / 0x1000, old(Now()));
      }
    }

    /** The frame in hand, the highest of the free ones of s0, is entered for page n, unless its table cannot be had. */
    method PutIn(d: nat, n: nat, f: nat, ghost s0: Stage)
      requires Core() && IsDir(use, d) && n < USER_PAGES && InHand(f) && FrameOf(Flat(mem, d, n)) == 0 && vmm.dmmap == vmm.pmm.pages
      requires mem == s0.mem && use == s0.use && f != 0 && f in s0.free && vmm.pmm.free == s0.free - {f}
      requires vmm.pmm.tail + 1 == f && forall p: nat :: p in s0.free ==> p <= f
      modifies this, vmm.pmm, vmm.pmm.bitmap
      ensures Core() && Next(s0, Now(), d, n, f)
      ensures Word(s0.mem, d, n / 0x400) != 0 ==> vmm.pmm.free == old(vmm.pmm.free) && vmm.pmm.head == old(vmm.pmm.head)
    {
      hide TablesOk, PagesOk, KernelShared, SameEntries, KernelMap.Valid, Flat, PageAllocator.Sound, Word, Grown, Next;
      assert FrameOf(n * 0x1000) == n && PdeIndex(n * 0x1000) == n / 0x400;
      assert |vmm.pmm.free| == |s0.free| - 1 && vmm.pmm.free + {f} == s0.free;
      AllBelow();
      BelowTop(s0.free, f, vmm.dmmap);
      OneIsBelow(vmm.pmm.free, vmm.pmm.tail);
      var ok := Enter(d, n * 0x1000, f);
      if ok == 1 {
        EnteredNext(s0, Now(), d, n, f);
      } else {
        RefusedNext(s0, Now(), d, n, f);
      }
    }

    /** The search positions enclose the free frames, which lie in memory. */
    lemma AllBelow()
      requires Core() && vmm.dmmap == vmm.pmm.pages
      ensures forall p: nat :: p in vmm.pmm.free ==> p < vmm.dmmap && p <= vmm.pmm.tail
    {
      hide TablesOk, PagesOk, KernelShared, KernelMap.Valid, Flat, FrameAllocator.Coherent;
    }

    /** One turn of the loop of vmm_mmap_pde_page. */
    method OpenWindow(d: nat, n: nat, i: nat) returns (ok: bool)
      requires Core() && IsDir(use, d) && n < USER_PAGES && vmm.dmmap == vmm.pmm.pages
      requires i < |vmm.slot| && vmm.slot[i] == 0
      modifies this, vmm`slot, vmm.kmm`table, vmm.kmm.entries, vmm.pmm, vmm.pmm.bitmap
      ensures Core() && (ok <==> !old(NoFrameFor(d, n)))
      ensures !ok ==> Now() == old(Now()) && vmm.pmm.free <= {vmm.pmm.head}
      ensures ok ==> Next(old(Now()), Now(), d, n, vmm.slot[i])
      ensures ok ==> vmm.slot == old(vmm.slot)[i := vmm.slot[i]]
      ensures ok && old(Word(mem, d, n / 0x400)) != 0 ==> OneLess(old(vmm.pmm.free), old(vmm.pmm.head), old(FrameOf(Flat(mem, d, n)) == 0))
    {
      hide Flat, TablesOk, PagesOk, KernelShared, Grown, SameEntries, KeepsPages, NeedOne, Word, Spread, OneLess;
      hide PageAllocator.Flagged;
      var f := PageFor(d, n);
      ok := f != 0;
      if ok {
        vmm.OpenSlot(f, i);
      }
    }

    ghost function Now(): Stage
      reads this, vmm, vmm.pmm
    {
      Stage(mem, use, vmm.pmm.free, vmm.slot)
    }

    /** The loop of vmm_mmap_pde_page: stops when a page needs a frame and there is none. */
    method OpenWindows(d: nat, n: nat, head: nat, count: nat) returns (k: nat)
      requires Core() && IsDir(use, d) && 0 < count && n + count <= USER_PAGES && vmm.dmmap == vmm.pmm.pages
      requires head + count <= |vmm.slot| && forall j: nat :: head <= j < head + count ==> vmm.slot[j] == 0
      modifies this, vmm`slot, vmm.kmm`table, vmm.kmm.entries, vmm.pmm, vmm.pmm.bitmap
      ensures Core() && k <= count && Opened(old(Now()), Now(), d, n, head, k, count)
      ensures k < count ==> vmm.pmm.free <= {vmm.pmm.head} && |old(vmm.pmm.free)| <= old(Need(mem, d, n, count))
      ensures k == 0 <==> old(NoFrameFor(d, n))
      ensures k == 0 ==> Now() == old(Now())
      ensures old(MissingTables(mem, d, n, count)) == {} ==> (k == count <==> old(Enough(d, n, count)))
    {
      hide Flat, Word, TablesOk, PagesOk, KernelShared, Need, NeedOne, Windows, KeepsPages, PageAllocator.Sound, Next;
      hide MissingPages, Full, Counted, MissingTables, OneLess, Spent, Refused, Lasts;
      ghost var s0, head0 := Now(), vmm.pmm.head;
      OpenedStart(s0, d, n, head, count);
      CountedStart(s0, head0, d, n, count);
      k := 0;
      while k < count
        invariant Core() && k <= count && Opened(s0, Now(), d, n, head, k, count)
        invariant Counted(s0, head0, Now(), vmm.pmm.head, d, n, k, count)
        invariant k == 0 ==> Now() == s0 && vmm.pmm.head == old(vmm.pmm.head)
        invariant k > 0 ==> !old(NoFrameFor(d, n))
      {
        ghost var s, h := Now(), vmm.pmm.head;
        var ok := OpenWindow(d, n + k, head + k);
        if !ok {
          Runs(s0, s, d, n, head, k, count);
          CountedEnd(s0, head0, s, h, d, n, k, count);
          return;
        }
        OpenedNext(s0, s, Now(), d, n, head, k, count, vmm.slot[head + k]);
        assert Word(s.mem, d, (n + k) / 0x400) != 0 ==> OneLess(s.free, h, FrameOf(Flat(s.mem, d, n + k)) == 0);
        OneLessIs(s.free, h, FrameOf(Flat(s.mem, d, n + k)) == 0);
        CountedNext(s0, head0, s, h, Now(), vmm.pmm.head, d, n, k, count, vmm.slot[head + k]);
        k := k + 1;
      }
      CountedEnd(s0, head0, Now(), vmm.pmm.head, d, n, count, count);
    }

    /** There are frames above the lower search position for all the pages that lack one. */
    ghost predicate Enough(d: nat, n: nat, count: nat)
      reads this, vmm.pmm
    {
      Available(vmm.pmm.free, vmm.pmm.head) >= |MissingPages(mem, d, n, count)|
    }

    lemma OneLessIs(free: set<nat>, head: nat, one: bool)
      ensures OneLess(free, head, one) ==>
                vmm.pmm.head == head && Available(vmm.pmm.free, head) == Available(free, head) - if one then 1 else 0
    {
    }

    /** As long as the frames last, there are two of them when a page needs one. */
    lemma Runs(s0: Stage, s: Stage, d: nat, n: nat, head: nat, k: nat, count: nat)
      requires Opened(s0, s, d, n, head, k, count) && k < count && FrameOf(Flat(s.mem, d, n + k)) == 0
      requires s.free <= {vmm.pmm.head}
      ensures |s0.free| <= Need(s0.mem, d, n, count)
    {
      hide Flat, Need, NeedOne, Windows, KeepsPages, MissingPages, Grown, Kept, Full, Spent, Refused;
      NeedOneFits(s.mem, d, n + k, count - k);
      OneNeeded(s.mem, d, n + k);
      OneIsBelow(s.free, vmm.pmm.head);
    }

    lemma OneNeeded(mem: Memory, d: nat, n: nat)
      requires FrameOf(Flat(mem, d, n)) == 0
      ensures NeedOne(mem, d, n) >= 1
    {
    }

    /** What umm_mmap_kmm leaves when it succeeds: the page itself, through the direct map, or windows. */
    ghost predicate Shown(s0: Stage, p: word, d: nat, n: nat, count: nat)
      reads this, vmm, vmm.pmm
    {
      || (p % 0x1000 == 0 && FrameOf(p) < vmm.dmmap && count == 1 && FrameOf(p) == FrameOf(Flat(mem, d, n)) && p != 0
          && Now() == s0)
      || (p % 0x1000 == 0 && FrameOf(p) >= vmm.dmmap && Opened(s0, Now(), d, n, FrameOf(p) - vmm.dmmap, count, count)
          && forall j: nat :: FrameOf(p) - vmm.dmmap <= j < FrameOf(p) - vmm.dmmap + count && j < |s0.slot| ==> s0.slot[j] == 0)
    }

    /** Where the search finds a run of unmapped slots, 0 if there is none. */
    ghost function TopRun(count: nat): word
      reads vmm
    {
      Highest(Unmapped(vmm.slot), vmm.slots, vmm.pos, count)
    }

    /** The frames have run out, and one slot is mapped that was not. */
    ghost predicate LeftMapped(was: seq<nat>, head: int)
      reads vmm, vmm.pmm
    {
      && 0 <= head < |was| == |vmm.slot| && was[head] == 0 && vmm.slot[head] != 0
      && vmm.slot == was[head := vmm.slot[head]] && vmm.pmm.free <= {vmm.pmm.head}
    }

    /** The search, and what it finds. */
    method FindTop(count: nat) returns (p: word)
      requires Valid() && 0 < count <= 0x100000 && Safe(Unmapped(vmm.slot), vmm.pos, count)
      ensures p == TopRun(count)
      ensures p != 0 ==>
                && 0 <= p + 1 - count && p < |vmm.slot| && p <= vmm.pos && 0 < vmm.dmmap && vmm.dmmap + p < GLOBL_PAGE_NUM
                && (forall j: nat :: p + 1 - count <= j <= p ==> vmm.slot[j] == 0)
                && (forall f: nat :: f in vmm.owner ==> !(p + 1 - count <= vmm.owner[f] <= p))
                && (p == vmm.pos ==> p + 1 - count > 0)
    {
      hide Highest, UnmappedBelow, Tables, PagesOk, KernelMap.Valid;
      SafeExactly(Unmapped(vmm.slot), vmm.slots, vmm.pos, count);
      p := vmm.FindRun(count);
      if p != 0 {
        FitsMeaning(Unmapped(vmm.slot), vmm.slots, p, count);
      }
    }

    /** The rollback of vmm_mmap_pde_page. */
    method GiveBack(head: nat, k: nat, ghost was: seq<nat>)
      requires Core() && head + k < |vmm.slot| == |was|
      requires AboveMapped(was, vmm.pos) && vmm.freeCount == |Unmapped(was)|
      requires head <= vmm.pos && (head == vmm.pos ==> head > 0)
      requires forall f: nat :: f in vmm.owner ==> !(head <= vmm.owner[f] <= head + k)
      requires forall j: nat :: head <= j <= head + k ==> was[j] == 0 && (j < head + k ==> vmm.slot[j] != 0)
      requires forall j: nat :: j < |was| && !(head <= j < head + k) ==> vmm.slot[j] == was[j]
      modifies vmm`slot, vmm.kmm`table, vmm.kmm.entries
      ensures Core() && (Valid() <==> k == 0)
      ensures k == 0 ==> vmm.slot == was
      ensures k > 0 ==> vmm.slot[head] != 0 && vmm.slot == was[head := vmm.slot[head]]
    {
      hide Unmapped, TablesOk, PagesOk, KernelShared, Cleared;
      hide PageAllocator.Flagged;
      vmm.CloseBut(head, k);
      if k == 0 {
        assert vmm.slot == was;
      } else {
        FilledBooks(was, vmm.slot, head, 1, vmm.pos);
      }
    }

    lemma IsShown(s0: Stage, d: nat, n: nat, head: nat, count: nat)
      requires Opened(s0, Now(), d, n, head, count, count) && vmm.dmmap + head < GLOBL_PAGE_NUM
      requires forall j: nat :: head <= j < head + count && j < |s0.slot| ==> s0.slot[j] == 0
      ensures Shown(s0, (vmm.dmmap + head) * 0x1000, d, n, count)
    {
      hide Opened;
    }

    /** The part of vmm_mmap_pde_page after the search.  When the frames run out its rollback leaves the first slot of the
        run mapped and counted as unmapped, unless no page was reached. */
    method WindowsAt(d: nat, n: nat, head: nat, count: nat) returns (attr: word)
      requires Valid() && IsDir(use, d) && 0 < count && n + count <= USER_PAGES && vmm.dmmap == vmm.pmm.pages
      requires head + count - 1 <= vmm.pos && (head + count - 1 == vmm.pos ==> head > 0) && vmm.dmmap + head + count <= GLOBL_PAGE_NUM
      requires head + count <= |vmm.slot|
      requires forall j: nat :: head <= j < head + count ==> vmm.slot[j] == 0
      requires forall f: nat :: f in vmm.owner ==> !(head <= vmm.owner[f] < head + count)
      modifies this, vmm, vmm.kmm`table, vmm.kmm.entries, vmm.pmm, vmm.pmm.bitmap
      ensures Core() && vmm.owner == old(vmm.owner) && KeepsPages(old(mem), mem, old(use), d, n, count)
      ensures Valid() <==> attr != 0 || old(NoFrameFor(d, n))
      ensures old(MissingTables(mem, d, n, count)) == {} ==> (attr != 0 <==> old(Enough(d, n, count)))
      ensures |old(vmm.pmm.free)| > old(Need(mem, d, n, count)) ==> attr != 0
      ensures |old(vmm.pmm.free)| + 2 < old(Need(mem, d, n, count)) ==> attr == 0
      ensures |old(vmm.pmm.free)| < old(|MissingPages(mem, d, n, count)|) ==> attr == 0
      ensures attr == 0 ==> vmm.pos == old(vmm.pos) && vmm.freeCount == old(vmm.freeCount)
      ensures attr == 0 ==> if old(NoFrameFor(d, n)) then Now() == old(Now()) else LeftMapped(old(vmm.slot), head)
      ensures attr != 0 ==> attr == (vmm.dmmap + head) * 0x1000 && Shown(old(Now()), attr, d, n, count)
    {
      hide Opened, Need, Unmapped, TablesOk, PagesOk, KernelShared, KernelMap.Valid, KeepsPages, Flat, MissingPages;
      hide PageAllocator.Sound, NoFrameFor, Shown, Enough, MissingTables, Leaked, Refused, Full, Grown;
      ghost var was := Now();
      var k := OpenWindows(d, n, head, count);
      OpenedSlots(was, Now(), d, n, head, k, count);
      if k < count {
        GiveBack(head, k, was.slot);
        return 0;
      }
      OpenedAll(was, Now(), d, n, head, count);
      vmm.BookFilled(head, count, was.slot);
      IsShown(was, d, n, head, count);
      return (vmm.dmmap + head) * 0x1000;
    }

    /** vmm_mmap_pde_page: windows onto pages n, ..., n + count - 1 in the highest run of unmapped slots. */
    method MmapPdePage(d: nat, n: nat, count: nat) returns (attr: word)
      requires Valid() && IsDir(use, d) && 0 < count && n + count <= USER_PAGES && vmm.dmmap == vmm.pmm.pages
      requires Safe(Unmapped(vmm.slot), vmm.pos, count)
      modifies this, vmm, vmm.kmm`table, vmm.kmm.entries, vmm.pmm, vmm.pmm.bitmap
      ensures Core() && vmm.owner == old(vmm.owner) && KeepsPages(old(mem), mem, old(use), d, n, count)
      ensures Valid() <==> attr != 0 || old(TopRun(count)) == 0 || old(NoFrameFor(d, n))
      ensures old(TopRun(count)) == 0 ==> attr == 0
      ensures old(MissingTables(mem, d, n, count)) == {} ==> (attr != 0 <==> old(TopRun(count)) != 0 && old(Enough(d, n, count)))
      ensures |old(vmm.pmm.free)| > old(Need(mem, d, n, count)) ==> (attr == 0 <==> old(TopRun(count)) == 0)
      ensures |old(vmm.pmm.free)| + 2 < old(Need(mem, d, n, count)) ==> attr == 0
      ensures |old(vmm.pmm.free)| < old(|MissingPages(mem, d, n, count)|) ==> attr == 0
      ensures attr == 0 ==> vmm.pos == old(vmm.pos) && vmm.freeCount == old(vmm.freeCount)
      ensures attr == 0 ==>
                if old(TopRun(count)) == 0 || old(NoFrameFor(d, n)) then Now() == old(Now())
                else LeftMapped(old(vmm.slot), old(TopRun(count)) + 1 - count)
      ensures attr != 0 ==>
                var head := old(TopRun(count)) + 1 - count;
                && 0 <= head && attr == (vmm.dmmap + head) * 0x1000
                && Shown(old(Now()), attr, d, n, count)
    {
      hide Opened, Need, TopRun, Unmapped, TablesOk, PagesOk, KernelShared, KernelMap.Valid, KeepsPages, Flat, MissingPages;
      hide NoFrameFor, LeftMapped, Shown, PageAllocator.Valid, PageAllocator.Sound, Core, Enough, MissingTables;
      NothingKept(use, vmm.pmm.free, d, mem, n, count);
      var p := FindTop(count);
      attr := 0;
      assert Valid() && Now() == old(Now()) && NoFrameFor(d, n) == old(NoFrameFor(d, n));
      assert Need(mem, d, n, count) == old(Need(mem, d, n, count)) && Enough(d, n, count) == old(Enough(d, n, count));
      if p != 0 {
        attr := WindowsAt(d, n, p - count + 1, count);
      }
    }

    /** umm_mmap_kmm of one page that has no frame: vmm_alloc_page gives the frame, set_umm_value hands it to the
        address space, if its table can be had, and the slot becomes a window. */
    method WindowFresh(d: nat, n: nat) returns (p: word)
      requires Valid() && IsDir(use, d) && n < USER_PAGES && vmm.dmmap == vmm.pmm.pages && FrameOf(Flat(mem, d, n)) == 0
      modifies this, vmm, vmm.kmm`table, vmm.kmm.entries, vmm.pmm, vmm.pmm.bitmap
      ensures Valid() && vmm.owner == old(vmm.owner)
      ensures p == 0 <==> old(TopRun(1)) == 0 || old(vmm.pmm.free <= {vmm.pmm.head})
      ensures p == 0 ==> Now() == old(Now()) && vmm.pos == old(vmm.pos) && vmm.freeCount == old(vmm.freeCount)
      ensures p != 0 ==> p == (vmm.dmmap + old(TopRun(1))) * 0x1000 && Shown(old(Now()), p, d, n, 1)
      ensures p != 0 ==> (FrameOf(Flat(mem, d, n)) == 0 <==> old(Refused(Now(), d, n)))
      ensures p != 0 && old(Refused(Now(), d, n)) ==>
                && old(TopRun(1)) < |vmm.slot| && InHand(vmm.slot[old(TopRun(1))])
                && vmm.slot[old(TopRun(1))] in old(vmm.pmm.free) && vmm.pmm.free == old(vmm.pmm.free) - {vmm.slot[old(TopRun(1))]}
                && forall q: nat :: q in old(vmm.pmm.free) ==> q <= vmm.slot[old(TopRun(1))]
    {
      hide Opened, Highest, Unmapped, TablesOk, PagesOk, KernelShared, Flat, PageAllocator.Shape, Refused;
      p := FreshSlot();
      if p != 0 {
        HandOver(d, n, p / 0x1000 - vmm.dmmap, old(Now()));
      }
    }

    /** vmm_alloc_page(1), with the frame left in hand. */
    method FreshSlot() returns (p: word)
      requires Valid()
      modifies vmm, vmm.kmm`table, vmm.kmm.entries, vmm.pmm, vmm.pmm.bitmap
      ensures Valid() && vmm.owner == old(vmm.owner)
      ensures p == 0 <==> old(TopRun(1)) == 0 || old(vmm.pmm.free <= {vmm.pmm.head})
      ensures p == 0 ==> Now() == old(Now()) && vmm.pos == old(vmm.pos) && vmm.freeCount == old(vmm.freeCount)
      ensures p != 0 ==>
                var i := old(TopRun(1));
                && p == (vmm.dmmap + i) * 0x1000 && i < |vmm.slot| && old(vmm.slot)[i] == 0 && InHand(vmm.slot[i])
                && vmm.slot == old(vmm.slot)[i := vmm.slot[i]] && vmm.slot[i] in old(vmm.pmm.free)
                && vmm.pmm.free == old(vmm.pmm.free) - {vmm.slot[i]}
                && vmm.pmm.tail + 1 == vmm.slot[i] && forall q: nat :: q in old(vmm.pmm.free) ==> q <= vmm.slot[i]
    {
      hide Backed, BackedOnce, Highest, UnmappedBelow, TablesOk, PagesOk, KernelShared, FrameAllocator.Coherent, Bounded;
      hide Word, Flat, GetPageAttr, SetPage, Direct;
      hide PageAllocator.Flagged;
      SingleIsSafe(Unmapped(vmm.slot), vmm.pos);
      NoneAvailable(vmm.pmm.free, vmm.pmm.head);
      p := vmm.AllocPage(1);
      if p != 0 {
        ghost var i := FrameOf(p) - vmm.dmmap;
        BackedSingle(old(vmm.View()), i);
        GiveUp(i, old(Now()), old(vmm.owner));
      }
    }

    /** Slot i, just backed, gives up its frame. */
    ghost method GiveUp(i: nat, s0: Stage, owner0: map<nat, nat>)
      requires vmm.Valid() && Tables() && PagesOk(mem, use) && use == s0.use
      requires i < |s0.slot| && s0.free != {}
      requires forall f: nat :: f in owner0 ==> f !in s0.free
      requires forall f: nat :: f in use ==> vmm.pmm.base <= f < vmm.pmm.pages && f !in s0.free && f !in owner0
      requires vmm.View() == BackedOnce(Books(s0.slot, s0.free, owner0), i)
      modifies vmm`owner
      ensures vmm.Valid() && Apart() && vmm.owner == owner0 && InHand(vmm.slot[i]) && vmm.slot == s0.slot[i := vmm.slot[i]]
      ensures vmm.pmm.free == s0.free - {vmm.slot[i]} && vmm.slot[i] == Top(s0.free)
    {
      hide TablesOk, PagesOk, KernelShared, KernelMap.Valid, Unmapped, FrameAllocator.Coherent;
      assert vmm.slot[i] == Top(s0.free) && Held(vmm.View(), i);
      vmm.Disown(i);
      assert vmm.owner == owner0;
    }

    /** Its frame becomes the frame of page n. */
    method HandOver(d: nat, n: nat, i: nat, ghost s0: Stage)
      requires Valid() && mem == s0.mem && use == s0.use && IsDir(use, d) && n < USER_PAGES && vmm.dmmap == vmm.pmm.pages
      requires FrameOf(Flat(mem, d, n)) == 0
      requires i < |vmm.slot| == |s0.slot| && vmm.slot == s0.slot[i := vmm.slot[i]] && InHand(vmm.slot[i])
      requires vmm.slot[i] in s0.free && vmm.pmm.free == s0.free - {vmm.slot[i]}
      requires vmm.pmm.tail + 1 == vmm.slot[i] && forall q: nat :: q in s0.free ==> q <= vmm.slot[i]
      modifies this, vmm.pmm, vmm.pmm.bitmap
      ensures Core() && Opened(s0, Now(), d, n, i, 1, 1)
      ensures FrameOf(Flat(mem, d, n)) == 0 <==> Refused(s0, d, n)
      ensures Refused(s0, d, n) ==> InHand(vmm.slot[i]) && vmm.pmm.free == s0.free - {vmm.slot[i]}
    {
      hide Opened, TablesOk, PagesOk, KernelShared, Flat, Next, Unmapped, KernelMap.Valid, Refused;
      ghost var f := vmm.slot[i];
      assert vmm.kmm.table[vmm.dmmap + i] == f;
      var phy := GlobalPhyAttr((vmm.dmmap + i) * 0x1000);
      OpenedStart(s0, d, n, i, 1);
      PutIn(d, n, phy / 0x1000, s0);
      NextKeeps(s0, Now(), d, n, f);
      VacantTakes(s0, Now(), d, n, f);
      OpenedNext(s0, s0, Now(), d, n, i, 0, 1, f);
    }

    /** The three ways of umm_mmap_kmm to reach pages n, ..., n + count - 1. */
    method Show(d: nat, n: nat, count: nat) returns (p: word)
      requires Valid() && IsDir(use, d) && 0 < count && n + count <= USER_PAGES && vmm.dmmap == vmm.pmm.pages
      requires Safe(Unmapped(vmm.slot), vmm.pos, count)
      modifies this, vmm, vmm.kmm`table, vmm.kmm.entries, vmm.pmm, vmm.pmm.bitmap
      ensures Core() && vmm.owner == old(vmm.owner) && KeepsPages(old(mem), mem, old(use), d, n, count)
      ensures Valid() <==> p != 0 || old(TopRun(count)) == 0 || old(NoFrameFor(d, n))
      ensures count == 1 && old(FrameOf(Flat(mem, d, n))) != 0 ==> p != 0
      ensures old(TopRun(count)) == 0 && !(count == 1 && old(FrameOf(Flat(mem, d, n))) != 0) ==> p == 0
      ensures (count == 1 || old(MissingTables(mem, d, n, count)) == {}) && old(TopRun(count)) != 0 ==>
                (p != 0 <==> old(Enough(d, n, count)))
      ensures |old(vmm.pmm.free)| > old(Need(mem, d, n, count)) && old(TopRun(count)) != 0 ==> p != 0
      ensures |old(vmm.pmm.free)| + 2 < old(Need(mem, d, n, count)) ==> p == 0
      ensures |old(vmm.pmm.free)| < old(|MissingPages(mem, d, n, count)|) ==> p == 0
      ensures p == 0 ==> vmm.pos == old(vmm.pos) && vmm.freeCount == old(vmm.freeCount)
      ensures p == 0 ==>
                if old(TopRun(count)) == 0 || old(NoFrameFor(d, n)) then Now() == old(Now())
                else LeftMapped(old(vmm.slot), old(TopRun(count)) + 1 - count)
      ensures p != 0 ==> Shown(old(Now()), p, d, n, count)
    {
      hide Shown, Opened, Need, Highest, Unmapped, TablesOk, PagesOk, KernelShared, PageAllocator.Sound, Flat, KeepsPages;
      if count == 1 {
        GetIsFlat(mem, d, n * 0x1000);
        NeedForOne(mem, d, n);
        if GetPageAttr(GetValue(mem, d, n * 0x1000)) == 0 {
          EnoughForOne(d, n);
          p := WindowFresh(d, n);
        } else {
          p := ShowMapped(d, n);
        }
        ShownKeeps(old(Now()), p, d, n);
      } else {
        p := MmapPdePage(d, n, count);
      }
    }

    lemma EnoughForOne(d: nat, n: nat)
      requires n < USER_PAGES && FrameOf(Flat(mem, d, n)) == 0
      ensures Enough(d, n, 1) <==> !(vmm.pmm.free <= {vmm.pmm.head})
      ensures |vmm.pmm.free| > Need(mem, d, n, 1) ==> !(vmm.pmm.free <= {vmm.pmm.head})
    {
      hide Flat;
      NeedForOne(mem, d, n);
      NoneAvailable(vmm.pmm.free, vmm.pmm.head);
      OneIsBelow(vmm.pmm.free, vmm.pmm.head);
    }

    lemma NeedForOne(mem: Memory, d: nat, n: nat)
      requires n < USER_PAGES
      ensures MissingPages(mem, d, n, 1) == if FrameOf(Flat(mem, d, n)) == 0 then {n} else {}
      ensures |MissingPages(mem, d, n, 1)| <= Need(mem, d, n, 1) <= |MissingPages(mem, d, n, 1)| + 1
      ensures FrameOf(Flat(mem, d, n)) != 0 ==> Need(mem, d, n, 1) == 0
    {
      assert MissingPages(mem, d, n, 1) == if FrameOf(Flat(mem, d, n)) == 0 then {n} else {};
      assert MissingTables(mem, d, n, 1) == if Word(mem, d, n / 0x400) == 0 then {n / 0x400} else {};
    }

    lemma ShownKeeps(s0: Stage, p: word, d: nat, n: nat)
      requires Shown(s0, p, d, n, 1) || Now() == s0
      ensures KeepsPages(s0.mem, mem, s0.use, d, n, 1)
    {
    }

    /** A page that has its frame is reached through the direct map. */
    method ShowMapped(d: nat, n: nat) returns (p: word)
      requires Valid() && IsDir(use, d) && n < USER_PAGES && vmm.dmmap == vmm.pmm.pages && FrameOf(Flat(mem, d, n)) != 0
      modifies this, vmm, vmm.kmm`table, vmm.kmm.entries
      ensures Valid() && vmm.owner == old(vmm.owner) && Now() == old(Now())
      ensures p != 0 && Shown(old(Now()), p, d, n, 1)
    {
      hide TablesOk, KernelShared, Unmapped;
      hide PageAllocator.Flagged;
      PageInRange(d, n);
      p := vmm.MmapPage(GetPageAttr(Flat(mem, d, n)));
    }

    lemma PageInRange(d: nat, n: nat)
      requires Core() && IsDir(use, d) && n < USER_PAGES && FrameOf(Flat(mem, d, n)) != 0
      ensures FrameOf(Flat(mem, d, n)) < vmm.pmm.pages
      ensures FrameOf(Flat(mem, d, n)) !in vmm.owner
    {
    }

    /** umm_mmap_kmm, on a range that is not empty. */
    method MmapKmm(attr: word, len: nat, d: nat) returns (r: word)
      requires Valid() && IsDir(use, d) && 0 < len && attr + len < 0x1_0000_0000 && vmm.dmmap == vmm.pmm.pages
      requires attr + len <= PAGE_OFFSET ==> Safe(Unmapped(vmm.slot), vmm.pos, PageCount(attr, len))
      modifies this, vmm, vmm.kmm`table, vmm.kmm.entries, vmm.pmm, vmm.pmm.bitmap
      ensures attr + len > PAGE_OFFSET ==> r == 0 && Valid() && Now() == old(Now()) && vmm.pos == old(vmm.pos)
      ensures Core() && vmm.owner == old(vmm.owner)
      ensures KeepsPages(old(mem), mem, old(use), d, FrameOf(attr), PageCount(attr, len))
      ensures r == 0 ==> vmm.pos == old(vmm.pos) && vmm.freeCount == old(vmm.freeCount)
      ensures attr + len <= PAGE_OFFSET ==>
                var n, count := FrameOf(attr), PageCount(attr, len);
                && (Valid() <==> r != 0 || old(TopRun(count)) == 0 || old(NoFrameFor(d, n)))
                && (count == 1 && old(FrameOf(Flat(mem, d, n))) != 0 ==> r != 0)
                && (old(TopRun(count)) == 0 && !(count == 1 && old(FrameOf(Flat(mem, d, n))) != 0) ==> r == 0)
                && ((count == 1 || old(MissingTables(mem, d, n, count)) == {}) && old(TopRun(count)) != 0 ==>
                      (r != 0 <==> old(Enough(d, n, count))))
                && (|old(vmm.pmm.free)| > old(Need(mem, d, n, count)) && old(TopRun(count)) != 0 ==> r != 0)
                && (|old(vmm.pmm.free)| + 2 < old(Need(mem, d, n, count)) ==> r == 0)
                && (r == 0 ==>
                      if old(TopRun(count)) == 0 || old(NoFrameFor(d, n)) then Now() == old(Now())
                      else LeftMapped(old(vmm.slot), old(TopRun(count)) + 1 - count))
      ensures r != 0 ==> r % 0x1000 == attr % 0x1000
      ensures r != 0 ==> Shown(old(Now()), GetPageAttr(r), d, FrameOf(attr), PageCount(attr, len))
    {
      hide Shown, Need, Highest, Unmapped, TablesOk, PagesOk, KernelShared, PageAllocator.Sound, Flat, FrameOf;
      hide GetPageAttr, PageCount;
      hide KeepsPages, LeftMapped, NoFrameFor, TopRun, Enough, MissingTables, MissingPages;
      if attr + len > PAGE_OFFSET {
        NothingKept(use, vmm.pmm.free, d, mem, FrameOf(attr), PageCount(attr, len));
        return 0;
      }
      PageSplit(attr, len);
      var base := GetPageAttr(attr);
      var count := (attr + len - base + 0xfff) / 0x1000;
      PageCountPositive(attr, len);
      var p := Show(d, FrameOf(base), count);
      if p == 0 {
        return 0;
      }
      ShownAddress(old(Now()), p, d, FrameOf(base), count);
      Offset(p, attr);
      r := p + (attr - base);
    }

    lemma ShownAddress(s0: Stage, p: word, d: nat, n: nat, count: nat)
      requires Shown(s0, p, d, n, count)
      ensures p % 0x1000 == 0
    {
    }

    /** The kernel map by page number: the direct map, then the slots. */
    lemma LooksUp()
      requires vmm.Shape()
      ensures |vmm.kmm.table| == GLOBL_PAGE_NUM == vmm.dmmap + |vmm.slot|
      ensures forall j: nat :: j < GLOBL_PAGE_NUM ==>
                vmm.kmm.table[j] == if j < vmm.dmmap then j else vmm.slot[j - vmm.dmmap]
    {
    }

    /** The kernel range shown is the user range, page by page, but for pages whose table could not be had: the first page
        is one exactly when it is refused, each costs a frame that nobody has, and there is none only if there were as many
        frames as needed. */
    lemma ShownAliases(s0: Stage, p: word, d: nat, n: nat, count: nat)
      requires vmm.Shape() && Shown(s0, p, d, n, count) && 0 < count && n < USER_PAGES
      ensures FrameOf(p) + count <= GLOBL_PAGE_NUM
      ensures forall j: nat {:trigger Flat(mem, d, j)} :: n <= j < n + count ==>
                vmm.kmm.table[FrameOf(p) + (j - n)] == FrameOf(Flat(mem, d, j)) != 0 || FrameOf(Flat(mem, d, j)) == 0
      ensures FrameOf(Flat(mem, d, n)) == 0 <==> Refused(s0, d, n)
      ensures |Leaked(s0, Now())| == |MissingPages(mem, d, n, count)|
      ensures Full(mem, d, n, count) ==> |s0.free| >= Need(s0.mem, d, n, count)
      ensures |s0.free| > Need(s0.mem, d, n, count) ==> Full(mem, d, n, count) && Grown(s0.use, use, s0.free, vmm.pmm.free, d)
    {
      hide Flat, Need, Grown, KeepsPages, PageAllocator.Shape, Refused, Opened, MissingPages, Leaked, Full, Kept;
      if FrameOf(p) >= vmm.dmmap {
        OpenedAll(s0, Now(), d, n, FrameOf(p) - vmm.dmmap, count);
        OpenedAliases(s0, d, n, FrameOf(p) - vmm.dmmap, count);
      } else {
        DirectAliases(s0, p, d, n);
      }
    }

    lemma DirectAliases(s0: Stage, p: word, d: nat, n: nat)
      requires vmm.Shape() && FrameOf(p) < vmm.dmmap && FrameOf(p) == FrameOf(Flat(mem, d, n)) != 0 && Now() == s0 && n < USER_PAGES
      ensures FrameOf(p) + 1 <= GLOBL_PAGE_NUM == |vmm.kmm.table| && vmm.kmm.table[FrameOf(p)] == FrameOf(p)
      ensures !Refused(s0, d, n) && Leaked(s0, Now()) == {} && MissingPages(mem, d, n, 1) == {} && Need(mem, d, n, 1) == 0
      ensures Full(mem, d, n, 1) && Grown(s0.use, use, s0.free, vmm.pmm.free, d)
    {
      hide Flat, Need, Grown, PageAllocator.Shape, Refused, MissingPages, Leaked, Full;
      LooksUp();
      NothingKept(use, vmm.pmm.free, d, mem, n, 1);
      NeedForOne(mem, d, n);
      NotRefused(s0, d, n);
    }

    lemma OpenedAliases(s0: Stage, d: nat, n: nat, head: nat, count: nat)
      requires vmm.Shape() && Opened(s0, Now(), d, n, head, count, count)
      ensures head + count <= |vmm.slot| && vmm.dmmap + head + count <= GLOBL_PAGE_NUM == |vmm.kmm.table|
      ensures forall j: nat {:trigger Flat(mem, d, j)} :: n <= j < n + count ==>
                vmm.kmm.table[vmm.dmmap + head + (j - n)] == FrameOf(Flat(mem, d, j)) != 0 || FrameOf(Flat(mem, d, j)) == 0
    {
      hide Flat, Need, Grown, KeepsPages, Refused, Spent, Kept, Lasts, PageAllocator.Shape;
      LooksUp();
      forall j: nat | n <= j < n + count
        ensures vmm.kmm.table[vmm.dmmap + head + (j - n)] == FrameOf(Flat(mem, d, j)) != 0 || FrameOf(Flat(mem, d, j)) == 0
      {
        assert vmm.slot[head + (j - n)] != 0;
      }
    }

    lemma NotRefused(s: Stage, d: nat, n: nat)
      requires FrameOf(Flat(s.mem, d, n)) != 0
      ensures !Refused(s, d, n) && Leaked(s, s) == {} && Full(s.mem, d, n, 1)
    {
    }

    /** get_globl_phy_attr of a physical address, as vmm_mmap_pde_page calls it: that address exactly when its frame lies
        in the direct map, or happens to be mapped by the slot of that number; an unmapped slot makes it frame 0. */
    lemma PhysicalLookup(phy: word)
      requires vmm.Shape() && FrameOf(phy) < GLOBL_PAGE_NUM && vmm.kmm.table[FrameOf(phy)] < 0x100000
      ensures GlobalPhyAttr(phy) == phy <==> FrameOf(phy) < vmm.dmmap || vmm.slot[FrameOf(phy) - vmm.dmmap] == FrameOf(phy)
      ensures FrameOf(phy) >= vmm.dmmap && vmm.slot[FrameOf(phy) - vmm.dmmap] == 0 ==> FrameOf(GlobalPhyAttr(phy)) == 0
    {
      hide PageAllocator.Shape, FrameAllocator.Coherent;
      LooksUp();
    }

    /** umm_ummap_kmm: the page count is computed anew, from the unaligned pointer.  The books stay right exactly when the
        pages are of the direct map or windows. */
    method UmmapKmm(r: word, len: nat)
      requires Valid() && 0 < len && r + len < 0x1_0000_0000
      modifies vmm, vmm.kmm`table, vmm.kmm.entries
      ensures Valid() <==> FrameOf(r) < vmm.dmmap ||
                           (vmm.InSlots(r, PageCount(r, len)) && old(vmm.AreWindows(FrameOf(r) - vmm.dmmap, PageCount(r, len))))
      ensures vmm.owner == old(vmm.owner) && vmm.pmm.free == old(vmm.pmm.free)
      ensures FrameOf(r) < vmm.dmmap ==> vmm.slot == old(vmm.slot)
      ensures vmm.InSlots(r, PageCount(r, len)) ==> vmm.slot == Cleared(old(vmm.slot), FrameOf(r) - vmm.dmmap, PageCount(r, len))
      ensures FrameOf(r) >= vmm.dmmap && !vmm.InSlots(r, PageCount(r, len)) ==> vmm.slot == old(vmm.slot)
    {
      hide Cleared, TablesOk, PagesOk, KernelShared, Unmapped, FrameAllocator.Valid, OwnersOk;
      PageSplit(r, len);
      var base := GetPageAttr(r);
      var count := (r + len - base + 0xfff) / 0x1000;
      vmm.UmmapPage(base, count);
    }

    /** The free frames are nobody's, and the owned ones are mapped where they are owned. */
    ghost predicate StageApart(s: Stage, owner: map<nat, nat>) {
      && (forall f: nat :: f in s.free ==> vmm.pmm.base <= f < vmm.pmm.pages && f !in s.use && f !in owner)
      && (forall f: nat :: f in owner ==> f != 0 && owner[f] < |s.slot| && s.slot[owner[f]] == f)
    }

    /** Closing what was shown undoes it. */
    lemma ShownCloses(s0: Stage, p: word, d: nat, n: nat, count: nat)
      requires Core() && Shown(s0, p, d, n, count)
      requires StageApart(s0, vmm.owner)
      ensures FrameOf(p) < vmm.dmmap ==> vmm.slot == s0.slot
      ensures FrameOf(p) >= vmm.dmmap ==>
                var head := FrameOf(p) - vmm.dmmap;
                && head + count <= vmm.slots == |vmm.slot|
                && (forall j: nat :: head <= j < head + count ==> vmm.slot[j] != 0 && !Held(vmm.View(), j))
                && Cleared(vmm.slot, head, count) == s0.slot
      ensures FrameOf(p) + count <= GLOBL_PAGE_NUM
    {
      hide Flat, Need, Opened, TablesOk, PagesOk, KernelShared, Cleared, FrameAllocator.Valid, FrameAllocator.Coherent;
      hide KernelMap.Valid;
      if FrameOf(p) >= vmm.dmmap {
        var head := FrameOf(p) - vmm.dmmap;
        OpenedSlots(s0, Now(), d, n, head, count, count);
        assert Cleared(vmm.slot, head, count) == s0.slot;
      }
    }

    /** A window onto one page is closed: whatever was in hand stays so. */
    method CloseFresh(p: word, d: nat, ghost s0: Stage, ghost n: nat)
      requires Valid() && p != 0 && Shown(s0, p, d, n, 1) && StageApart(s0, vmm.owner)
      modifies vmm, vmm.kmm`table, vmm.kmm.entries
      ensures Valid() && vmm.slot == s0.slot && vmm.owner == old(vmm.owner)
    {
      hide Shown, StageApart, TablesOk, PagesOk, KernelShared, Cleared, PageAllocator.Shape;
      ShownCloses(s0, p, d, n, 1);
      UmmapKmm(p, 1);
    }

    lemma FreeIsApart()
      requires Core()
      ensures StageApart(Now(), vmm.owner)
    {
    }

    /** A frame that leaked is neither free nor in use, and no slot owns it. */
    lemma LeakedInHand(s0: Stage, owner: map<nat, nat>)
      requires StageApart(s0, owner) && owner == vmm.owner
      ensures forall f: nat :: f in Leaked(s0, Now()) ==> InHand(f)
    {
    }

    /** Opening a range and closing it by the pointer that was returned: kernel map and free count are restored, no frame
        is freed, and every page keeps its frame; pages of the range that had none have one now, if the frames last. */
    method Window(attr: word, len: nat, d: nat) returns (shown: bool)
      requires Valid() && IsDir(use, d) && 0 < len && attr + len <= PAGE_OFFSET && vmm.dmmap == vmm.pmm.pages
      requires Safe(Unmapped(vmm.slot), vmm.pos, PageCount(attr, len))
      modifies this, vmm, vmm.kmm`table, vmm.kmm.entries, vmm.pmm, vmm.pmm.bitmap
      ensures Core() && vmm.owner == old(vmm.owner) && vmm.freeCount == old(vmm.freeCount)
      ensures KeepsPages(old(mem), mem, old(use), d, FrameOf(attr), PageCount(attr, len))
      ensures Valid() <==> shown || old(TopRun(PageCount(attr, len))) == 0 || old(NoFrameFor(d, FrameOf(attr)))
      ensures if Valid() then vmm.slot == old(vmm.slot)
              else LeftMapped(old(vmm.slot), old(TopRun(PageCount(attr, len))) + 1 - PageCount(attr, len))
      ensures PageCount(attr, len) == 1 || old(MissingTables(mem, d, FrameOf(attr), PageCount(attr, len))) == {} ==>
                old(TopRun(PageCount(attr, len))) != 0 ==> (shown <==> old(Enough(d, FrameOf(attr), PageCount(attr, len))))
      ensures shown ==> (FrameOf(Flat(mem, d, FrameOf(attr))) == 0 <==> old(Refused(Now(), d, FrameOf(attr))))
      ensures shown ==> |Leaked(old(Now()), Now())| == |MissingPages(mem, d, FrameOf(attr), PageCount(attr, len))|
      ensures forall f: nat :: f in Leaked(old(Now()), Now()) ==> InHand(f)
      ensures shown && Full(mem, d, FrameOf(attr), PageCount(attr, len)) ==>
                |old(vmm.pmm.free)| >= old(Need(mem, d, FrameOf(attr), PageCount(attr, len)))
      ensures |old(vmm.pmm.free)| > old(Need(mem, d, FrameOf(attr), PageCount(attr, len))) ==>
                && Valid() && Grown(old(use), use, old(vmm.pmm.free), vmm.pmm.free, d)
                && (shown ==> Full(mem, d, FrameOf(attr), PageCount(attr, len)))
    {
      hide Shown, TablesOk, PagesOk, KernelShared, Flat, Need, Highest, Unmapped, Grown, KeepsPages, Cleared;
      hide GetPageAttr, PageAllocator.Shape;
      hide TopRun, NoFrameFor, LeftMapped, Full, Enough, MissingTables, MissingPages, Refused, Leaked, InHand;
      hide FrameAllocator.Valid, StageApart;
      FreeIsApart();
      PageCountPositive(attr, len);
      var r := MmapKmm(attr, len, d);
      shown := r != 0;
      if shown {
        PageSplit(attr, len);
        ShownAliases(old(Now()), GetPageAttr(r), d, FrameOf(attr), PageCount(attr, len));
        ShownCloses(old(Now()), GetPageAttr(r), d, FrameOf(attr), PageCount(attr, len));
        SameCount(r, attr, len);
        ghost var mid := Now();
        UmmapKmm(r, len);
        LeakedSame(old(Now()), mid, Now());
      } else if |old(vmm.pmm.free)| > old(Need(mem, d, FrameOf(attr), PageCount(attr, len))) {
        NothingKept(use, vmm.pmm.free, d, mem, FrameOf(attr), PageCount(attr, len));
      }
      LeakedInHand(old(Now()), old(vmm.owner));
    }
  }

  /** A small memory without an address space. */
  method NoSpace(pages: nat) returns (s: AddressSpaces)
    requires 4 <= pages <= 0x100
    ensures s.Valid() && s.use == map[] && s.vmm.dmmap == s.vmm.pmm.pages == pages && s.vmm.pmm.free == Run(1, pages - 1)
    ensures forall count: nat :: 0 < count <= 3 ==> Safe(Unmapped(s.vmm.slot), s.vmm.pos, count) && s.TopRun(count) != 0
    ensures fresh({s, s.vmm, s.vmm.kmm, s.vmm.kmm.entries, s.vmm.pmm, s.vmm.pmm.bitmap})
  {
    hide UnmappedBelow, Unmapped, Highest, KernelMap.Valid, Safe, TablesOk, PagesOk, KernelShared;
    hide FrameAllocator.Coherent, Available;
    var vmm := SmallMemory(pages);
    forall count: nat | 0 < count <= 3
      ensures Safe(Unmapped(vmm.slot), vmm.pos, count) && Highest(Unmapped(vmm.slot), vmm.slots, vmm.pos, count) != 0
    {
      ExampleIsAskable(vmm, count);
    }
    s := new AddressSpaces(vmm, seq(pages, _ => seq(0x400, _ => 0)));
  }

  /** One address space on it: its directory is frame 1. */
  method SmallSpace(pages: nat) returns (s: AddressSpaces, d: nat)
    requires 4 <= pages <= 0x100
    ensures s.Valid() && IsDir(s.use, d) && s.vmm.dmmap == s.vmm.pmm.pages == pages && s.vmm.pmm.free == Run(2, pages - 2)
    ensures forall count: nat :: 0 < count <= 3 ==> Safe(Unmapped(s.vmm.slot), s.vmm.pos, count) && s.TopRun(count) != 0
    ensures (forall n: nat :: n < USER_PAGES ==> Flat(s.mem, d, n) == 0) && forall m: nat :: m < KERNEL_PDE ==> Word(s.mem, d, m) == 0
    ensures fresh({s, s.vmm, s.vmm.kmm, s.vmm.kmm.entries, s.vmm.pmm, s.vmm.pmm.bitmap})
  {
    hide Unmapped, Highest, PageAllocator.Sound, Safe, Flat, Word, AddressSpaces.Apart, AddressSpaces.Tables, PagesOk;
    s := NoSpace(pages);
    s.AllBelow();
    assert 1 in s.vmm.pmm.free && pages - 1 in s.vmm.pmm.free;
    d := s.AllocPde();
    assert d == 1;
    assert s.vmm.pmm.free == Run(1, pages - 1) - {1} == Run(2, pages - 2);
  }

  /** Four frames, two of them free, and windows onto three pages are asked for: the rollback leaves a slot mapped that is
      counted as unmapped. */
  method WindowsExample() returns (s: AddressSpaces, attr: word)
    ensures attr == 0 && s.Core() && !s.Valid()
  {
    hide UnmappedBelow, Unmapped, AddressSpaces.Core, PageAllocator.Valid, Safe, Need, AddressSpaces.TopRun, Flat;
    var d: nat;
    s, d := SmallSpace(4);
    assert MissingPages(s.mem, d, 0, 3) == Run(0, 3);
    hide MissingPages;
    OneIsBelow(s.vmm.pmm.free, s.vmm.pmm.head);
    attr := s.MmapPdePage(d, 0, 3);
  }

  /** The same memory and one page, with frames 2 and 3 free: frame 3 is taken for the page, its table is refused although
      frame 2 is free, and when the window is closed frame 3 is nobody's. */
  method LeakExample() returns (s: AddressSpaces, d: nat, p: word)
    ensures p != 0 && s.Valid() && FrameOf(Flat(s.mem, d, 0)) == 0
    ensures s.vmm.pmm.free == {2} && s.InHand(3)
  {
    hide UnmappedBelow, Unmapped, Safe, Flat, Word, AddressSpaces.Core, PageAllocator.Valid, PageAllocator.Shape;
    hide AddressSpaces.Shown;
    s, d := SmallSpace(4);
    TwoLeft(s, d);
    hide AddressSpaces.TopRun, Refused;
    ghost var top, s0 := s.TopRun(1), s.Now();
    s.FreeIsApart();
    p := s.WindowFresh(d, 0);
    ghost var f := s.vmm.slot[top];
    assert f == 3;
    s.CloseFresh(p, d, s0, 0);
  }

  lemma TwoLeft(s: AddressSpaces, d: nat)
    requires s.vmm.pmm.free == Run(2, 2) && Flat(s.mem, d, 0) == 0 && Word(s.mem, d, 0) == 0
    ensures s.vmm.pmm.free == {2, 3} && !(s.vmm.pmm.free <= {s.vmm.pmm.head}) && Refused(s.Now(), d, 0)
  {
    assert 2 in s.vmm.pmm.free && 3 in s.vmm.pmm.free;
  }

  /** Eight frames, and page 0 faults twice: the frame of the first fault is lost. */
  method LostExample() returns (s: AddressSpaces, f: nat)
    ensures !s.Core() && s.Lost(f)
  {
    hide Unmapped, Safe, AddressSpaces.TopRun, AddressSpaces.Core, Flat, AddressSpaces.Lost, PageAllocator.Valid;
    var d: nat;
    s, d := SmallSpace(8);
    assert 2 in s.vmm.pmm.free && 7 in s.vmm.pmm.free;
    OneIsBelow(s.vmm.pmm.free, s.vmm.pmm.head);
    var ok := s.Handler(d, 0);
    f := FrameOf(Flat(s.mem, d, 0));
    UsedIsNot0(s, f);
    OneIsBelow(s.vmm.pmm.free, s.vmm.pmm.head);
    s.MappedHasTable(s.mem, d, 0);
    ok := s.Handler(d, 0);
  }

  lemma UsedIsNot0(s: AddressSpaces, f: nat)
    requires s.Core() && f in s.use
    ensures f != 0
  {
    hide TablesOk, PagesOk, KernelShared, KernelMap.Valid, Flat;
  }
}
