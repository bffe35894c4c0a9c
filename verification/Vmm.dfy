/** Kernel page allocation, kernel/mm/vmm.c: slots of the kernel map above the direct map, backed by frames of the
    physical allocator. */
module Vmm {
  import opened Basics
  import opened Page
  import opened Pmm
  import opened Kmm
  import opened Search
  import opened Slots

  /** The direct map: page i is frame i. */
  ghost function Direct(n: nat): (s: seq<nat>)
    ensures |s| == n && forall i: nat :: i < n ==> s[i] == i
  {
    seq(n, i => i)
  }

  /** The loop of vmm_init: page i of the direct map is frame i. */
  method MapDirect(kmm: KernelMap, n: nat)
    requires kmm.Valid() && n <= DMMAP_PAGE_MAX && forall j: nat :: j < GLOBL_PAGE_NUM ==> kmm.table[j] == 0
    modifies kmm`table, kmm.entries
    requires forall j: nat :: j < GLOBL_PAGE_NUM ==> kmm.entries[j] == 0
    ensures kmm.Valid() && |kmm.table| == GLOBL_PAGE_NUM
    ensures forall j: nat {:trigger kmm.table[j]} :: j < GLOBL_PAGE_NUM ==> kmm.table[j] == if j < n then j else 0
    ensures forall j: nat {:trigger kmm.entries[j]} :: j < GLOBL_PAGE_NUM ==> kmm.entries[j] == if j < n then j * 0x1000 + 3 else 0
  {
    for i := 0 to n
      invariant kmm.Valid()
      invariant forall j: nat {:trigger kmm.table[j]} :: j < GLOBL_PAGE_NUM ==> kmm.table[j] == if j < i then j else 0
      invariant forall j: nat {:trigger kmm.entries[j]} :: j < GLOBL_PAGE_NUM ==> kmm.entries[j] == if j < i then j * 0x1000 + 3 else 0
    {
      kmm.PageMmap(i, i);
    }
  }

  class PageAllocator {
    const kmm: KernelMap
    const pmm: FrameAllocator
    const dmmap: nat  // dmmap_page_count
    const slots: nat  // vmmap_page_count
    var freeCount: int
    var pos: word
    ghost var slot: seq<nat>
    ghost var owner: map<nat, nat>

    /** What ties the pieces together, whatever the state of the books. */
    ghost predicate Shape()
      reads this, kmm, kmm.entries, pmm, pmm.bitmap
    {
      && kmm.Valid() && pmm.Coherent() && kmm.entries as object != pmm.bitmap
      && dmmap == Min(pmm.pages, DMMAP_PAGE_MAX) && slots == GLOBL_PAGE_NUM - dmmap
      && kmm.table == Direct(dmmap) + slot && |slot| == slots && Flagged()
    }

    /** The pages of the direct map and the mapped slots are present and writable; the entry of an unmapped slot is 0. */
    ghost predicate Flagged()
      reads this`slot, kmm.entries
    {
      && dmmap + |slot| <= kmm.entries.Length
      && (forall i: nat {:trigger kmm.entries[i]} :: i < dmmap ==> kmm.entries[i] == i * 0x1000 + 3)
      && (forall i: nat {:trigger slot[i]} :: i < |slot| ==>
            kmm.entries[dmmap + i] == if slot[i] == 0 then 0 else slot[i] * 0x1000 + 3)
    }

    /** The frames are accounted for. */
    ghost predicate Sound()
      reads this, kmm, kmm.entries, pmm, pmm.bitmap
    {
      Shape() && pmm.Valid() && OwnersOk(View(), pmm.base, pmm.pages)
    }

    /** So are the unmapped slots. */
    ghost predicate Valid()
      reads this, kmm, kmm.entries, pmm, pmm.bitmap
    {
      Sound() && AboveMapped(slot, pos) && freeCount == |Unmapped(slot)|
    }

    ghost function View(): Books
      reads this, pmm
    {
      Books(slot, pmm.free, owner)
    }

    /** get_vmm_page */
    function GetPage(index: word): (attr: word)
      requires Shape()
      reads this, kmm, kmm.entries, pmm, pmm.bitmap
      ensures attr == if index < slots then slot[index] * 0x1000 else 0
    {
      if index < slots then kmm.GetAttr(dmmap + index) else 0
    }

    /** globl_page_mmap on a slot. */
    method MapSlot(frame: nat, i: nat)
      requires Shape() && 0 < frame < 0x100000 && i < slots
      modifies this`slot, kmm`table, kmm.entries
      ensures Shape() && slot == old(slot)[i := frame] && (old(pmm.Valid()) ==> pmm.Valid())
    {
      kmm.PageMmap(frame, dmmap + i);
      slot := slot[i := frame];
    }

    /** globl_page_remove on a slot. */
    method RemoveSlot(i: nat)
      requires Shape() && i < slots
      modifies this`slot, kmm`table, kmm.entries
      ensures Shape() && slot == old(slot)[i := 0] && (old(pmm.Valid()) ==> pmm.Valid())
    {
      kmm.PageRemove(dmmap + i);
      slot := slot[i := 0];
    }

    /** The search loop of vmm_alloc_page and vmm_mmap_pde_page: the position from which `count` slots down are
        taken, 0 if there is none.  Skipping past mapped slots, it finds what trying every position finds. */
    method FindRun(count: nat) returns (p: word)
      requires Shape() && AboveMapped(slot, pos) && 0 < count <= 0x100000
      ensures p == Found(Unmapped(slot), slots, pos, count)
    {
      hide Flagged, KernelMap.Valid, FrameAllocator.Coherent, Highest, UnmappedBelow, Direct;
      p := pos;
      ghost var wrapped := false;
      while p > 0
        invariant wrapped ==> p == 0xffff_ffff && 1 in Unmapped(slot) && Highest(Unmapped(slot), slots, pos, count) == 0
        invariant !wrapped ==> p <= pos && Highest(Unmapped(slot), slots, pos, count) == Highest(Unmapped(slot), slots, p, count)
        invariant p == 0 ==> 1 !in Unmapped(slot)
        decreases if wrapped then 0 else p
      {
        var i := 0;
        while i < count && GetPage(Sub(p, i)) == 0
          invariant 0 <= i <= count
          invariant forall k: word :: k < i ==> Open(Unmapped(slot), slots, Sub(p, k))
        {
          i := i + 1;
        }
        if i == count {
          assert Fits(Unmapped(slot), slots, p, count);
          return;
        }
        SkipMissesNothing(Unmapped(slot), slots, p, i, count);
        SkipHighest(Unmapped(slot), slots, p, i, count);
        if p == i {
          assert Open(Unmapped(slot), slots, Sub(p, i - 1));
          wrapped := true;
        } else if p - i == 1 {
          assert !Open(Unmapped(slot), slots, 1);
        }
        p := Sub(p - i, 1);
      }
    }

    /** One turn of the loop that backs slots. */
    method BackOne(i: nat) returns (ok: bool)
      requires Shape() && pmm.Valid() && i < slots
      modifies this`slot, this`owner, kmm`table, kmm.entries, pmm, pmm.bitmap
      ensures Shape() && pmm.Valid() && pmm.head == old(pmm.head)
      ensures ok <==> !(old(pmm.free) <= {pmm.head})
      ensures !ok ==> View() == old(View())
      ensures pmm.head in old(pmm.free) ==> pmm.head in pmm.free
      ensures ok ==> old(pmm.free) != {} && View() == BackedOnce(old(View()), i) && pmm.tail + 1 == slot[i]
    {
      hide Flagged, KernelMap.Valid;
      var attr := pmm.AllocPage();
      ok := attr != 0;
      if ok {
        TopIs(old(pmm.free), FrameOf(attr));
        MapSlot(attr / 0x1000, i);
        owner := owner[FrameOf(attr) := i];
      }
    }

    /** The loop that backs `count` slots from `lo` on: stops when frames run out. */
    method Back(lo: nat, count: nat) returns (i: nat)
      requires Shape() && pmm.Valid() && lo + count <= slots
      modifies this`slot, this`owner, kmm`table, kmm.entries, pmm, pmm.bitmap
      ensures Shape() && pmm.Valid() && pmm.head == old(pmm.head)
      ensures i <= count && (i < count ==> pmm.free <= {pmm.head})
      ensures pmm.head in old(pmm.free) ==> pmm.head in pmm.free
      ensures i <= |old(pmm.free)| && View() == Backed(old(View()), lo, i)
      ensures i == count > 0 ==> pmm.tail + 1 == slot[lo + count - 1]
    {
      hide Flagged, KernelMap.Valid, FrameAllocator.Valid, FrameAllocator.Coherent, Direct, OwnersOk;
      i := 0;
      while i < count
        invariant Shape() && pmm.Valid() && pmm.head == old(pmm.head)
        invariant i <= count && i <= |old(pmm.free)|
        invariant pmm.head in old(pmm.free) ==> pmm.head in pmm.free
        invariant View() == Backed(old(View()), lo, i)
        invariant i > 0 ==> pmm.tail + 1 == slot[lo + i - 1]
      {
        ghost var was := pmm.free;
        var ok := BackOne(lo + i);
        if !ok {
          return;
        }
        assert was != {} && i < |old(pmm.free)|;
        i := i + 1;
      }
    }

    /** One turn of the rollback of vmm_alloc_page: the slot is unmapped first, so what get_vmm_page then gives to
        pmm_free_page is NULL, frame 0. */
    method RollbackOne(i: nat)
      requires Shape() && i < slots
      modifies this`slot, kmm`table, kmm.entries, pmm, pmm.bitmap
      ensures Shape() && slot == old(slot)[i := 0]
      ensures pmm.free == old(pmm.free) + {0} && pmm.freeCount == old(pmm.freeCount) + 1
    {
      hide Flagged, Direct, KernelMap.Valid;
      RemoveSlot(i);
      var attr := GetPage(i);
      pmm.FreePage(attr, 1);
    }

    /** The rollback of vmm_alloc_page after n pages: slots lo + n down to lo + 1, not lo. */
    method Rollback(lo: nat, n: nat)
      requires Shape() && lo + n < slots
      modifies this`slot, kmm`table, kmm.entries, pmm, pmm.bitmap
      ensures Shape()
      ensures n == 0 ==> View() == old(View()) && (old(pmm.Valid()) ==> pmm.Valid())
      ensures pmm.free == old(pmm.free) + if n > 0 then {0} else {}
      ensures pmm.freeCount == old(pmm.freeCount) + n
      ensures forall j: nat :: j < |slot| ==> slot[j] == if lo < j <= lo + n then 0 else old(slot[j])
    {
      hide Flagged;
      var i := n;
      while i > 0
        invariant 0 <= i <= n && Shape()
        invariant i == n ==> View() == old(View()) && (old(pmm.Valid()) ==> pmm.Valid())
        invariant pmm.free == old(pmm.free) + if i < n then {0} else {}
        invariant pmm.freeCount == old(pmm.freeCount) + n - i
        invariant |slot| == old(|slot|)
        invariant forall j: nat :: j < |slot| ==> slot[j] == if lo + i < j <= lo + n then 0 else old(slot[j])
      {
        RollbackOne(lo + i);
        i := i - 1;
      }
    }

    /** The part of vmm_alloc_page after the search.  Its rollback is sound only when there is nothing to roll back:
        otherwise frame 0, which no valid state has free, is in the free set afterwards. */
    method AllocAt(head: nat, count: nat) returns (ok: bool)
      requires Valid() && 0 < count && head + count - 1 <= pos && (head + count - 1 == pos ==> head > 0)
      requires forall j: nat :: head <= j < head + count ==> slot[j] == 0
      modifies this, kmm`table, kmm.entries, pmm, pmm.bitmap
      ensures ok <==> old(Available(pmm.free, pmm.head)) >= count
      ensures ok ==> Valid() && count <= |old(pmm.free)| && View() == Backed(old(View()), head, count)
      ensures ok ==> pos == if head + count - 1 == old(pos) then head - 1 else old(pos)
      ensures ok ==> pmm.tail + 1 == slot[head + count - 1]
      ensures !ok && old(Available(pmm.free, pmm.head)) == 0 ==> Valid() && View() == old(View()) && pos == old(pos)
      ensures !ok && old(Available(pmm.free, pmm.head)) > 0 ==> 0 in pmm.free
    {
      hide Flagged, Unmapped, Run, KernelMap.Valid;
      var i := Back(head, count);
      AvailableAfter(old(pmm.free), pmm.free, pmm.head, i);
      ok := i == count;
      if i < count {
        Rollback(head, i);
      } else {
        Book(head, count, old(View()));
      }
    }

    /** The bookkeeping of vmm_alloc_page. */
    method Book(head: nat, count: nat, ghost was: Books)
      requires Shape() && pmm.Valid() && 0 < count && head + count - 1 <= pos && (head + count - 1 == pos ==> head > 0)
      requires forall j: nat :: head <= j < head + count && j < |was.slot| ==> was.slot[j] == 0
      requires OwnersOk(was, pmm.base, pmm.pages) && AboveMapped(was.slot, pos) && freeCount == |Unmapped(was.slot)|
      requires forall f: nat :: f in was.free ==> pmm.base <= f < pmm.pages
      requires count <= |was.free| && View() == Backed(was, head, count)
      modifies this`pos, this`freeCount
      ensures Valid()
      ensures pos == if head + count - 1 == old(pos) then head - 1 else old(pos)
    {
      hide Flagged, Backed, Unmapped, Run, KernelMap.Valid;
      BackedBooks(was, head, count, pos, pmm.base, pmm.pages);
      if head + count - 1 == pos {
        pos := pos - count;
      }
      freeCount := freeCount - count;
    }

    /** vmm_alloc_page: the highest run of unmapped slots, backed by the highest free frames. */
    method AllocPage(count: nat) returns (attr: word)
      requires Valid() && 0 < count <= 0x100000 && Safe(Unmapped(slot), pos, count)
      modifies this, kmm`table, kmm.entries, pmm, pmm.bitmap
      ensures var top := old(Highest(Unmapped(slot), slots, pos, count));
              var available := old(Available(pmm.free, pmm.head));
              && (attr == 0 <==> top == 0 || available < count)
              && (attr == 0 && (top == 0 || available == 0) ==> Valid() && View() == old(View()) && pos == old(pos))
              && (attr == 0 && top != 0 && available > 0 ==> 0 in pmm.free)
              && (attr != 0 ==>
                    && Valid() && Within(old(Unmapped(slot)), top, count) && count <= |old(pmm.free)|
                    && attr == (dmmap + top + 1 - count) * 0x1000
                    && View() == Backed(old(View()), top + 1 - count, count)
                    && pmm.tail + 1 == slot[top]
                    && pos == if top == old(pos) then old(pos) - count else old(pos))
    {
      hide Flagged, Backed, Unmapped, Highest, FrameAllocator.Valid, KernelMap.Valid;
      SafeExactly(Unmapped(slot), slots, pos, count);
      var p := FindRun(count);
      if p == 0 {
        return 0;
      }
      FitsMeaning(Unmapped(slot), slots, p, count);
      var head := p - count + 1;
      var ok := AllocAt(head, count);
      return if ok then (dmmap + head) * 0x1000 else 0;
    }

    /** vmm_alloc_page when the search ends below slot 0 and the frames last: the slots it takes are the top pages of the
        direct map, which lose the frames they stand for, and the address is one of the direct map. */
    method AllocWrapped(count: nat) returns (attr: word)
      requires Valid() && 0 < count <= dmmap && Found(Unmapped(slot), slots, pos, count) == 0xffff_ffff
      requires Available(pmm.free, pmm.head) >= count
      modifies this`freeCount, kmm`table, kmm.entries, pmm, pmm.bitmap
      ensures !Shape() && attr == (dmmap - count) * 0x1000 && freeCount == old(freeCount) - count
      ensures |kmm.table| == GLOBL_PAGE_NUM && forall j: nat :: j < GLOBL_PAGE_NUM && !(dmmap - count <= j < dmmap) ==>
                kmm.table[j] == old(kmm.table)[j]
      ensures forall j: nat :: dmmap - count <= j < dmmap ==> kmm.table[j] in old(pmm.free) && kmm.table[j] !in pmm.free
    {
      hide UnmappedBelow, Highest, Unmapped, FrameAllocator.Valid, FrameAllocator.Coherent, Run, Available, OwnersOk, Direct;
      TwoAtLeast(count);
      var p := FindRun(count);
      var head := Sub(p, count - 1);
      BackTop(head, count);
      freeCount := freeCount - count;
      Broken(count);
      return (dmmap + head) % 0x1_0000_0000 * 0x1000;
    }

    /** Its loop: the pages get the highest free frames, from the highest down. */
    method BackTop(head: word, count: nat)
      requires kmm.Valid() && pmm.Valid() && kmm.entries as object != pmm.bitmap && |kmm.table| == GLOBL_PAGE_NUM
      requires 2 <= count <= dmmap <= GLOBL_PAGE_NUM && head == 0x1_0000_0000 - count && Available(pmm.free, pmm.head) >= count
      modifies kmm`table, kmm.entries, pmm, pmm.bitmap
      ensures |kmm.table| == GLOBL_PAGE_NUM && forall j: nat :: j < GLOBL_PAGE_NUM && !(dmmap - count <= j < dmmap) ==>
                kmm.table[j] == old(kmm.table)[j]
      ensures forall j: nat :: dmmap - count <= j < dmmap ==> kmm.table[j] in old(pmm.free) && kmm.table[j] !in pmm.free
      ensures kmm.table[dmmap - count] > kmm.table[dmmap - count + 1]
    {
      hide FrameAllocator.Valid, KernelMap.Valid, Available;
      var i := 0;
      while i < count
        invariant 0 <= i <= count && kmm.Valid() && pmm.Valid() && |kmm.table| == GLOBL_PAGE_NUM
        invariant pmm.head == old(pmm.head) && pmm.free <= old(pmm.free) && Available(pmm.free, pmm.head) >= count - i
        invariant forall j: nat :: j < GLOBL_PAGE_NUM && !(dmmap - count <= j < dmmap - count + i) ==> kmm.table[j] == old(kmm.table)[j]
        invariant forall j: nat :: dmmap - count <= j < dmmap - count + i ==>
                    kmm.table[j] in old(pmm.free) && kmm.table[j] !in pmm.free && forall f: nat :: f in pmm.free ==> f < kmm.table[j]
        invariant i > 1 ==> kmm.table[dmmap - count] > kmm.table[dmmap - count + 1]
      {
        i := BackWrapped(head, count, i);
      }
    }

    /** One turn of its loop. */
    method BackWrapped(head: word, count: nat, i: nat) returns (i': nat)
      requires kmm.Valid() && pmm.Valid() && kmm.entries as object != pmm.bitmap
      requires i < count <= dmmap <= GLOBL_PAGE_NUM && head == 0x1_0000_0000 - count && Available(pmm.free, pmm.head) > 0
      modifies kmm`table, kmm.entries, pmm, pmm.bitmap
      ensures i' == i + 1 && kmm.Valid() && pmm.Valid() && pmm.head == old(pmm.head)
      ensures |old(kmm.table)| == GLOBL_PAGE_NUM
      ensures kmm.table == old(kmm.table)[dmmap - count + i := kmm.table[dmmap - count + i]]
      ensures kmm.table[dmmap - count + i] in old(pmm.free) && pmm.free == old(pmm.free) - {kmm.table[dmmap - count + i]}
      ensures forall f: nat :: f in pmm.free ==> f < kmm.table[dmmap - count + i]
      ensures Available(pmm.free, pmm.head) == old(Available(pmm.free, pmm.head)) - 1
    {
      hide FrameAllocator.Coherent, Run, Available, Bounded;
      NoneAvailable(pmm.free, pmm.head);
      var attr := pmm.AllocPage();
      AvailableLess(old(pmm.free), pmm.head, attr / 0x1000);
      kmm.PageMmap(attr / 0x1000, (dmmap + head + i) % 0x1_0000_0000);
      i' := i + 1;
    }

    lemma TwoAtLeast(count: nat)
      requires Valid() && 0 < count <= 0x100000 && Found(Unmapped(slot), slots, pos, count) == 0xffff_ffff
      ensures count >= 2
    {
      if count == 1 {
        SingleIsSafe(Unmapped(slot), pos);
        SafeExactly(Unmapped(slot), slots, pos, 1);
      }
    }

    lemma Broken(count: nat)
      requires 2 <= count <= dmmap <= |kmm.table| && kmm.table[dmmap - count] > kmm.table[dmmap - count + 1]
      ensures !Shape()
    {
    }

    /** One turn of the loop of vmm_free_page. */
    method ReleaseOne(i: nat)
      requires Shape() && pmm.Valid() && OwnersOk(View(), pmm.base, pmm.pages) && Held(View(), i)
      modifies this`slot, this`owner, kmm`table, kmm.entries, pmm, pmm.bitmap
      ensures Shape() && pmm.Valid() && View() == ReleasedOnce(old(View()), i)
      ensures OwnersOk(View(), pmm.base, pmm.pages)
    {
      hide Flagged, Run;
      var attr := GetPage(i);
      pmm.FreePage(attr, 1);
      assert Run(slot[i], 1) == {slot[i]};
      owner := owner - {slot[i]};
      RemoveSlot(i);
    }

    method Release(lo: nat, count: nat)
      requires Shape() && pmm.Valid() && OwnersOk(View(), pmm.base, pmm.pages)
      requires forall j: nat :: lo <= j < lo + count ==> Held(View(), j)
      requires lo + count <= |slot|
      modifies this`slot, this`owner, kmm`table, kmm.entries, pmm, pmm.bitmap
      ensures Shape() && pmm.Valid() && View() == Released(old(View()), lo, count)
    {
      hide Flagged, FrameAllocator.Valid;
      for i := 0 to count
        invariant Shape() && pmm.Valid() && OwnersOk(View(), pmm.base, pmm.pages)
        invariant View() == Released(old(View()), lo, i)
        invariant forall j: nat :: lo + i <= j < lo + count ==> Held(View(), j)
      {
        ghost var b := View();
        ReleaseOne(lo + i);
        forall j: nat | lo + i < j < lo + count
          ensures Held(View(), j)
        {
          assert Held(b, j) && Held(b, lo + i);
        }
      }
    }

    /** vmm_free_page.  Slots give their frames back and are unmapped; a run of the direct map goes back as it is; of a run
        that leaves the map only the counter takes notice, and no longer counts the unmapped slots. */
    method FreePage(attr: word, count: nat)
      requires Valid() && 0 < count <= 0x100000
      requires FrameOf(attr) < dmmap ==>
                 pmm.AllTaken(FrameOf(attr), count, pmm.free) && Run(FrameOf(attr), count) !! owner.Keys
      requires InSlots(attr, count) ==>
                 forall j: nat :: FrameOf(attr) - dmmap <= j < FrameOf(attr) - dmmap + count ==> Held(View(), j)
      modifies this, kmm`table, kmm.entries, pmm, pmm.bitmap
      ensures Valid() <==> FrameOf(attr) < dmmap || InSlots(attr, count)
      ensures InSlots(attr, count) ==>
                && View() == Released(old(View()), FrameOf(attr) - dmmap, count)
                && pos == Max(FrameOf(attr) - dmmap + count - 1, old(pos))
      ensures FrameOf(attr) < dmmap ==>
                && View() == old(View()).(free := old(pmm.free) + Run(FrameOf(attr), count))
                && pos == old(pos) && freeCount == old(freeCount)
      ensures FrameOf(attr) >= dmmap && !InSlots(attr, count) ==>
                Sound() && View() == old(View()) && pos == old(pos) && freeCount == old(freeCount) + count
    {
      hide Flagged, Unmapped, Run, Released, KernelMap.Valid, FrameAllocator.Coherent;
      var index := attr / 0x1000;
      if index < dmmap {
        pmm.FreePage(attr, count);
      } else {
        index := index - dmmap;
        if index + count <= slots {
          ReleaseSlots(index, count);
        }
        freeCount := freeCount + count;
      }
    }

    /** Does the run lie in the slots? */
    predicate InSlots(attr: word, count: nat) {
      dmmap <= FrameOf(attr) && FrameOf(attr) - dmmap + count <= slots
    }

    method ReleaseSlots(index: nat, count: nat)
      requires Valid() && 0 < count && index + count <= slots && forall j: nat :: index <= j < index + count ==> Held(View(), j)
      modifies this`slot, this`owner, this`pos, kmm`table, kmm.entries, pmm, pmm.bitmap
      ensures Sound() && AboveMapped(slot, pos) && freeCount + count == |Unmapped(slot)|
      ensures View() == Released(old(View()), index, count) && pos == Max(index + count - 1, old(pos))
    {
      hide Backed, BackedOnce, Released, ReleasedOnce, Unmapped, Run, KernelMap.Valid;
      ReleasedBooks(View(), index, count, pos, pmm.base, pmm.pages);
      Release(index, count);
      pos := Max(index + count - 1, pos);
    }

    /** What vmm_alloc_page takes, vmm_free_page gives back: the kernel map, the free frames and their owners, both
        counters and vmm_pos are as before. */
    method AllocThenFree(count: nat)
      requires Valid() && 0 < count <= 0x100000 && Safe(Unmapped(slot), pos, count)
      requires Available(pmm.free, pmm.head) >= count
      modifies this, kmm`table, kmm.entries, pmm, pmm.bitmap
      ensures Valid() && View() == old(View()) && kmm.table == old(kmm.table)
      ensures freeCount == old(freeCount) && pmm.freeCount == old(pmm.freeCount) && pos == old(pos)
    {
      hide Flagged, Backed, BackedOnce, Highest, Unmapped, Safe, KernelMap.Valid, FrameAllocator.Coherent, Available;
      var attr := AllocPage(count);
      if attr != 0 {
        FreeBacked(attr, count, old(View()), old(pos));
      }
    }

    method FreeBacked(attr: word, count: nat, ghost b: Books, ghost pos0: nat)
      requires Valid() && 0 < count && dmmap <= FrameOf(attr) && FrameOf(attr) - dmmap + count <= |b.slot| == |slot|
      requires OwnersOk(b, pmm.base, pmm.pages) && forall f: nat :: f in b.free ==> pmm.base <= f < pmm.pages
      requires forall j: nat :: FrameOf(attr) - dmmap <= j < FrameOf(attr) - dmmap + count ==> b.slot[j] == 0
      requires count <= |b.free| && View() == Backed(b, FrameOf(attr) - dmmap, count)
      requires var last := FrameOf(attr) - dmmap + count - 1; last <= pos0 && pos == if last == pos0 then pos0 - count else pos0
      modifies this, kmm`table, kmm.entries, pmm, pmm.bitmap
      ensures Valid() && View() == b && pos == pos0
    {
      hide Flagged, Backed, BackedOnce, Released, ReleasedOnce, Unmapped, KernelMap.Valid, Bounded, Direct;
      BackedOwners(b, FrameOf(attr) - dmmap, count);
      ReleaseUndoesBack(b, FrameOf(attr) - dmmap, count, pmm.base, pmm.pages);
      FreePage(attr, count);
    }

    /** vmm_mmap_page: a window onto one frame, in the highest unmapped slot but slot 0; none is needed for a frame of
        the direct map. */
    method MmapPage(phyAttr: word) returns (attr: word)
      requires Valid() && 0 < FrameOf(phyAttr)
      modifies this, kmm`table, kmm.entries
      ensures Valid() && pmm.free == old(pmm.free) && owner == old(owner)
      ensures FrameOf(phyAttr) < dmmap ==> attr == phyAttr && slot == old(slot) && pos == old(pos)
      ensures FrameOf(phyAttr) >= dmmap ==>
                && (attr == 0 <==> old(Unmapped(slot)) <= {0})
                && (attr == 0 ==> slot == old(slot) && pos == old(pos))
                && (attr != 0 ==>
                      && pos in old(Unmapped(slot)) && (forall q: nat :: q in old(Unmapped(slot)) ==> q <= pos)
                      && attr == (dmmap + pos) * 0x1000 && slot == old(slot)[pos := FrameOf(phyAttr)])
    {
      hide Flagged;
      if phyAttr / 0x1000 < dmmap {
        return phyAttr;
      }
      var p := pos;
      while p > 0
        invariant forall q: nat :: q in Unmapped(slot) ==> q <= p
      {
        if GetPage(p) == 0 {
          OpenWindow(p, phyAttr / 0x1000);
          return (dmmap + p) * 0x1000;
        }
        p := p - 1;
      }
      return 0;
    }

    method OpenWindow(p: word, frame: nat)
      requires Valid() && 0 < frame < 0x100000 && p in Unmapped(slot) && forall q: nat :: q in Unmapped(slot) ==> q <= p
      modifies this, kmm`table, kmm.entries
      ensures Valid() && View() == old(View()).(slot := old(slot)[p := frame]) && pos == p
    {
      hide Flagged, UnmappedBelow, Run, KernelMap.Valid;
      ghost var was := slot;
      MapSlot(frame, p);
      UnmappedAfterMap(was, p, frame);
      assert forall j: nat :: j < |was| && j > p ==> was[j] == 0 ==> j in Unmapped(was);
      freeCount := freeCount - 1;
      pos := p;
    }

    /** Does every slot of the run map a frame it does not own? */
    ghost predicate AreWindows(head: int, count: nat)
      reads this, pmm
    {
      forall j: nat :: head <= j < head + count && j < |slot| ==> slot[j] != 0 && !Held(View(), j)
    }

    /** vmm_ummap_page: slots are unmapped, no frame is freed.  The books stay right exactly when the slots were windows;
        an unmapped slot is counted once more, and a frame owned by a slot is lost. */
    method UmmapPage(attr: word, count: nat)
      requires Valid() && 0 < count <= 0x100000
      modifies this, kmm`table, kmm.entries
      ensures Valid() <==> FrameOf(attr) < dmmap || (InSlots(attr, count) && old(AreWindows(FrameOf(attr) - dmmap, count)))
      ensures pmm.free == old(pmm.free) && owner == old(owner)
      ensures FrameOf(attr) < dmmap ==> slot == old(slot) && pos == old(pos) && freeCount == old(freeCount)
      ensures InSlots(attr, count) ==>
                && slot == Cleared(old(slot), FrameOf(attr) - dmmap, count)
                && pos == Max(FrameOf(attr) - dmmap + count - 1, old(pos))
      ensures FrameOf(attr) >= dmmap ==> freeCount == old(freeCount) + count
      ensures FrameOf(attr) >= dmmap && !InSlots(attr, count) ==> slot == old(slot) && pos == old(pos)
    {
      hide Flagged, Cleared, Unmapped, Run, KernelMap.Valid, FrameAllocator.Valid;
      var index := attr / 0x1000;
      if index >= dmmap {
        index := index - dmmap;
        if index + count <= slots {
          ClearedExactly(View(), index, count, pos, pmm.base, pmm.pages);
          Clear(index, count);
          pos := Max(index + count - 1, pos);
        }
        freeCount := freeCount + count;
      }
    }

    method Clear(lo: nat, count: nat)
      requires Shape() && pmm.Valid() && lo + count <= |slot|
      modifies this`slot, kmm`table, kmm.entries
      ensures Shape() && pmm.Valid() && slot == Cleared(old(slot), lo, count)
    {
      hide Flagged;
      for i := 0 to count
        invariant Shape() && pmm.Valid() && slot == Cleared(old(slot), lo, i)
      {
        RemoveSlot(lo + i);
      }
    }

    /** An unmapped slot becomes a window onto a frame. */
    method OpenSlot(frame: nat, i: nat)
      requires Sound() && 0 < frame < 0x100000 && i < slots && slot[i] == 0
      modifies this`slot, kmm`table, kmm.entries
      ensures Sound() && slot == old(slot)[i := frame]
    {
      hide Flagged, KernelMap.Valid;
      assert forall f: nat :: f in owner ==> owner[f] != i;
      MapSlot(frame, i);
    }

    /** The rollback of vmm_mmap_pde_page after n windows: slots lo + n down to lo + 1, not lo. */
    method CloseBut(lo: nat, n: nat)
      requires Sound() && lo + n < slots && forall f: nat :: f in owner ==> !(lo < owner[f] <= lo + n)
      modifies this`slot, kmm`table, kmm.entries
      ensures Sound() && slot == Cleared(old(slot), lo + 1, n)
    {
      hide Flagged, KernelMap.Valid, FrameAllocator.Valid, FrameAllocator.Coherent;
      var i := n;
      while i > 0
        invariant 0 <= i <= n && Shape() && pmm.Valid() && |slot| == old(|slot|)
        invariant forall j: nat :: j < |slot| ==> slot[j] == if lo + i < j <= lo + n then 0 else old(slot[j])
      {
        RemoveSlot(lo + i);
        i := i - 1;
      }
      assert slot == Cleared(old(slot), lo + 1, n);
    }

    /** A slot gives up the frame it maps to some other owner, and is a window from then on. */
    ghost method Disown(i: nat)
      requires Valid() && Held(View(), i)
      modifies this`owner
      ensures Valid() && owner == old(owner) - {slot[i]}
    {
      hide Flagged;
      owner := owner - {slot[i]};
    }

    /** The counters after a run of slots was filled. */
    method BookFilled(head: nat, count: nat, ghost was: seq<nat>)
      requires Sound() && 0 < count && head + count - 1 <= pos && (head + count - 1 == pos ==> head > 0)
      requires |was| == |slot| && AboveMapped(was, pos) && freeCount == |Unmapped(was)|
      requires forall j: nat :: head <= j < head + count ==> was[j] == 0 && slot[j] != 0
      requires forall j: nat :: j < |slot| && !(head <= j < head + count) ==> slot[j] == was[j]
      modifies this`pos, this`freeCount
      ensures Valid() && pos == if head + count - 1 == old(pos) then head - 1 else old(pos)
    {
      hide Flagged, Unmapped, KernelMap.Valid;
      FilledBooks(was, slot, head, count, pos);
      if head + count - 1 == pos {
        pos := pos - count;
      }
      freeCount := freeCount - count;
    }

    /** dmm_alloc_page: the lowest run of frames that lies in the direct map. */
    method DmmAllocPage(count: nat) returns (attr: word)
      requires Sound() && 0 < count <= dmmap
      modifies pmm, pmm.bitmap
      ensures Sound()
      ensures attr == 0 <==>
              forall p: nat :: old(pmm.head) <= p < old(pmm.tail) && p + count <= dmmap ==> !FreeRun(old(pmm.free), p, count)
      ensures attr == 0 ==>
                && pmm.free == old(pmm.free) && pmm.freeCount == old(pmm.freeCount)
                && pmm.head == old(pmm.head) && pmm.tail == old(pmm.tail)
      ensures attr != 0 ==>
                var f := FrameOf(attr);
                && attr == AddrOf(f) && f + count <= dmmap && FreeRun(old(pmm.free), f, count)
                && (forall p: nat :: old(pmm.head) <= p < f ==> !FreeRun(old(pmm.free), p, count))
                && pmm.free == old(pmm.free) - Run(f, count)
    {
      hide Flagged, Run, FreeRun, KernelMap.Valid, Unmapped;
      attr := pmm.UpAllocPage(count);
      if attr / 0x1000 + count > dmmap {
        FromUp(attr, count, old(pmm.free), old(pmm.head));
        PutBack(attr, count);
        return 0;
      }
    }

    /** What pmm_up_alloc_page took lies between the search positions. */
    lemma FromUp(attr: word, count: nat, was: set<nat>, head: nat)
      requires pmm.Valid() && 0 < count && FreeRun(was, FrameOf(attr), count) && Bounded(was, pmm.base, head, pmm.tail, pmm.pages)
      requires pmm.free == was - Run(FrameOf(attr), count) && attr == AddrOf(FrameOf(attr))
      ensures head <= FrameOf(attr) && FrameOf(attr) + count - 1 <= pmm.tail
      ensures pmm.AllTaken(FrameOf(attr), count, pmm.free) && pmm.free + Run(FrameOf(attr), count) == was
    {
      hide Run;
      assert FrameOf(attr) in was && FrameOf(attr) + count - 1 in was;
    }

    /** The pmm_free_page of dmm_alloc_page undoes what went before. */
    method PutBack(attr: word, count: nat)
      requires Sound() && 0 < count <= dmmap && FrameOf(attr) + count - 1 <= pmm.tail
      requires pmm.AllTaken(FrameOf(attr), count, pmm.free)
      requires forall f: nat :: f in owner ==> f !in Run(FrameOf(attr), count)
      modifies pmm, pmm.bitmap
      ensures Sound() && pmm.free == old(pmm.free) + Run(FrameOf(attr), count) && pmm.freeCount == old(pmm.freeCount) + count
      ensures pmm.head == Min(FrameOf(attr), old(pmm.head)) && pmm.tail == old(pmm.tail)
    {
      hide Run, KernelMap.Valid;
      pmm.FreePage(attr, count);
    }

    /** vmm_init, over a fresh kernel map. */
    constructor (kmm: KernelMap, pmm: FrameAllocator)
      requires kmm.Valid() && pmm.Valid() && kmm.entries as object != pmm.bitmap
      requires forall i: nat :: i < GLOBL_PAGE_NUM ==> kmm.table[i] == 0 && kmm.entries[i] == 0
      modifies kmm`table, kmm.entries
      ensures Valid() && this.kmm == kmm && this.pmm == pmm
      ensures owner == map[] && forall i: nat :: i < slots ==> slot[i] == 0
    {
      this.kmm := kmm;
      this.pmm := pmm;
      var direct := Min(pmm.pages, DMMAP_PAGE_MAX);
      dmmap := direct;
      slots := GLOBL_PAGE_NUM - direct;
      owner := map[];
      slot := seq(GLOBL_PAGE_NUM - direct, _ => 0);
      pos := GLOBL_PAGE_NUM - direct - 1;
      freeCount := GLOBL_PAGE_NUM - direct;
      new;
      hide UnmappedBelow, FrameAllocator.Coherent, Run, KernelMap.Valid, Min;
      MapDirect(kmm, dmmap);
      assert kmm.table == Direct(dmmap) + slot;
      UnmappedAll(slot);
    }
  }

  /** A small memory, all of it free but frame 0. */
  method SmallMemory(pages: nat) returns (vmm: PageAllocator)
    requires 4 <= pages <= 0x100
    ensures vmm.Valid() && vmm.pmm.base == 1 && vmm.pmm.pages == pages == vmm.dmmap && vmm.pmm.free == Run(1, pages - 1)
    ensures forall i: nat :: i < vmm.slots ==> vmm.slot[i] == 0
    ensures vmm.kmm.directory as object != vmm.pmm.bitmap && vmm.kmm.DirectoryFor(0)
    ensures fresh({vmm, vmm.kmm, vmm.kmm.entries, vmm.pmm, vmm.pmm.bitmap})
  {
    hide Run, PageAllocator.Flagged, KernelMap.Valid, KernelMap.DirectoryFor;
    var kmm := new KernelMap(0);
    var pmm := new FrameAllocator(0, pages);
    vmm := new PageAllocator(kmm, pmm);
  }

  /** Three slots asked for with three frames free: two of them can be had, so the rollback runs, and leaves frame 0
      free. */
  method RollbackExample() returns (vmm: PageAllocator, attr: word)
    ensures attr == 0 && 0 in vmm.pmm.free && !vmm.Valid()
  {
    hide UnmappedBelow, Highest, Run, KernelMap.Valid, Safe;
    vmm := SmallMemory(4);
    ExampleIsAskable(vmm, 3);
    attr := vmm.AllocPage(3);
  }

  lemma ExampleIsAskable(vmm: PageAllocator, count: nat)
    requires vmm.Valid() && vmm.pmm.base == 1 && vmm.pmm.pages <= 0x100 && vmm.pmm.free == Run(1, vmm.pmm.pages - 1)
    requires forall i: nat :: i < vmm.slots ==> vmm.slot[i] == 0
    requires 0 < count <= 3 && vmm.pmm.pages > 1
    ensures Safe(Unmapped(vmm.slot), vmm.pos, count) && Highest(Unmapped(vmm.slot), vmm.slots, vmm.pos, count) != 0
    ensures Available(vmm.pmm.free, vmm.pmm.head) == vmm.pmm.pages - 2
  {
    var pos := vmm.slots - 1;
    assert vmm.pos == pos;
    assert Within(Unmapped(vmm.slot), pos, count);
    FitsMeaning(Unmapped(vmm.slot), vmm.slots, pos, count);
    assert 1 in vmm.pmm.free && vmm.pmm.head == 1;
    assert vmm.pmm.free - {1} == Run(2, vmm.pmm.pages - 2);
  }
}
