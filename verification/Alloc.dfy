/** kmalloc and kfree, kernel/mm/alloc.c, over the kernel page allocator. */
module Alloc {
  import opened Basics
  import opened Page
  import opened Pmm
  import opened Kmm
  import opened Search
  import opened Slots
  import opened Vmm
  import opened Heap

  /** sizeof(_alloc_header_t) */
  const HEADER: nat := 12

  /** The pages are slots (slot 0 is page `dmmap`) that own what they map. */
  ghost predicate Backing(b: Books, dmmap: nat, pages: set<nat>) {
    forall q: nat {:trigger q in pages} :: q in pages ==> dmmap <= q && Held(b, q - dmmap)
  }

  /** Between `was` and `now` the kernel got exactly `pages`, with frames that were free, and nothing else changed. */
  ghost predicate Gained(was: Books, now: Books, dmmap: nat, pages: set<nat>) {
    now.free <= was.free && Backing(now, dmmap, pages) && GainedSlots(was, now, dmmap, pages) && GainedFrames(was, now, dmmap, pages)
  }

  ghost predicate GainedSlots(was: Books, now: Books, dmmap: nat, pages: set<nat>) {
    && |now.slot| == |was.slot|
    && (forall j: nat {:trigger now.slot[j]} {:trigger was.slot[j]} :: j < |was.slot| ==>
          if dmmap + j in pages then was.slot[j] == 0 else now.slot[j] == was.slot[j])
  }

  ghost predicate GainedFrames(was: Books, now: Books, dmmap: nat, pages: set<nat>) {
    && (forall f: nat {:trigger f in now.owner} :: f in now.owner <==> f in was.owner || (f in was.free && f !in now.free))
    && (forall f: nat {:trigger f in now.owner} {:trigger f in was.owner} :: f in was.owner ==> f in now.owner && now.owner[f] == was.owner[f])
    && (forall f: nat {:trigger f in now.owner} :: f in was.free && f in now.owner ==> dmmap + now.owner[f] in pages)
  }

  /** When no page is left, everything is as it was. */
  lemma GainedNothing(was: Books, now: Books, dmmap: nat)
    requires Gained(was, now, dmmap, {}) && forall f: nat :: f in was.free ==> f !in was.owner
    ensures now == was
  {
    assert now.slot == was.slot;
    assert forall f: nat :: f in was.free ==> (f in now.owner <==> f !in now.free);
    assert now.owner == was.owner && now.free == was.free;
  }

  /** The slots from head to head + n get frames, or lose them; the others stay. */
  ghost predicate Took(b: Books, a: Books, head: nat, n: nat) {
    && |a.slot| == |b.slot| && a.free <= b.free && head + n <= |b.slot|
    && (forall j: nat {:trigger a.slot[j]} {:trigger b.slot[j]} :: j < |b.slot| ==>
          if head <= j < head + n then b.slot[j] == 0 && Held(a, j) else a.slot[j] == b.slot[j])
    && (forall f: nat {:trigger f in a.owner} :: f in a.owner <==> f in b.owner || (f in b.free && f !in a.free))
    && (forall f: nat {:trigger f in a.owner} {:trigger f in b.owner} :: f in b.owner ==> a.owner[f] == b.owner[f])
    && (forall f: nat {:trigger f in a.owner} :: f in b.free && f in a.owner ==> head <= a.owner[f] < head + n)
  }

  ghost predicate Gave(b: Books, a: Books, head: nat, n: nat) {
    && |a.slot| == |b.slot| && b.free <= a.free && head + n <= |b.slot|
    && (forall j: nat {:trigger a.slot[j]} {:trigger b.slot[j]} :: j < |b.slot| ==>
          if head <= j < head + n then a.slot[j] == 0 && Held(b, j) else a.slot[j] == b.slot[j])
    && (forall f: nat {:trigger f in a.owner} {:trigger f in b.owner} ::
          f in a.owner <==> f in b.owner && !(head <= b.owner[f] < head + n))
    && (forall f: nat {:trigger f in a.owner} :: f in a.owner ==> a.owner[f] == b.owner[f])
    && (forall f: nat {:trigger f in a.free} :: f in a.free <==> f in b.free || (f in b.owner && head <= b.owner[f] < head + n))
  }

  lemma Taking(b: Books, head: nat, n: nat)
    requires head + n <= |b.slot| && n <= |b.free|
    requires forall j: nat :: head <= j < head + n ==> b.slot[j] == 0
    requires forall f: nat :: f in b.owner ==> f !in b.free
    ensures Took(b, Backed(b, head, n), head, n)
  {
    hide Backed;
    BackedRun(b, head, n);
    BackedOwners(b, head, n);
  }

  lemma Giving(b: Books, head: nat, n: nat, base: nat, top: nat)
    requires head + n <= |b.slot| && OwnersOk(b, base, top)
    requires forall j: nat :: head <= j < head + n ==> Held(b, j)
    ensures Gave(b, Released(b, head, n), head, n)
  {
    hide Released;
    ReleasedOwners(b, head, n, base, top);
    ReleasedRun(b, head, n);
  }

  /** A page that is held is mapped, so it is not taken again. */
  lemma StillBacked(b: Books, a: Books, dmmap: nat, pages: set<nat>, head: nat, n: nat)
    requires Backing(b, dmmap, pages) && Took(b, a, head, n) && 0 !in b.owner
    ensures Backing(a, dmmap, pages + Run(dmmap + head, n))
    ensures pages !! Run(dmmap + head, n)
  {
    hide Run;
    forall q: nat | q in pages
      ensures dmmap <= q && !(head <= q - dmmap < head + n) && Held(a, q - dmmap)
    {
      assert Held(b, q - dmmap);
      assert a.slot[q - dmmap] == b.slot[q - dmmap];
    }
    forall j: nat | head <= j < head + n
      ensures Held(a, j)
    {
      assert a.slot[j] == a.slot[j];
    }
  }

  lemma StillBackedAfter(b: Books, a: Books, dmmap: nat, pages: set<nat>, head: nat, n: nat)
    requires Backing(b, dmmap, pages) && Gave(b, a, head, n)
    ensures Backing(a, dmmap, pages - Run(dmmap + head, n))
  {
    hide Run;
    forall q: nat | q in pages && !(dmmap + head <= q < dmmap + head + n)
      ensures dmmap <= q && Held(a, q - dmmap)
    {
      assert Held(b, q - dmmap);
      assert a.slot[q - dmmap] == b.slot[q - dmmap];
    }
  }

  lemma Taken(b: Books, a: Books, dmmap: nat, pages: set<nat>, page: nat, n: nat)
    requires Backing(b, dmmap, pages) && 0 !in b.owner && forall f: nat :: f in b.owner ==> f !in b.free
    requires dmmap <= page && page - dmmap + n <= |b.slot| && n <= |b.free| && a == Backed(b, page - dmmap, n)
    requires forall j: nat :: page - dmmap <= j < page - dmmap + n ==> b.slot[j] == 0
    ensures Took(b, a, page - dmmap, n)
    ensures Backing(a, dmmap, pages + Run(page, n)) && pages !! Run(page, n)
  {
    hide Backed, Run, Took, Backing;
    Taking(b, page - dmmap, n);
    StillBacked(b, a, dmmap, pages, page - dmmap, n);
  }

  lemma Given(b: Books, dmmap: nat, pages: set<nat>, page: nat, n: nat, base: nat, top: nat)
    requires Backing(b, dmmap, pages) && OwnersOk(b, base, top) && n > 0 && Run(page, n) <= pages
    ensures dmmap <= page && page - dmmap + n <= |b.slot|
    ensures forall j: nat :: page - dmmap <= j < page - dmmap + n ==> Held(b, j)
    ensures Gave(b, Released(b, page - dmmap, n), page - dmmap, n)
    ensures Backing(Released(b, page - dmmap, n), dmmap, pages - Run(page, n))
  {
    hide Run, Released;
    assert page in pages && page + n - 1 in pages;
    forall j: nat | page - dmmap <= j < page - dmmap + n
      ensures Held(b, j)
    {
      assert dmmap + j in pages;
    }
    hide Backing, Held, Gave;
    Giving(b, page - dmmap, n, base, top);
    StillBackedAfter(b, Released(b, page - dmmap, n), dmmap, pages, page - dmmap, n);
  }

  lemma GainedMore(was: Books, b: Books, a: Books, dmmap: nat, pages: set<nat>, head: nat, n: nat)
    requires Gained(was, b, dmmap, pages) && Took(b, a, head, n) && 0 !in b.owner
    ensures Gained(was, a, dmmap, pages + Run(dmmap + head, n))
  {
    hide Run;
    StillBacked(b, a, dmmap, pages, head, n);
    hide Backing, Held;
    SlotsMore(was, b, a, dmmap, pages, head, n);
    FramesMore(was, b, a, dmmap, pages, pages + Run(dmmap + head, n), head, n);
    hide GainedSlots, GainedFrames;
  }

  lemma SlotsMore(was: Books, b: Books, a: Books, dmmap: nat, pages: set<nat>, head: nat, n: nat)
    requires GainedSlots(was, b, dmmap, pages) && Took(b, a, head, n)
    requires pages !! Run(dmmap + head, n)
    ensures GainedSlots(was, a, dmmap, pages + Run(dmmap + head, n))
  {
    hide Run, Held;
  }

  lemma FramesMore(was: Books, b: Books, a: Books, dmmap: nat, pages: set<nat>, pages': set<nat>, head: nat, n: nat)
    requires GainedFrames(was, b, dmmap, pages) && Took(b, a, head, n) && a.free <= b.free <= was.free
    requires pages <= pages' && forall q: nat :: dmmap + head <= q < dmmap + head + n ==> q in pages'
    ensures GainedFrames(was, a, dmmap, pages')
  {
    hide Held;
    forall f: nat
      ensures f in a.owner <==> f in was.owner || (f in was.free && f !in a.free)
      ensures f in was.free && f in a.owner ==> dmmap + a.owner[f] in pages'
    {
    }
  }

  lemma GainedLess(was: Books, b: Books, a: Books, dmmap: nat, pages: set<nat>, head: nat, n: nat, base: nat, top: nat)
    requires Gained(was, b, dmmap, pages) && Gave(b, a, head, n)
    requires OwnersOk(was, base, top) && 0 < base
    requires Run(dmmap + head, n) <= pages
    ensures Gained(was, a, dmmap, pages - Run(dmmap + head, n))
  {
    hide Run;
    StillBackedAfter(b, a, dmmap, pages, head, n);
    hide Backing, Held;
    hide Took, Gave;
    OwnedBefore(was, b, dmmap, pages, base, top);
    hide GainedSlots, GainedFrames, OwnersOk;
    SlotsLess(was, b, a, dmmap, pages, head, n);
    FramesLess(was, b, a, dmmap, pages, pages - Run(dmmap + head, n), head, n);
  }

  lemma OwnedBefore(was: Books, b: Books, dmmap: nat, pages: set<nat>, base: nat, top: nat)
    requires GainedSlots(was, b, dmmap, pages) && OwnersOk(was, base, top) && 0 < base
    ensures forall f: nat :: f in was.owner ==> f !in was.free && dmmap + was.owner[f] !in pages
  {
  }

  lemma SlotsLess(was: Books, b: Books, a: Books, dmmap: nat, pages: set<nat>, head: nat, n: nat)
    requires GainedSlots(was, b, dmmap, pages) && Gave(b, a, head, n)
    requires Run(dmmap + head, n) <= pages
    ensures GainedSlots(was, a, dmmap, pages - Run(dmmap + head, n))
  {
    hide Run, Held;
    forall j: nat | j < |was.slot|
      ensures if dmmap + j in pages - Run(dmmap + head, n) then was.slot[j] == 0 else a.slot[j] == was.slot[j]
    {
      assert head <= j < head + n ==> dmmap + j in Run(dmmap + head, n);
    }
  }

  lemma FramesLess(was: Books, b: Books, a: Books, dmmap: nat, pages: set<nat>, pages': set<nat>, head: nat, n: nat)
    requires GainedFrames(was, b, dmmap, pages) && Gave(b, a, head, n) && b.free <= was.free
    requires forall f: nat :: f in was.owner ==> f !in was.free && dmmap + was.owner[f] !in pages
    requires Run(dmmap + head, n) <= pages && pages' == pages - Run(dmmap + head, n)
    ensures a.free <= was.free && GainedFrames(was, a, dmmap, pages')
  {
    hide Held, Run;
    forall f: nat
      ensures f in a.free ==> f in was.free
      ensures f in a.owner <==> f in was.owner || (f in was.free && f !in a.free)
      ensures f in was.free && f in a.owner ==> dmmap + a.owner[f] in pages'
    {
      if f in b.owner && f in was.owner {
        assert dmmap + b.owner[f] !in pages;
      }
    }
  }

  /** Is there room behind the last block, in its last page? */
  predicate HasRoom(blocks: seq<Block>, length: nat) {
    blocks != [] &&
    var end := blocks[|blocks| - 1].End();
    end % 0x1000 != 0 && end % 0x1000 + length <= 0x1000
  }

  lemma RoomTest(end: nat, length: nat)
    requires length > 0
    ensures (end + 0xfff) / 0x1000 * 0x1000 - end >= length <==> end % 0x1000 != 0 && end % 0x1000 + length <= 0x1000
  {
  }

  /** Where the last block ends, and what is left of the page there. */
  ghost function Behind(blocks: seq<Block>): nat
    requires blocks != []
  {
    blocks[|blocks| - 1].addr + blocks[|blocks| - 1].length
  }

  ghost function Gap(blocks: seq<Block>): nat
    requires blocks != []
  {
    LeftAt(Behind(blocks))
  }

  function LeftAt(end: nat): nat {
    (end + 0xfff) / 0x1000 * 0x1000 - end
  }

  lemma RoomIs(blocks: seq<Block>, length: nat)
    requires length > 0
    ensures HasRoom(blocks, length) <==> blocks != [] && Gap(blocks) >= length
  {
    if blocks != [] {
      RoomTest(Behind(blocks), length);
    }
  }

  lemma InRoom(blocks: seq<Block>, mem: nat, length: nat)
    requires Good(blocks) && length >= 12 && HasRoom(blocks, length) && mem == blocks[|blocks| - 1].End()
    ensures Block(mem, length).Shaped()
  {
  }

  lemma RoomIsTouched(blocks: seq<Block>, b: Block)
    requires Good(blocks) && b.Shaped() && HasRoom(blocks, b.length) && b.addr == blocks[|blocks| - 1].End()
    ensures Good(blocks + [b]) && PagesOf(blocks + [b]) == PagesOf(blocks)
  {
    hide Good;
    GoodInLastPage(blocks, b);
    PagesAppend(blocks, b);
    hide PagesOf;
    LastIsTouched(blocks, b);
  }

  lemma LastIsTouched(blocks: seq<Block>, b: Block)
    requires Good(blocks) && blocks != [] && b.length > 0 && b.First() == b.Last() == blocks[|blocks| - 1].Last()
    ensures BlockPages(b) <= PagesOf(blocks)
  {
    hide PagesOf, BlockPages;
    assert Touches(blocks[|blocks| - 1], b.First());
  }

  /** A block that starts a page touches as many pages as it needs. */
  lemma OwnPages(mem: nat, length: nat)
    requires mem % 0x1000 == 0 && 0 < mem && 12 <= length
    ensures Block(mem, length).Shaped()
    ensures BlockPages(Block(mem, length)) == Run(mem / 0x1000, (length + 0xfff) / 0x1000)
  {
    var b := Block(mem, length);
    assert b.Last() + 1 - b.First() == (length + 0xfff) / 0x1000;
  }

  lemma CommonPage(a: Block, b: Block) returns (q: nat)
    requires a.length > 0 && b.length > 0
    ensures NoCommonPage(a, b) || (Touches(a, q) && Touches(b, q))
  {
    q := Max(a.First(), b.First());
  }

  lemma FreshIsGood(blocks: seq<Block>, b: Block)
    requires Good(blocks) && b.Shaped() && BlockPages(b) !! PagesOf(blocks)
    ensures Good(blocks + [b]) && PagesOf(blocks + [b]) == PagesOf(blocks) + BlockPages(b)
  {
    hide PagesOf;
    forall k: nat | k < |blocks|
      ensures NoCommonPage(blocks[k], b)
    {
      hide NoCommonPage, Touches;
      var q := CommonPage(blocks[k], b);
      assert Touches(b, q) ==> !Touched(blocks, q);
    }
    hide Good;
    GoodInFreshPages(blocks, b);
    PagesAppend(blocks, b);
  }

  lemma HeaderOf(headers: map<nat, Header>, blocks: seq<Block>, k: nat)
    requires Linked(headers, blocks) && k < |blocks|
    ensures blocks[k].addr in headers
    ensures headers[blocks[k].addr] == Header(LastOf(blocks, k), NextOf(blocks, k), blocks[k].length)
  {
    assert LinkedAt(headers, blocks, k);
  }

  /** The page count of kfree. */
  lemma Length(blocks: seq<Block>, k: nat)
    requires Good(blocks) && k < |blocks|
    ensures blocks[k].length > 0 && (blocks[k].length + 0xfff) / 0x1000 == blocks[k].Last() + 1 - blocks[k].First()
  {
    assert blocks[k].Shaped();
  }

  lemma LastHeader(headers: map<nat, Header>, blocks: seq<Block>)
    requires Good(blocks) && Linked(headers, blocks)
    ensures EndOf(blocks) == 0 <==> blocks == []
    ensures blocks != [] ==> EndOf(blocks) in headers && headers[EndOf(blocks)].length == blocks[|blocks| - 1].length
  {
    if blocks != [] {
      assert LinkedAt(headers, blocks, |blocks| - 1);
    }
  }

  lemma FreedList(was: seq<Block>, k: nat)
    requires Good(was) && k < |was|
    ensures was[k].length > 0 && Good(Without(was, k)) && PagesOf(Without(was, k)) == PagesOf(was) - Returned(was, k)
    ensures Pages(FirstReturned(was, k), NumReturned(was, k)) == Returned(was, k) <= PagesOf(was)
  {
    assert was[k].Shaped();
    hide Good, PagesOf, Pages;
    ReturnedExactly(was, k);
    GoodAfterRemoval(was, k);
  }

  /** Pages page, ..., page + count - 1 went from unmapped to mapped with frames that were free. */
  ghost predicate Gets(dmmap: nat, was: Books, now: Books, page: nat, count: nat) {
    dmmap <= page && Took(was, now, page - dmmap, count)
  }

  /** Pages page, ..., page + num - 1, which the heap had, went back with the frames they mapped. */
  ghost predicate GivesUp(dmmap: nat, was: Books, now: Books, page: nat, num: int) {
    if num > 0 then dmmap <= page && Gave(was, now, page - dmmap, num) else now == was
  }

  /** The heap as its callers and vmm see it. */
  datatype HeapState = HeapState(blocks: seq<Block>, taken: set<nat>, books: Books)

  ghost predicate NewPages(dmmap: nat, s: HeapState, s': HeapState, page: nat, count: nat) {
    && s.taken !! Run(page, count) && s'.taken == s.taken + Run(page, count)
    && Gets(dmmap, s.books, s'.books, page, count)
  }

  /** One kmalloc that succeeds, giving block b. */
  ghost predicate Allocated(dmmap: nat, s: HeapState, s': HeapState, b: Block) {
    && s'.blocks == s.blocks + [b] && b.length >= HEADER
    && if HasRoom(s.blocks, b.length) then
         b.addr == s.blocks[|s.blocks| - 1].End() && s'.taken == s.taken && s'.books == s.books
       else
         b.addr % 0x1000 == 0 && b.addr > 0 && NewPages(dmmap, s, s', b.First(), (b.length + 0xfff) / 0x1000)
  }

  lemma FreshAllocated(dmmap: nat, s: HeapState, s': HeapState, mem: nat, length: nat)
    requires !HasRoom(s.blocks, length) && length >= HEADER && mem % 0x1000 == 0 && mem > 0
    requires s'.blocks == s.blocks + [Block(mem, length)]
    requires s.taken !! Run(mem / 0x1000, (length + 0xfff) / 0x1000)
    requires s'.taken == s.taken + Run(mem / 0x1000, (length + 0xfff) / 0x1000)
    requires Gets(dmmap, s.books, s'.books, mem / 0x1000, (length + 0xfff) / 0x1000)
    ensures Allocated(dmmap, s, s', Block(mem, length))
  {
    hide Run, Gets, HasRoom;
  }

  /** One kfree, of block k. */
  ghost predicate Freed(dmmap: nat, s: HeapState, s': HeapState, k: nat) {
    && k < |s.blocks| && Good(s.blocks)
    && s'.blocks == Without(s.blocks, k) && s'.taken == s.taken - Returned(s.blocks, k)
    && GivesUp(dmmap, s.books, s'.books, FirstReturned(s.blocks, k), NumReturned(s.blocks, k))
  }

  ghost predicate Next(dmmap: nat, s: HeapState, s': HeapState) {
    || (exists b: Block :: Allocated(dmmap, s, s', b))
    || (exists k: nat :: Freed(dmmap, s, s', k))
  }

  /** Any calls, in any order. */
  ghost predicate Calls(dmmap: nat, run: seq<HeapState>) {
    forall i: nat {:trigger run[i]} :: i + 1 < |run| ==> Next(dmmap, run[i], run[i + 1])
  }

  /** What holds all along, for the books the run started from. */
  ghost predicate Sound(dmmap: nat, was: Books, s: HeapState) {
    Good(s.blocks) && s.taken == PagesOf(s.blocks) && Gained(was, s.books, dmmap, s.taken)
  }

  lemma AllocatedIsSound(dmmap: nat, was: Books, s: HeapState, s': HeapState, b: Block)
    requires Sound(dmmap, was, s) && Allocated(dmmap, s, s', b) && 0 !in was.owner && 0 !in was.free
    ensures Sound(dmmap, was, s')
  {
    hide PagesOf, Run, Gets, Gained, Good, HasRoom;
    if HasRoom(s.blocks, b.length) {
      InRoom(s.blocks, b.addr, b.length);
      RoomIsTouched(s.blocks, b);
    } else {
      FreshIsSound(dmmap, was, s, s', b);
    }
  }

  lemma FreshIsSound(dmmap: nat, was: Books, s: HeapState, s': HeapState, b: Block)
    requires Sound(dmmap, was, s) && b.addr % 0x1000 == 0 && b.addr > 0 && b.length >= HEADER
    requires 0 !in was.owner && 0 !in was.free
    requires s'.blocks == s.blocks + [b] && NewPages(dmmap, s, s', b.First(), (b.length + 0xfff) / 0x1000)
    ensures Sound(dmmap, was, s')
  {
    hide PagesOf, Run, Gained, Good, BlockPages, Gets;
    PagesGained(dmmap, was, s, s', b.First(), (b.length + 0xfff) / 0x1000);
    OwnPages(b.addr, b.length);
    FreshIsGood(s.blocks, b);
  }

  lemma PagesGained(dmmap: nat, was: Books, s: HeapState, s': HeapState, page: nat, count: nat)
    requires Gained(was, s.books, dmmap, s.taken) && NewPages(dmmap, s, s', page, count)
    requires 0 !in was.owner && 0 !in was.free
    ensures Gained(was, s'.books, dmmap, s'.taken)
  {
    hide Run, Took, Gained;
    OwnsNoZero(was, s.books, dmmap, s.taken);
    GainedMore(was, s.books, s'.books, dmmap, s.taken, page - dmmap, count);
  }

  lemma OwnsNoZero(was: Books, now: Books, dmmap: nat, pages: set<nat>)
    requires Gained(was, now, dmmap, pages) && 0 !in was.owner && 0 !in was.free
    ensures 0 !in now.owner
  {
  }

  lemma FreedIsSound(dmmap: nat, was: Books, s: HeapState, s': HeapState, k: nat, base: nat, top: nat)
    requires Sound(dmmap, was, s) && Freed(dmmap, s, s', k) && OwnersOk(was, base, top) && 0 < base
    ensures Sound(dmmap, was, s')
  {
    hide PagesOf, Run, Gave, Gained, Good, FirstReturned, NumReturned;
    FreedList(s.blocks, k);
    var page, num := FirstReturned(s.blocks, k), NumReturned(s.blocks, k);
    if num > 0 {
      GainedLess(was, s.books, s'.books, dmmap, s.taken, page - dmmap, num, base, top);
    } else {
      assert s.taken - Pages(page, num) == s.taken;
    }
  }

  lemma NextIsSound(dmmap: nat, was: Books, s: HeapState, s': HeapState, base: nat, top: nat)
    requires Sound(dmmap, was, s) && Next(dmmap, s, s') && OwnersOk(was, base, top) && 0 < base
    requires 0 !in was.owner && 0 !in was.free
    ensures Sound(dmmap, was, s')
  {
    hide Allocated, Freed, Sound, OwnersOk;
    if exists b: Block :: Allocated(dmmap, s, s', b) {
      var b: Block :| Allocated(dmmap, s, s', b);
      AllocatedIsSound(dmmap, was, s, s', b);
    } else {
      var k: nat :| Freed(dmmap, s, s', k);
      FreedIsSound(dmmap, was, s, s', k, base, top);
    }
  }

  /** Over every run of kmalloc and kfree: the blocks stay well placed, the pages had from vmm are those the blocks
      touch, and once every block is freed the kernel map, the free frames and their owners are as at the start. */
  lemma {:induction false} EveryRun(dmmap: nat, run: seq<HeapState>, base: nat, top: nat)
    requires run != [] && Calls(dmmap, run) && run[0].blocks == [] && run[0].taken == {}
    requires OwnersOk(run[0].books, base, top) && 0 < base && 0 !in run[0].books.free
    ensures Sound(dmmap, run[0].books, run[|run| - 1])
    ensures run[|run| - 1].blocks == [] ==> run[|run| - 1].books == run[0].books && run[|run| - 1].taken == {}
  {
    var n := |run| - 1;
    var was := run[0].books;
    hide Next, Gained, OwnersOk;
    assert 0 !in was.owner && forall f: nat :: f in was.free ==> f !in was.owner by {
      OwnedFrames(was, base, top);
    }
    if n == 0 {
      StartsSound(dmmap, run[0]);
    } else {
      var before := run[..n];
      EveryRun(dmmap, before, base, top);
      assert before[n - 1] == run[n - 1] && Next(dmmap, run[n - 1], run[n]);
      NextIsSound(dmmap, was, run[n - 1], run[n], base, top);
    }
    if run[n].blocks == [] {
      GainedNothing(was, run[n].books, dmmap);
    }
  }

  lemma OwnedFrames(b: Books, base: nat, top: nat)
    requires OwnersOk(b, base, top) && 0 < base
    ensures 0 !in b.owner && forall f: nat :: f in b.free ==> f !in b.owner
  {
  }

  lemma StartsSound(dmmap: nat, s: HeapState)
    requires s.blocks == [] && s.taken == {} && forall f: nat :: f in s.books.free ==> f !in s.books.owner
    ensures Sound(dmmap, s.books, s)
  {
  }

  class KernelHeap {
    const vmm: PageAllocator
    var pos: nat                   // the last block, 0 when there is none
    var headers: map<nat, Header>  // the headers in memory
    ghost var blocks: seq<Block>
    ghost var taken: set<nat>      // the pages vmm_alloc_page gave and vmm_free_page did not get back

    ghost predicate Listed()
      reads this
    {
      Good(blocks) && Linked(headers, blocks) && pos == EndOf(blocks) && taken == PagesOf(blocks)
    }

    ghost predicate Valid()
      reads this, vmm, vmm.kmm, vmm.kmm.entries, vmm.pmm, vmm.pmm.bitmap
    {
      vmm.Valid() && Listed() && Backing(vmm.View(), vmm.dmmap, taken)
    }

    /** May vmm_alloc_page be asked for this many pages?  (It answers properly, and rolls back no page.) */
    ghost predicate Askable(count: nat)
      reads vmm, vmm.pmm
      requires count < 0x1_0000_0000
    {
      && Safe(Unmapped(vmm.slot), vmm.pos, count)
      && (Highest(Unmapped(vmm.slot), vmm.slots, vmm.pos, count) == 0
            || Available(vmm.pmm.free, vmm.pmm.head) == 0 || Available(vmm.pmm.free, vmm.pmm.head) >= count)
    }

    ghost function State(): HeapState
      reads this, vmm, vmm.pmm
    {
      HeapState(blocks, taken, vmm.View())
    }

    constructor (vmm: PageAllocator)
      requires vmm.Valid()
      ensures Valid() && this.vmm == vmm && blocks == [] && taken == {}
    {
      this.vmm := vmm;
      pos, headers, blocks, taken := 0, map[], [], {};
    }

    /** The test of kmalloc: where the next block starts if it goes behind the last one; 0 when it does not fit. */
    method Room(length: nat) returns (mem: nat)
      requires Listed() && length > 0
      ensures mem == 0 <==> !HasRoom(blocks, length)
      ensures mem != 0 ==> mem == blocks[|blocks| - 1].End()
    {
      hide PagesOf, Good, Linked, Touches;
      LastHeader(headers, blocks);
      if pos == 0 {
        return 0;
      }
      var end := pos + headers[pos].length;
      RoomTest(end, length);
      return if (end + 0xfff) / 0x1000 * 0x1000 - end >= length then end else 0;
    }

    /** Header and links of the new block. */
    method Link(mem: nat, length: nat)
      requires Good(blocks) && Linked(headers, blocks) && pos == EndOf(blocks)
      requires Good(blocks + [Block(mem, length)])
      modifies this
      ensures Linked(headers, blocks) && pos == EndOf(blocks) && blocks == old(blocks) + [Block(mem, length)]
      ensures taken == old(taken)
    {
      hide Good, Linked, Distinct;
      GoodIsDistinct(blocks + [Block(mem, length)]);
      LinkedAfterLinkIn(headers, blocks, Block(mem, length));
      ghost var was := headers;
      headers := headers[mem := Header(pos, 0, length)];
      if pos != 0 {
        headers := headers[pos := headers[pos].(next := mem)];
      }
      assert headers == LinkIn(was, pos, Block(mem, length));
      pos := mem;
      blocks := blocks + [Block(mem, length)];
    }

    /** kmalloc when there is room behind the last block. */
    method Extend(mem: nat, length: nat)
      requires Valid() && length >= 12 && HasRoom(blocks, length) && mem == blocks[|blocks| - 1].End()
      modifies this
      ensures Valid() && blocks == old(blocks) + [Block(mem, length)]
      ensures Allocated(vmm.dmmap, old(State()), State(), Block(mem, length))
    {
      hide Good, Linked, PagesOf, Backing, Gets, KernelMap.Valid, PageAllocator.Valid, HasRoom;
      InRoom(blocks, mem, length);
      RoomIsTouched(blocks, Block(mem, length));
      Link(mem, length);
    }

    /** vmm_alloc_page: the pages it gives own what they map, and none was the heap's before. */
    method TakePages(count: nat) returns (mem: word)
      requires vmm.Valid() && Backing(vmm.View(), vmm.dmmap, taken) && 0 < count <= 0x100000 && Askable(count)
      modifies vmm, vmm.kmm`table, vmm.kmm.entries, vmm.pmm, vmm.pmm.bitmap
      ensures vmm.Valid()
      ensures mem == 0 <==> old(Refused(count))
      ensures mem == 0 ==> vmm.View() == old(vmm.View())
      ensures mem != 0 ==> mem == FrameOf(mem) * 0x1000 && Gets(vmm.dmmap, old(vmm.View()), vmm.View(), FrameOf(mem), count)
      ensures mem != 0 ==> Backing(vmm.View(), vmm.dmmap, taken + Run(FrameOf(mem), count)) && taken !! Run(FrameOf(mem), count)
    {
      hide Run, Highest, Backed, Backing, Took, Unmapped, KernelMap.Valid, FrameAllocator.Booked;
      assert 0 < vmm.pmm.base;
      assert 0 !in vmm.owner;
      hide FrameAllocator.Coherent;
      mem := vmm.AllocPage(count);
      if mem != 0 {
        Taken(old(vmm.View()), vmm.View(), vmm.dmmap, taken, FrameOf(mem), count);
      }
    }

    /** kmalloc when there is none: pages of its own for the new block. */
    method Fresh(length: nat) returns (mem: word)
      requires Valid() && 12 <= length && length + 0xfff < 0x1_0000_0000 && Askable((length + 0xfff) / 0x1000)
      requires !HasRoom(blocks, length)
      modifies this, vmm, vmm.kmm`table, vmm.kmm.entries, vmm.pmm, vmm.pmm.bitmap
      ensures Valid()
      ensures mem == 0 <==> old(Refused((length + 0xfff) / 0x1000))
      ensures mem == 0 ==> blocks == old(blocks) && taken == old(taken) && vmm.View() == old(vmm.View())
      ensures mem != 0 ==> blocks == old(blocks) + [Block(mem, length)]
      ensures mem != 0 ==> Allocated(vmm.dmmap, old(State()), State(), Block(mem, length))
    {
      hide Good, Linked, PagesOf, Run, Refused, Backing, Took, Gets, Askable, PageAllocator.Valid, HasRoom, Allocated;
      var count := (length + 0xfff) / 0x1000;
      mem := TakePages(count);
      if mem != 0 {
        OwnPages(mem, length);
        FreshIsGood(blocks, Block(mem, length));
        Link(mem, length);
        taken := taken + Run(mem / 0x1000, count);
        FreshAllocated(vmm.dmmap, old(State()), State(), mem, length);
      }
    }

    /** Does vmm_alloc_page answer NULL? */
    ghost predicate Refused(count: nat)
      requires count < 0x1_0000_0000
      reads vmm, vmm.pmm
    {
      Highest(Unmapped(vmm.slot), vmm.slots, vmm.pos, count) == 0 || Available(vmm.pmm.free, vmm.pmm.head) < count
    }

    /** kmalloc: a block behind the last one when it fits in the page there, else at the start of new pages. */
    method Malloc(len: nat) returns (p: word)
      requires Valid() && len + HEADER + 0xfff < 0x1_0000_0000
      requires HasRoom(blocks, len + HEADER) || Askable((len + HEADER + 0xfff) / 0x1000)
      modifies this, vmm, vmm.kmm`table, vmm.kmm.entries, vmm.pmm, vmm.pmm.bitmap
      ensures Valid()
      ensures p == 0 <==> old(!HasRoom(blocks, len + HEADER) && Refused((len + HEADER + 0xfff) / 0x1000))
      ensures p == 0 ==> blocks == old(blocks) && taken == old(taken) && vmm.View() == old(vmm.View())
      ensures p != 0 ==> p > HEADER && Allocated(vmm.dmmap, old(State()), State(), Block(p - HEADER, len + HEADER))
      ensures p != 0 ==> p > 12 && blocks == old(blocks) + [Block(p - 12, len + 12)]
      ensures old(blocks) != [] && old(Gap(blocks)) >= len + 12 ==> p == old(Behind(blocks)) + 12
      ensures old(blocks) == [] || old(Gap(blocks)) < len + 12 ==> p == 0 || p % 0x1000 == 12
    {
      hide Good, Linked, PagesOf, Refused, Backing, Askable, PageAllocator.Valid, HasRoom, NewPages;
      RoomIs(blocks, len + 12);
      var length := len + HEADER;
      var mem := Room(length);
      if mem != 0 {
        Extend(mem, length);
        InsideMap(mem);
      } else {
        mem := Fresh(length);
        if mem == 0 {
          return 0;
        }
        InsideMap(mem);
      }
      return mem + HEADER;
    }

    /** Blocks lie in the kernel map. */
    lemma InsideMap(mem: nat)
      requires Valid() && blocks != [] && mem == blocks[|blocks| - 1].addr
      ensures 0 < mem < 0x3000_0000
    {
      hide PagesOf, Linked, Unmapped, FrameAllocator.Valid;
      assert Touches(blocks[|blocks| - 1], mem / 0x1000);
      assert mem / 0x1000 in taken;
    }

    /** The header of block k is in memory, and so are those it links to. */
    ghost predicate Heads(mem: nat, k: nat)
      reads this
    {
      && k < |blocks| && mem == blocks[k].addr && mem in headers
      && (headers[mem].last != 0 ==> headers[mem].last in headers)
      && (headers[mem].next != 0 ==> headers[mem].next in headers)
    }

    /** The first half of kfree: the block before is linked past this one.  Does it end in the page where this one
        starts? */
    method Before(mem: nat, ghost k: nat) returns (shared: bool)
      requires Good(blocks) && Linked(headers, blocks) && Heads(mem, k)
      modifies this`headers
      ensures headers == LinkPast(old(headers), mem)
      ensures mem in headers && headers[mem] == old(headers)[mem]
      ensures shared <==> k > 0 && blocks[k - 1].length > 0 && blocks[k - 1].Last() == blocks[k].First()
    {
      GoodIsDistinct(blocks);
      NeighboursLinked(headers, blocks, k);
      Apart(blocks, k - 1, k);
      hide Good, Linked, Distinct;
      var last := headers[mem].last;
      shared := false;
      if last != 0 {
        headers := headers[last := headers[last].(next := headers[mem].next)];
        shared := (last + headers[last].length - 1) / 0x1000 == mem / 0x1000;
      }
    }

    /** The second half: the block after is linked past this one, or `pos` moves back.  Does it start in the page where
        this one ends? */
    method After(mem: nat, ghost k: nat) returns (shared: bool)
      requires Good(blocks) && k < |blocks| && mem == blocks[k].addr && pos == EndOf(blocks)
      requires mem in headers && headers[mem] == Heap.Header(LastOf(blocks, k), NextOf(blocks, k), blocks[k].length)
      requires headers[mem].next != 0 ==> headers[mem].next in headers
      modifies this`headers, this`pos
      ensures headers == if old(headers)[mem].next != 0
                         then old(headers)[old(headers)[mem].next := old(headers)[old(headers)[mem].next].(last := old(headers)[mem].last)]
                         else old(headers)
      ensures pos == EndOf(Without(blocks, k))
      ensures shared <==> k + 1 < |blocks| && blocks[k].Last() == blocks[k + 1].First()
    {
      GoodIsDistinct(blocks);
      EndAfterLinkOut(blocks, k);
      hide Good;
      var next := headers[mem].next;
      shared := false;
      if next != 0 {
        headers := headers[next := headers[next].(last := headers[mem].last)];
        shared := (mem + headers[mem].length - 1) / 0x1000 == next / 0x1000;
      } else {
        pos := headers[mem].last;
      }
    }

    /** The end of kfree. */
    method GiveBack(page: nat, num: int)
      requires vmm.Valid() && Backing(vmm.View(), vmm.dmmap, taken) && Pages(page, num) <= taken
      modifies this`taken, vmm, vmm.kmm`table, vmm.kmm.entries, vmm.pmm, vmm.pmm.bitmap
      ensures vmm.Valid() && Backing(vmm.View(), vmm.dmmap, taken) && taken == old(taken) - Pages(page, num)
      ensures GivesUp(vmm.dmmap, old(vmm.View()), vmm.View(), page, num)
    {
      hide PageAllocator.Valid, Backing, Gave, Run;
      if num > 0 {
        ReturnPages(page, num);
        taken := taken - Run(page, num);
      } else {
        assert taken - Pages(page, num) == taken;
      }
    }

    method ReturnPages(page: nat, num: nat)
      requires vmm.Valid() && Backing(vmm.View(), vmm.dmmap, taken) && num > 0 && Run(page, num) <= taken
      modifies vmm, vmm.kmm`table, vmm.kmm.entries, vmm.pmm, vmm.pmm.bitmap
      ensures vmm.Valid() && Backing(vmm.View(), vmm.dmmap, taken - Run(page, num))
      ensures vmm.dmmap <= page && Gave(old(vmm.View()), vmm.View(), page - vmm.dmmap, num)
    {
      hide Run, Released, Unmapped, Backing, Gave, FrameAllocator.Valid, KernelMap.Valid;
      Given(vmm.View(), vmm.dmmap, taken, page, num, vmm.pmm.base, vmm.pmm.pages);
      vmm.FreePage(page * 0x1000, num);
    }

    /** kfree: the block leaves the list, and the pages of it that no other block touches go back. */
    method Free(p: word, ghost k: nat)
      requires Valid() && k < |blocks| && p == blocks[k].addr + HEADER
      modifies this, vmm, vmm.kmm`table, vmm.kmm.entries, vmm.pmm, vmm.pmm.bitmap
      ensures Valid() && Freed(vmm.dmmap, old(State()), State(), k)
    {
      hide Good, Linked, PagesOf, Run, Pages, Backing, GivesUp, PageAllocator.Valid;
      var mem := p - HEADER;
      ghost var was := blocks;
      var page, num := Unlink(mem, k);
      FreedList(was, k);
      blocks := Without(blocks, k);
      GiveBack(page, num);
    }

    /** The part of kfree before the pages go back: the stores, and the pages that go back. */
    method Unlink(mem: nat, ghost k: nat) returns (page: nat, num: int)
      requires Listed() && k < |blocks| && mem == blocks[k].addr
      modifies this`headers, this`pos
      ensures Linked(headers, Without(blocks, k)) && pos == EndOf(Without(blocks, k))
      ensures page == FirstReturned(blocks, k) && num == NumReturned(blocks, k)
    {
      hide Good, Linked, Distinct, PagesOf, Without, LastOf, NextOf;
      GoodIsDistinct(blocks);
      HeaderLinks(headers, blocks, k);
      HeaderOf(headers, blocks, k);
      LinkedAfterLinkOut(headers, blocks, k);
      Length(blocks, k);
      page := mem / 0x1000;
      num := (headers[mem].length + 0xfff) / 0x1000;
      var shared := Before(mem, k);
      page := page + if shared then 1 else 0;
      num := num - if shared then 1 else 0;
      shared := After(mem, k);
      num := num - if shared then 1 else 0;
    }
  }
}
