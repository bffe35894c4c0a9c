/** The physical frame allocator of kernel/mm/pmm.c: one bit a frame (1: taken), searched from both ends.

    `free` is the ghost set of frames whose bit is clear.  Coherent() only ties it to the bytes; Valid() adds what
    the allocator relies on: the search bounds and the counter.  pmm_free_page can be given anything, so its
    contract is stated on Coherent states, and says when Valid survives. */
module Pmm {
  import opened Basics
  import opened Page

  /** 0x1 << k, in a byte. */
  function Mask(k: nat): bv8
    requires k < 8
  {
    if k == 0 then 0x01 else if k == 1 then 0x02 else if k == 2 then 0x04 else if k == 3 then 0x08
    else if k == 4 then 0x10 else if k == 5 then 0x20 else if k == 6 then 0x40 else 0x80
  }

  predicate Bit(b: bv8, k: nat)
    requires k < 8
  {
    b & Mask(k) != 0
  }

  /** Setting or clearing one bit of a byte leaves the other seven. */
  function SetBit(b: bv8, k: nat): (r: bv8)
    requires k < 8
    ensures forall j: nat :: j < 8 ==> Bit(r, j) == (j == k || Bit(b, j))
  {
    b | Mask(k)
  }

  function ClearBit(b: bv8, k: nat): (r: bv8)
    requires k < 8
    ensures forall j: nat :: j < 8 ==> Bit(r, j) == (j != k && Bit(b, j))
  {
    b & !Mask(k)
  }

  /** Is frame i free according to these bytes? */
  lemma MaskIsShift(k: nat)
    requires k < 8
    ensures Mask(k) == 1 << k
  {
    if k == 0 {
    } else if k == 1 {
    } else if k == 2 {
    } else if k == 3 {
    } else if k == 4 {
    } else if k == 5 {
    } else if k == 6 {
    } else {
      assert k == 7;
    }
  }

  lemma ShiftedOut(b: bv8, k: nat)
    requires k < 8
    ensures b & (1 << k) != 0 <==> (b >> k) & 1 == 1
  {
    if k == 0 {
    } else if k == 1 {
    } else if k == 2 {
    } else if k == 3 {
    } else if k == 4 {
    } else if k == 5 {
    } else if k == 6 {
    } else {
      assert k == 7;
    }
  }

  /** The bit of frame k in its byte is the one a shift by k brings to the right ... */
  lemma BitIsShift(b: bv8, k: nat)
    requires k < 8
    ensures Bit(b, k) <==> (b >> k) & 1 == 1
  {
    hide Mask;
    MaskIsShift(k);
    ShiftedOut(b, k);
  }

  /** ... and it is stored with a 1 shifted by k. */
  lemma StoreIsShift(b: bv8, k: nat)
    requires k < 8
    ensures SetBit(b, k) == b | (1 << k) && ClearBit(b, k) == b & !(1 << k)
  {
    hide Mask, Bit;
    MaskIsShift(k);
  }

  predicate Clear(bytes: seq<bv8>, i: nat)
    requires i < 8 * |bytes|
  {
    !Bit(bytes[i / 8], i % 8)
  }

  /** A frame is free when the bit that get_bit_mask shifts out is 0. */
  lemma ClearIs(bytes: seq<bv8>, i: nat)
    requires i < 8 * |bytes|
    ensures Clear(bytes, i) <==> (bytes[i / 8] >> (i % 8)) & 1 == 0
  {
    BitIsShift(bytes[i / 8], i % 8);
    hide Bit;
  }

  /** The frames below n that are free according to these bytes. */
  ghost function ClearSet(bytes: seq<bv8>, n: nat): (r: set<nat>)
    requires n <= 8 * |bytes|
    ensures forall i: nat :: i in r <==> i < n && Clear(bytes, i)
  {
    if n == 0 then {} else ClearSet(bytes, n - 1) + if Clear(bytes, n - 1) then {n - 1} else {}
  }

  /** Storing one masked byte changes the state of exactly one frame. */
  lemma ClearAfterStore(bytes: seq<bv8>, index: nat, i: nat)
    requires index < 8 * |bytes| && i < 8 * |bytes|
    ensures var b := bytes[index / 8];
            && Clear(bytes[index / 8 := ClearBit(b, index % 8)], i) == (i == index || Clear(bytes, i))
            && Clear(bytes[index / 8 := SetBit(b, index % 8)], i) == (i != index && Clear(bytes, i))
  {
  }

  /** The frames index, index + 1, ..., index + count - 1. */
  ghost function Run(index: nat, count: nat): (r: set<nat>)
    ensures forall i: nat :: i in r <==> index <= i < index + count
    ensures |r| == count
  {
    if count == 0 then {} else Run(index, count - 1) + {index + count - 1}
  }

  /** The part of a run that lies below `bound`. */
  ghost function RunBelow(index: nat, count: nat, bound: nat): set<nat> {
    Run(index, if index + count <= bound then count else if index < bound then bound - index else 0)
  }

  /** Is every frame of the run free? */
  ghost predicate FreeRun(free: set<nat>, index: nat, count: nat) {
    forall i: nat :: index <= i < index + count ==> i in free
  }

  /** Every free frame is usable memory and lies between the two search positions. */
  ghost predicate Bounded(free: set<nat>, base: nat, head: nat, tail: nat, pages: nat) {
    && base <= head <= tail + 1 <= pages
    && forall i: nat :: i in free ==> head <= i <= tail
  }

  /** Freeing a run that starts at usable memory moves the search positions just far enough. */
  lemma BoundedAfterReturn(was: set<nat>, now: set<nat>, index: nat, count: nat, base: nat, head: nat, tail: nat, pages: nat)
    requires Bounded(was, base, head, tail, pages)
    requires now == was + Run(index, count)
    requires base <= index && 0 < count && index + count <= pages
    ensures Bounded(now, base, Min(index, head), Max(index + count - 1, tail), pages)
  {
  }

  lemma BoundedAfterTake(free: set<nat>, index: nat, count: nat, base: nat, head: nat, tail: nat, pages: nat)
    requires Bounded(free, base, head, tail, pages) && FreeRun(free, index, count) && head <= index < tail
    ensures index + count <= pages
    ensures Bounded(free - Run(index, count), base, if index == head then index + count else head, tail, pages)
  {
    assert count > 0 ==> index + count - 1 in free;
  }

  /** Two free frames in a row or more start between the search positions. */
  lemma RunsAreBetween(free: set<nat>, count: nat, base: nat, head: nat, tail: nat, pages: nat)
    requires Bounded(free, base, head, tail, pages)
    ensures forall p: nat :: count >= 2 && FreeRun(free, p, count) ==> head <= p < tail
  {
    forall p: nat | count >= 2 && FreeRun(free, p, count)
      ensures head <= p < tail
    {
      assert p in free && p + 1 in free;
    }
  }

  class FrameAllocator {
    const bitmap: array<bv8>
    const length: nat       // pmm_bitmap_length
    const pages: nat        // mem_page_count
    const base: nat         // mem_base_page: frames below hold the kernel and the bitmap
    var freeCount: int
    var head: word
    var tail: word
    ghost var free: set<nat>

    ghost predicate Coherent()
      reads `free, bitmap
    {
      && bitmap.Length == length == (pages + 7) / 8
      && 0 < base <= pages <= 0x100000
      && (forall i: nat :: i in free ==> i < 8 * length)
      && (forall i: nat {:trigger Clear(bitmap[..], i)} :: i < 8 * length ==> (i in free <==> Clear(bitmap[..], i)))
    }

    ghost predicate Valid()
      reads this, bitmap
    {
      Coherent() && Booked()
    }

    ghost predicate Booked()
      reads this
    {
      Bounded(free, base, head, tail, pages) && freeCount == |free|
    }

    /** The bit tells whether the frame is free; beyond the bitmap there is none. */
    function GetBitMask(index: nat): (r: int)
      requires Coherent()
      reads `free, bitmap
      ensures r == 0 <==> index in free
      ensures index < 8 * length ==> 0 <= r <= 1
      ensures index >= 8 * length ==> r == -1
    {
      if index < length * 8 then
        if Clear(bitmap[..], index) then 0 else 1
      else -1
    }

    method SetBitMask(index: nat, mask: int)
      requires Coherent()
      modifies this`free, bitmap
      ensures Coherent()
      ensures index >= 8 * length ==> free == old(free)
      ensures index < 8 * length ==> free == if mask == 0 then old(free) + {index} else old(free) - {index}
    {
      if index < length * 8 {
        ghost var was := bitmap[..];
        if mask == 0 {
          bitmap[index / 8] := ClearBit(bitmap[index / 8], index % 8);
          free := free + {index};
          assert bitmap[..] == was[index / 8 := ClearBit(was[index / 8], index % 8)];
        } else {
          bitmap[index / 8] := SetBit(bitmap[index / 8], index % 8);
          free := free - {index};
          assert bitmap[..] == was[index / 8 := SetBit(was[index / 8], index % 8)];
        }
        forall i: nat | i < 8 * length
          ensures i in free <==> Clear(bitmap[..], i)
        {
          ClearAfterStore(was, index, i);
        }
      }
    }

    /** pmm_init: everything from the first page after the bitmap up to the end of memory is free. */
    constructor (memBaseAddr: word, pages: nat)
      requires 0 < pages <= 0x100000
      requires memBaseAddr + (pages + 7) / 8 <= pages * 0x1000
      ensures Valid() && fresh(bitmap)
      ensures this.pages == pages && base == (memBaseAddr + (pages + 7) / 8 + 0xfff) / 0x1000
      ensures free == Run(base, pages - base)
    {
      bitmap := new bv8[(pages + 7) / 8];
      length := (pages + 7) / 8;
      this.pages := pages;
      base := (memBaseAddr + (pages + 7) / 8 + 0xfff) / 0x1000;
      head := (memBaseAddr + (pages + 7) / 8 + 0xfff) / 0x1000;
      tail := pages - 1;
      freeCount := 0;
      free := {};
      new;
      hide Run;
      FromBytes();
      MarkMemory();
    }

    /** Whatever the bytes say at first. */
    ghost method FromBytes()
      requires bitmap.Length == length == (pages + 7) / 8 && 0 < base <= pages <= 0x100000
      modifies this`free
      ensures Coherent()
    {
      free := ClearSet(bitmap[..], 8 * length);
    }

    /** The loop of pmm_init. */
    method MarkMemory()
      requires Coherent() && freeCount == 0
      modifies this`free, this`freeCount, bitmap
      ensures Coherent() && free == Run(base, pages - base) && freeCount == pages - base
    {
      for i := 0 to length * 8
        invariant Coherent()
        invariant forall j: nat :: j < i ==> (j in free <==> base <= j < pages)
        invariant freeCount == if i < base then 0 else if i < pages then i - base else pages - base
      {
        if i < base || i >= pages {
          SetBitMask(i, 1);
        } else {
          SetBitMask(i, 0);
          freeCount := freeCount + 1;
        }
      }
    }

    /** The highest free frame above `head`; NULL only when no frame but `head` can be free. */
    method AllocPage() returns (attr: word)
      requires Valid()
      modifies this, bitmap
      ensures Valid() && head == old(head)
      ensures attr == 0 <==> old(free) <= {head}
      ensures attr == 0 ==> free == old(free)
      ensures attr != 0 ==>
                var f := FrameOf(attr);
                && attr == AddrOf(f) && base <= f < pages
                && f in old(free) && f > head && (forall g: nat :: g in old(free) ==> g <= f)
                && free == old(free) - {f} && tail == f - 1
    {
      while head < tail
        invariant Valid() && free == old(free) && head == old(head) && freeCount == old(freeCount)
      {
        if GetBitMask(tail) == 0 {
          SetBitMask(tail, 1);
          tail := tail - 1;
          freeCount := freeCount - 1;
          return (tail + 1) * 0x1000;
        }
        tail := tail - 1;
      }
      return 0;
    }

    /** The inner loop of pmm_up_alloc_page: how many frames from p on are free, `count` at most. */
    method RunLength(p: nat, count: nat) returns (i: nat)
      requires Coherent()
      ensures i <= count && FreeRun(free, p, i) && (i < count ==> p + i !in free)
    {
      i := 0;
      while i < count && GetBitMask(p + i) == 0
        invariant i <= count && FreeRun(free, p, i)
      {
        i := i + 1;
      }
    }

    /** The search of pmm_up_alloc_page: the lowest start in [head, tail) of `count` free frames, else >= tail. */
    method FirstFit(count: nat) returns (p: nat)
      requires Valid()
      ensures head <= p && (p < tail ==> FreeRun(free, p, count))
      ensures forall q: nat :: head <= q < p && q < tail ==> !FreeRun(free, q, count)
    {
      p := head;
      while p < tail
        invariant head <= p
        invariant forall q: nat :: head <= q < p && q < tail ==> !FreeRun(free, q, count)
        decreases tail - p
      {
        var i := RunLength(p, count);
        if i == count {
          return;
        }
        p := p + i;
        p := p + 1;
      }
    }

    /** First fit from below. */
    method UpAllocPage(count: nat) returns (attr: word)
      requires Valid()
      modifies this, bitmap
      ensures Valid() && tail == old(tail)
      ensures attr == 0 <==> forall p: nat :: old(head) <= p < tail ==> !FreeRun(old(free), p, count)
      ensures attr == 0 ==> free == old(free) && head == old(head) && freeCount == old(freeCount)
      ensures attr == 0 && count >= 2 ==> forall p: nat :: !FreeRun(old(free), p, count)
      ensures attr != 0 ==>
                var f := FrameOf(attr);
                && attr == AddrOf(f) && old(head) <= f < tail
                && FreeRun(old(free), f, count) && f + count <= pages
                && (forall p: nat :: old(head) <= p < f ==> !FreeRun(old(free), p, count))
                && free == old(free) - Run(f, count)
                && head == if f == old(head) then f + count else old(head)
    {
      hide FreeRun, Run, Clear;
      var p := FirstFit(count);
      if p >= tail {
        RunsAreBetween(free, count, base, head, tail, pages);
        return 0;
      }
      BoundedAfterTake(free, p, count, base, head, tail, pages);
      TakeRun(p, count);
      head := if p == head then head + count else head;
      freeCount := freeCount - count;
      return p * 0x1000;
    }

    /** The marking loop of pmm_up_alloc_page. */
    method TakeRun(p: nat, count: nat)
      requires Coherent() && FreeRun(free, p, count)
      modifies this`free, bitmap
      ensures Coherent() && free == old(free) - Run(p, count) && |free| == |old(free)| - count
    {
      hide Run, Clear;
      for i := 0 to count
        invariant Coherent() && free == old(free) - Run(p, i)
      {
        SetBitMask(p + i, 1);
      }
      assert Run(p, count) <= old(free);
    }

    /** The clearing loop of pmm_free_page: frames that have no bit are passed over. */
    method ReturnRun(index: nat, count: nat)
      requires Coherent()
      modifies this`free, bitmap
      ensures Coherent() && free == old(free) + RunBelow(index, count, 8 * length)
    {
      hide Run, Clear;
      for i := 0 to count
        invariant Coherent() && free == old(free) + RunBelow(index, i, 8 * length)
      {
        SetBitMask(index + i, 0);
      }
    }

    /** Are these frames that can be out, and are all of them out? */
    ghost predicate AllTaken(index: nat, count: nat, free: set<nat>) {
      count > 0 && base <= index && index + count <= pages && Run(index, count) !! free
    }

    /** Frees whatever it is told to; Valid survives the return of frames that were out. */
    method FreePage(attr: word, count: nat)
      requires Coherent() && count <= 0x100000
      modifies this, bitmap
      ensures Coherent()
      ensures free == old(free) + RunBelow(FrameOf(attr), count, 8 * length)
      ensures freeCount == old(freeCount) + count
      ensures head == Min(FrameOf(attr), old(head))
      ensures tail == Max(Sub(FrameOf(attr) + count, 1), old(tail))
      ensures old(Booked() && AllTaken(FrameOf(attr), count, free)) ==>
                Booked() && free == old(free) + Run(FrameOf(attr), count)
    {
      hide Run, Clear;
      var index := attr / 0x1000;
      ReturnRun(index, count);
      head := Min(index, head);
      tail := Max(Sub(index + count, 1), tail);
      freeCount := freeCount + count;
      if old(Booked() && AllTaken(index, count, free)) {
        BoundedAfterReturn(old(free), free, index, count, base, old(head), old(tail), pages);
      }
    }
  }

  /** Memory of two frames, one of them free, and pmm_alloc_page answers NULL. */
  method OneFrameExample() returns (pmm: FrameAllocator, attr: word)
    ensures attr == 0 && pmm.Valid() && pmm.free == {1}
  {
    pmm := new FrameAllocator(0, 2);
    assert pmm.base == 1 && pmm.free == Run(1, 1) == {1};
    assert 1 in pmm.free;
    attr := pmm.AllocPage();
  }
}
