/** The kernel page map of kernel/mm/kmm.c: one flat table of page-table entries for the top of the address space,
    and the page directory that every address space starts from. */
module Kmm {
  import opened Page

  const GLOBL_PTE_NUM: nat := 0xc0      // GLOBL_PAGE_NUM / PAGE_PTE_INDEX

  class KernelMap {
    const entries: array<word>   // globl_mmap_pte[0][..]
    const directory: array<word> // kernel_mmap_pde
    ghost var table: seq<nat>    // the frame each entry maps; 0: not mapped

    ghost predicate Valid()
      reads this, entries
    {
      && entries.Length == |table| == GLOBL_PAGE_NUM
      && directory.Length == 0x400 && entries != directory
      && (forall i: nat {:trigger entries[i]} :: i < GLOBL_PAGE_NUM ==>
            FrameOf(entries[i]) == table[i] && (entries[i] == 0 || entries[i] % 0x1000 == 3))
    }

    /** The directory entries of a fresh kernel: no user table, and the kernel tables of the map itself. */
    ghost predicate DirectoryFor(tables: word)
      reads directory
    {
      && directory.Length == 0x400
      && (forall m: nat :: m < 0x300 ==> directory[m] == 0)
      && (forall m: nat {:trigger directory[m]} :: 0x300 <= m < 0x3c0 ==>
            directory[m] == (tables + (m - 0x300) * 0x1000) % 0x1_0000_0000 / 0x1000 * 0x1000 + 3)
      && (forall m: nat :: 0x3c0 <= m < 0x400 ==> directory[m] == 0)
    }

    /** globl_mmap_init; `tables` is the address of globl_mmap_pte. */
    constructor (tables: word)
      ensures Valid() && DirectoryFor(tables) && fresh(entries) && fresh(directory)
      ensures forall i: nat :: i < GLOBL_PAGE_NUM ==> table[i] == 0 && entries[i] == 0
    {
      entries := new word[GLOBL_PAGE_NUM](_ => 0);
      directory := new word[0x400](_ => 0);
      new;
      table := seq(GLOBL_PAGE_NUM, _ => 0);
      for m := 0 to 0x400
        invariant forall k: nat :: k < m ==> directory[k] == 0
        modifies directory
      {
        directory[m] := 0;
      }
      for m := 0 to GLOBL_PTE_NUM
        invariant forall k: nat :: k < 0x400 ==>
                    directory[k] == if KERNEL_PDE <= k < KERNEL_PDE + m
                                    then SetPage((tables + (k - KERNEL_PDE) * 0x1000) % 0x1_0000_0000, KERNEL_ENTRY)
                                    else 0
        modifies directory, entries
        invariant Valid()
        invariant forall i: nat {:trigger entries[i]} {:trigger table[i]} :: i < GLOBL_PAGE_NUM ==> table[i] == 0 && entries[i] == 0
      {
        directory[KERNEL_PDE + m] := SetPage((tables + m * 0x1000) % 0x1_0000_0000, KERNEL_ENTRY);
        for n := 0 to 0x400
          invariant Valid()
          invariant forall i: nat {:trigger entries[i]} {:trigger table[i]} :: i < GLOBL_PAGE_NUM ==> table[i] == 0 && entries[i] == 0
          modifies entries
        {
          entries[m * 0x400 + n] := 0;
        }
      }
    }

    method PageMmap(frame: nat, index: nat)
      requires Valid() && frame < 0x100000
      modifies this`table, entries
      ensures Valid()
      ensures table == if index < GLOBL_PAGE_NUM then old(table)[index := frame] else old(table)
      ensures index < GLOBL_PAGE_NUM ==> entries[index] == frame * 0x1000 + 3
      ensures forall i: nat {:trigger entries[i]} :: i < GLOBL_PAGE_NUM && i != index ==> entries[i] == old(entries[i])
    {
      if index < GLOBL_PTE_NUM * 0x400 {
        entries[index] := SetPage(AddrOf(frame), KERNEL_ENTRY);
        table := table[index := frame];
      }
    }

    method PageRemove(index: nat)
      requires Valid()
      modifies this`table, entries
      ensures Valid()
      ensures table == if index < GLOBL_PAGE_NUM then old(table)[index := 0] else old(table)
      ensures index < GLOBL_PAGE_NUM ==> entries[index] == 0
      ensures forall i: nat {:trigger entries[i]} :: i < GLOBL_PAGE_NUM && i != index ==> entries[i] == old(entries[i])
    {
      if index < GLOBL_PTE_NUM * 0x400 {
        entries[index] := 0;
        table := table[index := 0];
      }
    }

    function GetAttr(index: nat): (attr: word)
      requires Valid() && index < GLOBL_PAGE_NUM
      reads this, entries
      ensures attr == table[index] * 0x1000
    {
      GetPageAttr(entries[index])
    }
  }
}
