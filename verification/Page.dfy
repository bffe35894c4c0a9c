/** Words of the machine and the page-table expressions of include/arch/x86/page.h.

    A 32-bit word is an integer below 2^32; the masks of page.h split a word at bit 12 (or 22), so they are
    division and remainder by powers of two.  MasksAreArithmetic checks that reading against the masks themselves,
    on 32-bit vectors. */
module Page {
  type word = x: int | 0 <= x < 0x1_0000_0000

  const PAGE_PRESENT: word := 0x1
  const PAGE_WRITE: word := 0x2
  const PAGE_USER: word := 0x4
  const KERNEL_ENTRY: word := PAGE_PRESENT + PAGE_WRITE
  const USER_ENTRY: word := PAGE_PRESENT + PAGE_WRITE + PAGE_USER

  const GLOBL_PAGE_NUM: nat := 0x30000  // pages of the kernel map
  const DMMAP_PAGE_MAX: nat := 0x20000  // of these, the most that the direct map takes
  const USER_PAGES: nat := 0xc0000      // pages below PAGE_OFFSET
  const KERNEL_PDE: nat := 0x300        // pde_index(PAGE_OFFSET)

  /** The number of the page or frame an address lies in. */
  function FrameOf(attr: word): nat {
    attr / 0x1000
  }

  /** The address at which a page or frame starts. */
  function AddrOf(frame: nat): word
    requires frame < 0x100000
  {
    frame * 0x1000
  }

  function GetPageAttr(pte: word): word {
    pte - pte % 0x1000
  }

  function SetPage(base: word, attribute: word): word {
    GetPageAttr(base) + attribute % 0x1000
  }

  function PdeIndex(attr: word): nat {
    attr / 0x40_0000
  }

  function PteIndex(attr: word): nat {
    attr / 0x1000 % 0x400
  }

  /** Arithmetic on words wraps around. */
  function Sub(a: word, b: word): word {
    if a >= b then a - b else a - b + 0x1_0000_0000
  }

  /** The user's part of the address space is what lies below 3 GiB; the kernel map is the 768 MiB above it, the direct map
      at most the first 512 MiB of that. */
  lemma Layout(attr: word)
    ensures FrameOf(attr) < USER_PAGES <==> attr < 0xc000_0000
    ensures PdeIndex(attr) < KERNEL_PDE <==> attr < 0xc000_0000
    ensures FrameOf(attr) < USER_PAGES + GLOBL_PAGE_NUM <==> attr < 0xf000_0000
    ensures FrameOf(attr) < USER_PAGES + DMMAP_PAGE_MAX <==> attr < 0xe000_0000
  {
  }

  /** The masks of page.h keep what the quotients and remainders used here keep. */
  lemma MasksAreArithmetic(base: bv32)
    ensures base & 0xfffff000 == base - base % 0x1000
    ensures base & !0xfffff000 == base % 0x1000
    ensures base >> 22 == base / 0x40_0000
    ensures (base & 0x003ff000) >> 12 == base / 0x1000 % 0x400
  {
  }

  /** The two halves set_page joins share no bit, so its disjunction is the sum that SetPage computes. */
  lemma SetPageIsASum(base: bv32, attribute: bv32)
    ensures (base & 0xfffff000) | (attribute & !0xfffff000) == (base & 0xfffff000) + (attribute & !0xfffff000)
  {
  }

  /** An entry keeps the frame it was built from, whatever the attribute bits. */
  lemma EntryKeepsFrame(frame: nat, attribute: word)
    requires frame < 0x100000
    ensures FrameOf(SetPage(AddrOf(frame), attribute)) == frame
    ensures GetPageAttr(SetPage(AddrOf(frame), attribute)) == AddrOf(frame)
    ensures SetPage(AddrOf(frame), attribute) % 0x1000 == attribute % 0x1000
  {
  }

  /** The two table indices name a page: they agree on two addresses exactly when the addresses share a page. */
  lemma IndicesNamePage(a: word, b: word)
    ensures PdeIndex(a) < 0x400 && PteIndex(a) < 0x400
    ensures FrameOf(a) == PdeIndex(a) * 0x400 + PteIndex(a)
    ensures PdeIndex(a) == PdeIndex(b) && PteIndex(a) == PteIndex(b) <==> FrameOf(a) == FrameOf(b)
  {
  }
}
