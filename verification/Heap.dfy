/** The block list of kernel/mm/alloc.c, on values: the blocks in list order, header included. */
module Heap {
  import opened Pmm

  datatype Block = Block(addr: nat, length: nat) {
    function End(): nat {
      addr + length
    }

    function First(): nat {
      addr / 0x1000
    }

    function Last(): nat
      requires length > 0
    {
      (addr + length - 1) / 0x1000
    }

    /** Holds a header, and starts a page or stays inside one. */
    ghost predicate Shaped() {
      0 < addr && 12 <= length && (addr % 0x1000 == 0 || addr % 0x1000 + length <= 0x1000)
    }
  }

  ghost predicate Touches(b: Block, q: nat) {
    b.length > 0 && b.First() <= q <= b.Last()
  }

  /** a, earlier in the list than b, ends in the page where b starts, below b. */
  ghost predicate Share(a: Block, b: Block)
    requires a.length > 0
  {
    a.Last() == b.First() && a.End() <= b.addr
  }

  ghost predicate NoCommonPage(a: Block, b: Block)
    requires a.length > 0 && b.length > 0
  {
    a.Last() < b.First() || b.Last() < a.First()
  }

  /** Two blocks of the list have no page in common, or exactly one, which they use in list order; and then every
      block listed between them lies in that page too. */
  ghost predicate Good(blocks: seq<Block>) {
    && (forall k: nat {:trigger blocks[k]} :: k < |blocks| ==> blocks[k].Shaped())
    && (forall j: nat, k: nat {:trigger blocks[j], blocks[k]} :: j < k < |blocks| ==>
          NoCommonPage(blocks[j], blocks[k]) || Share(blocks[j], blocks[k]))
    && (forall j: nat, m: nat, k: nat {:trigger blocks[j], blocks[m], blocks[k]} :: j < m < k < |blocks| ==>
          NoCommonPage(blocks[j], blocks[k]) || blocks[m].First() == blocks[m].Last() == blocks[k].First())
  }

  /** Live blocks do not overlap, so neither do their headers. */
  lemma BlocksDisjoint(blocks: seq<Block>, j: nat, k: nat)
    requires Good(blocks) && j < |blocks| && k < |blocks| && j != k
    ensures blocks[j].End() <= blocks[k].addr || blocks[k].End() <= blocks[j].addr
  {
    if j < k {
      ApartInMemory(blocks[j], blocks[k]);
    } else {
      ApartInMemory(blocks[k], blocks[j]);
    }
  }

  lemma ApartInMemory(a: Block, b: Block)
    requires a.Shaped() && b.Shaped() && (NoCommonPage(a, b) || Share(a, b))
    ensures a.End() <= b.addr || b.End() <= a.addr
  {
    if NoCommonPage(a, b) {
      if a.Last() < b.First() {
        assert a.End() - 1 < b.addr;
      } else {
        assert b.End() - 1 < a.addr;
      }
    }
  }

  function Without(blocks: seq<Block>, k: nat): seq<Block>
    requires k < |blocks|
  {
    blocks[..k] + blocks[k + 1..]
  }

  lemma GoodAfterRemoval(blocks: seq<Block>, k: nat)
    requires Good(blocks) && k < |blocks|
    ensures Good(Without(blocks, k))
  {
    var r := Without(blocks, k);
    forall i: nat | i < |r|
      ensures r[i] == blocks[if i < k then i else i + 1]
    {
    }
  }

  /** A new block right behind the last one, in what is left of its page. */
  lemma GoodInLastPage(blocks: seq<Block>, b: Block)
    requires Good(blocks) && blocks != [] && b.Shaped()
    requires var last := blocks[|blocks| - 1];
             b.addr == last.End() && b.addr % 0x1000 != 0 && b.addr % 0x1000 + b.length <= 0x1000
    ensures Good(blocks + [b])
    ensures b.First() == b.Last() == blocks[|blocks| - 1].Last()
  {
    var n := |blocks|;
    var last := blocks[n - 1];
    assert b.First() == b.Last() == last.Last();
    forall j: nat | j < n
      ensures NoCommonPage(blocks[j], b) || Share(blocks[j], b)
      ensures !NoCommonPage(blocks[j], b) ==> forall m: nat :: j < m < n ==> blocks[m].First() == blocks[m].Last() == b.First()
    {
      BeforeLast(blocks, b, j);
    }
    GoodExtended(blocks, b);
  }

  lemma BeforeLast(blocks: seq<Block>, b: Block, j: nat)
    requires Good(blocks) && blocks != [] && b.Shaped() && j < |blocks|
    requires b.addr == blocks[|blocks| - 1].End() && b.First() == b.Last() == blocks[|blocks| - 1].Last()
    ensures NoCommonPage(blocks[j], b) || Share(blocks[j], b)
    ensures !NoCommonPage(blocks[j], b) ==>
              forall m: nat :: j < m < |blocks| ==> blocks[m].First() == blocks[m].Last() == b.First()
  {
    var n := |blocks|;
    if j < n - 1 && !NoCommonPage(blocks[j], b) {
      assert !NoCommonPage(blocks[j], blocks[n - 1]);
    }
  }

  lemma GoodExtended(blocks: seq<Block>, b: Block)
    requires Good(blocks) && b.Shaped()
    requires forall j: nat :: j < |blocks| ==> NoCommonPage(blocks[j], b) || Share(blocks[j], b)
    requires forall j: nat, m: nat :: j < m < |blocks| ==>
               NoCommonPage(blocks[j], b) || blocks[m].First() == blocks[m].Last() == b.First()
    ensures Good(blocks + [b])
  {
    var r := blocks + [b];
    forall j: nat, m: nat, k: nat | j < m < k < |r|
      ensures NoCommonPage(r[j], r[k]) || r[m].First() == r[m].Last() == r[k].First()
    {
      hide NoCommonPage;
      assert r[j] == blocks[j] && r[m] == blocks[m];
    }
  }

  /** A new block in pages no other block touches. */
  lemma GoodInFreshPages(blocks: seq<Block>, b: Block)
    requires Good(blocks) && b.Shaped()
    requires forall k: nat :: k < |blocks| ==> NoCommonPage(blocks[k], b)
    ensures Good(blocks + [b])
  {
    GoodExtended(blocks, b);
  }

  ghost predicate Touched(blocks: seq<Block>, q: nat) {
    exists k: nat {:trigger blocks[k]} :: k < |blocks| && Touches(blocks[k], q)
  }

  lemma TouchedAt(blocks: seq<Block>, k: nat, q: nat)
    requires k < |blocks| && Touches(blocks[k], q)
    ensures Touched(blocks, q)
  {
  }

  lemma TouchedSplit(blocks: seq<Block>, k: nat, q: nat)
    requires k < |blocks|
    ensures Touched(blocks, q) <==> Touched(Without(blocks, k), q) || Touches(blocks[k], q)
  {
    hide Touches;
    var r := Without(blocks, k);
    if Touched(blocks, q) && !Touches(blocks[k], q) {
      var i: nat :| i < |blocks| && Touches(blocks[i], q);
      TouchedAt(r, if i < k then i else i - 1, q);
    }
    if Touched(r, q) {
      var i: nat :| i < |r| && Touches(r[i], q);
      TouchedAt(blocks, if i < k then i else i + 1, q);
    }
  }

  ghost function BlockPages(b: Block): (r: set<nat>)
    ensures forall q: nat :: q in r <==> Touches(b, q)
  {
    if b.length > 0 then Run(b.First(), b.Last() + 1 - b.First()) else {}
  }

  /** The pages the blocks touch. */
  ghost function PagesOf(blocks: seq<Block>): (r: set<nat>)
    ensures forall q: nat :: q in r <==> Touched(blocks, q)
    decreases |blocks|
  {
    if blocks == [] then {} else
      hide Touches, BlockPages;
      var k := |blocks| - 1;
      assert Without(blocks, k) == blocks[..k];
      assert forall q: nat :: Touched(blocks, q) <==> Touched(blocks[..k], q) || Touches(blocks[k], q) by {
        hide Touched;
        forall q: nat ensures Touched(blocks, q) <==> Touched(blocks[..k], q) || Touches(blocks[k], q) {
          TouchedSplit(blocks, k, q);
        }
      }
      PagesOf(blocks[..k]) + BlockPages(blocks[k])
  }

  /** Does the block before block k end in the page where k starts?  Does the one after start where k ends? */
  ghost predicate FirstShared(blocks: seq<Block>, k: nat)
    requires Good(blocks) && k < |blocks|
  {
    k > 0 && blocks[k - 1].Last() == blocks[k].First()
  }

  ghost predicate LastShared(blocks: seq<Block>, k: nat)
    requires Good(blocks) && k < |blocks|
  {
    k + 1 < |blocks| && blocks[k].Last() == blocks[k + 1].First()
  }

  lemma NeighboursTouch(blocks: seq<Block>, k: nat)
    requires Good(blocks) && k < |blocks|
    ensures FirstShared(blocks, k) ==> Touches(blocks[k - 1], blocks[k].First())
    ensures LastShared(blocks, k) ==> Touches(blocks[k + 1], blocks[k].Last())
  {
  }

  /** The neighbours in the list decide which pages of block k other blocks touch. */
  lemma SharedPages(blocks: seq<Block>, k: nat, q: nat)
    requires Good(blocks) && k < |blocks| && Touches(blocks[k], q)
    ensures Touched(Without(blocks, k), q) <==>
            (FirstShared(blocks, k) && q == blocks[k].First()) || (LastShared(blocks, k) && q == blocks[k].Last())
  {
    hide Touches, Good, FirstShared, LastShared;
    var r := Without(blocks, k);
    if Touched(r, q) {
      var i: nat :| i < |r| && Touches(r[i], q);
      OthersShare(blocks, k, if i < k then i else i + 1, q);
    }
    NeighboursTouch(blocks, k);
    SharedAfter(blocks, k, q);
  }

  lemma SharedAfter(blocks: seq<Block>, k: nat, q: nat)
    requires Good(blocks) && k < |blocks|
    requires FirstShared(blocks, k) ==> Touches(blocks[k - 1], blocks[k].First())
    requires LastShared(blocks, k) ==> Touches(blocks[k + 1], blocks[k].Last())
    ensures FirstShared(blocks, k) && q == blocks[k].First() ==> Touched(Without(blocks, k), q)
    ensures LastShared(blocks, k) && q == blocks[k].Last() ==> Touched(Without(blocks, k), q)
  {
    hide Touches;
    if FirstShared(blocks, k) && q == blocks[k].First() {
      TouchedAt(Without(blocks, k), k - 1, q);
    }
    if LastShared(blocks, k) && q == blocks[k].Last() {
      TouchedAt(Without(blocks, k), k, q);
    }
  }

  lemma OthersShare(blocks: seq<Block>, k: nat, j: nat, q: nat)
    requires Good(blocks) && k < |blocks| && j < |blocks| && j != k
    requires Touches(blocks[k], q) && Touches(blocks[j], q)
    ensures (FirstShared(blocks, k) && q == blocks[k].First()) || (LastShared(blocks, k) && q == blocks[k].Last())
  {
    if j < k {
      assert Share(blocks[j], blocks[k]);
      if j < k - 1 {
        assert blocks[k - 1].Last() == blocks[k].First();
      }
    } else {
      assert Share(blocks[k], blocks[j]);
      if k + 1 < j {
        assert blocks[k + 1].First() == blocks[j].First();
      }
    }
  }

  /** The first page kfree gives back, and how many it gives back. */
  function FirstReturned(blocks: seq<Block>, k: nat): nat
    requires k < |blocks|
  {
    blocks[k].First() + if k > 0 && blocks[k - 1].length > 0 && blocks[k - 1].Last() == blocks[k].First() then 1 else 0
  }

  function NumReturned(blocks: seq<Block>, k: nat): int
    requires k < |blocks| && blocks[k].length > 0
  {
    blocks[k].Last() + 1 - FirstReturned(blocks, k)
      - if k + 1 < |blocks| && blocks[k].Last() == blocks[k + 1].First() then 1 else 0
  }

  ghost function Pages(page: nat, num: int): (r: set<nat>)
    ensures forall q: nat :: q in r <==> page <= q < page + num
  {
    if num > 0 then Run(page, num) else {}
  }

  /** They are the pages of block k that no other block touches. */
  ghost function Returned(blocks: seq<Block>, k: nat): (r: set<nat>)
    requires Good(blocks) && k < |blocks|
    ensures forall q: nat :: q in r <==>
              && Touches(blocks[k], q)
              && !(FirstShared(blocks, k) && q == blocks[k].First()) && !(LastShared(blocks, k) && q == blocks[k].Last())
  {
    Pages(FirstReturned(blocks, k), NumReturned(blocks, k))
  }

  /** So a page goes back exactly when the last block in it dies. */
  lemma ReturnedExactly(blocks: seq<Block>, k: nat)
    requires Good(blocks) && k < |blocks|
    ensures PagesOf(Without(blocks, k)) == PagesOf(blocks) - Returned(blocks, k)
    ensures Returned(blocks, k) <= PagesOf(blocks)
  {
    forall q: nat
      ensures Touched(Without(blocks, k), q) <==> Touched(blocks, q) && q !in Returned(blocks, k)
      ensures q in Returned(blocks, k) ==> Touched(blocks, q)
    {
      hide PagesOf, Returned, Touched;
      TouchedSplit(blocks, k, q);
      if Touches(blocks[k], q) {
        SharedPages(blocks, k, q);
      }
    }
  }

  lemma PagesAppend(blocks: seq<Block>, b: Block)
    ensures PagesOf(blocks + [b]) == PagesOf(blocks) + BlockPages(b)
  {
    hide Touches, BlockPages, PagesOf;
    forall q: nat
      ensures Touched(blocks + [b], q) <==> Touched(blocks, q) || Touches(b, q)
    {
      assert Without(blocks + [b], |blocks|) == blocks;
      TouchedSplit(blocks + [b], |blocks|, q);
    }
  }

  /** struct alloc_header_t: the neighbours in the list (0: none) and the length, header included. */
  datatype Header = Header(last: nat, next: nat, length: nat)

  function LastOf(blocks: seq<Block>, k: nat): nat
    requires k < |blocks|
  {
    if k == 0 then 0 else blocks[k - 1].addr
  }

  function NextOf(blocks: seq<Block>, k: nat): nat
    requires k < |blocks|
  {
    if k + 1 == |blocks| then 0 else blocks[k + 1].addr
  }

  /** The header of block k stands in memory, with the right neighbours. */
  ghost predicate LinkedAt(hdr: map<nat, Header>, blocks: seq<Block>, k: nat)
    requires k < |blocks|
  {
    blocks[k].addr in hdr && hdr[blocks[k].addr] == Header(LastOf(blocks, k), NextOf(blocks, k), blocks[k].length)
  }

  /** The headers in memory form the doubly linked list of the blocks. */
  ghost predicate Linked(hdr: map<nat, Header>, blocks: seq<Block>) {
    forall k: nat {:trigger blocks[k]} {:trigger LinkedAt(hdr, blocks, k)} :: k < |blocks| ==> LinkedAt(hdr, blocks, k)
  }

  /** The value of the kernel's `pos`: the last block, 0 when there is none. */
  function EndOf(blocks: seq<Block>): nat {
    if blocks == [] then 0 else blocks[|blocks| - 1].addr
  }

  /** No two blocks have one address, and none has address 0. */
  ghost predicate Distinct(blocks: seq<Block>) {
    && (forall k: nat {:trigger blocks[k]} :: k < |blocks| ==> blocks[k].addr > 0)
    && (forall j: nat, k: nat {:trigger blocks[j], blocks[k]} :: j < k < |blocks| ==> blocks[j].addr != blocks[k].addr)
  }

  lemma GoodIsDistinct(blocks: seq<Block>)
    requires Good(blocks)
    ensures Distinct(blocks)
  {
    forall j: nat, k: nat | j < k < |blocks|
      ensures blocks[j].addr != blocks[k].addr
    {
      BlocksDisjoint(blocks, j, k);
    }
  }

  /** The stores of kmalloc: the new header, then the `next` field of the block before. */
  function LinkIn(hdr: map<nat, Header>, pos: nat, b: Block): map<nat, Header>
    requires pos != 0 ==> pos in hdr
  {
    var h := hdr[b.addr := Header(pos, 0, b.length)];
    if pos != 0 then h[pos := h[pos].(next := b.addr)] else h
  }

  lemma LinkedAfterLinkIn(hdr: map<nat, Header>, blocks: seq<Block>, b: Block)
    requires Linked(hdr, blocks) && Distinct(blocks + [b])
    ensures EndOf(blocks) != 0 ==> EndOf(blocks) in hdr
    ensures Linked(LinkIn(hdr, EndOf(blocks), b), blocks + [b])
  {
    var n := |blocks|;
    if n > 0 {
      assert LinkedAt(hdr, blocks, n - 1);
    }
    forall k: nat | k <= n
      ensures LinkedAt(LinkIn(hdr, EndOf(blocks), b), blocks + [b], k)
    {
      LinkInAt(hdr, blocks, b, k);
    }
  }

  lemma LinkInAt(hdr: map<nat, Header>, blocks: seq<Block>, b: Block, k: nat)
    requires Linked(hdr, blocks) && Distinct(blocks + [b]) && k <= |blocks|
    requires EndOf(blocks) != 0 ==> EndOf(blocks) in hdr
    ensures LinkedAt(LinkIn(hdr, EndOf(blocks), b), blocks + [b], k)
  {
    var n := |blocks|;
    var r := blocks + [b];
    assert r[n] == b && EndOf(blocks) == LastOf(r, n);
    assert EndOf(blocks) != b.addr by {
      if n > 0 {
        assert r[n - 1] == blocks[n - 1];
      }
      assert r[n].addr > 0;
    }
    if k < n {
      assert r[k] == blocks[k] && LinkedAt(hdr, blocks, k) && r[k].addr != r[n].addr;
      assert r[n - 1] == blocks[n - 1];
      if k < n - 1 {
        assert r[k].addr != r[n - 1].addr && r[k + 1] == blocks[k + 1];
      }
    }
  }

  /** The stores of kfree: the `next` field of the block before, then the `last` field of the block after. */
  function LinkOut(hdr: map<nat, Header>, mem: nat): map<nat, Header>
    requires mem in hdr
    requires (hdr[mem].last != 0 ==> hdr[mem].last in hdr) && (hdr[mem].next != 0 ==> hdr[mem].next in hdr)
  {
    var next := hdr[mem].next;
    var h := LinkPast(hdr, mem);
    if next != 0 then h[next := h[next].(last := hdr[mem].last)] else h
  }

  function LinkPast(hdr: map<nat, Header>, mem: nat): map<nat, Header>
    requires mem in hdr && (hdr[mem].last != 0 ==> hdr[mem].last in hdr)
  {
    var last := hdr[mem].last;
    if last != 0 then hdr[last := hdr[last].(next := hdr[mem].next)] else hdr
  }

  lemma NeighboursLinked(hdr: map<nat, Header>, blocks: seq<Block>, k: nat)
    requires Linked(hdr, blocks) && Distinct(blocks) && k < |blocks|
    ensures LinkedAt(hdr, blocks, k)
    ensures k > 0 ==> LinkedAt(hdr, blocks, k - 1) && LastOf(blocks, k) > 0
    ensures k + 1 < |blocks| ==> LinkedAt(hdr, blocks, k + 1) && NextOf(blocks, k) > 0
  {
  }

  lemma HeaderLinks(hdr: map<nat, Header>, blocks: seq<Block>, k: nat)
    requires Linked(hdr, blocks) && Distinct(blocks) && k < |blocks|
    ensures blocks[k].addr in hdr
    ensures hdr[blocks[k].addr].last != 0 ==> hdr[blocks[k].addr].last in hdr
    ensures hdr[blocks[k].addr].next != 0 ==> hdr[blocks[k].addr].next in hdr
  {
    NeighboursLinked(hdr, blocks, k);
  }

  lemma LinkedAfterLinkOut(hdr: map<nat, Header>, blocks: seq<Block>, k: nat)
    requires Linked(hdr, blocks) && Distinct(blocks) && k < |blocks|
    requires blocks[k].addr in hdr
    requires hdr[blocks[k].addr].last != 0 ==> hdr[blocks[k].addr].last in hdr
    requires hdr[blocks[k].addr].next != 0 ==> hdr[blocks[k].addr].next in hdr
    ensures Linked(LinkOut(hdr, blocks[k].addr), Without(blocks, k))
  {
    hide LinkedAt, LinkOut, Distinct;
    NeighboursLinked(hdr, blocks, k);
    forall i: nat | i < |Without(blocks, k)|
      ensures LinkedAt(LinkOut(hdr, blocks[k].addr), Without(blocks, k), i)
    {
      LinkOutAt(hdr, blocks, k, if i < k then i else i + 1);
    }
  }

  lemma EndAfterLinkOut(blocks: seq<Block>, k: nat)
    requires k < |blocks|
    ensures EndOf(Without(blocks, k)) == if k + 1 == |blocks| then LastOf(blocks, k) else EndOf(blocks)
  {
  }

  lemma LinkOutAt(hdr: map<nat, Header>, blocks: seq<Block>, k: nat, j: nat)
    requires Distinct(blocks) && k < |blocks| && j < |blocks| && j != k
    requires LinkedAt(hdr, blocks, k) && LinkedAt(hdr, blocks, j)
    requires k > 0 ==> LinkedAt(hdr, blocks, k - 1)
    requires k + 1 < |blocks| ==> LinkedAt(hdr, blocks, k + 1)
    ensures (hdr[blocks[k].addr].last != 0 ==> hdr[blocks[k].addr].last in hdr)
    ensures (hdr[blocks[k].addr].next != 0 ==> hdr[blocks[k].addr].next in hdr)
    ensures LinkedAt(LinkOut(hdr, blocks[k].addr), Without(blocks, k), if j < k then j else j - 1)
  {
    var r := Without(blocks, k);
    var i := if j < k then j else j - 1;
    assert r[i] == blocks[j];
    assert LastOf(r, i) == if j == k + 1 then LastOf(blocks, k) else LastOf(blocks, j);
    assert NextOf(r, i) == if j + 1 == k then NextOf(blocks, k) else NextOf(blocks, j);
    Apart(blocks, j, k - 1);
    Apart(blocks, j, k + 1);
    Apart(blocks, k - 1, k + 1);
  }

  lemma Apart(blocks: seq<Block>, j: int, k: int)
    requires Distinct(blocks)
    ensures 0 <= j < |blocks| && 0 <= k < |blocks| && j != k ==> blocks[j].addr != blocks[k].addr
  {
  }
}
