/** The top-down search for `count` consecutive unmapped slots that vmm_alloc_page and vmm_mmap_pde_page share
    (kernel/mm/vmm.c:39-45, 70-73 and 126-132, 160-163).

    Slot numbers are 32-bit and unsigned, so `p - i < 0` never holds; below slot 0 the subtraction wraps to an
    index outside the map, for which get_vmm_page answers NULL, the answer for an unmapped slot.  Fits states
    what the loop really tests, Within what it is meant to test, and the lemmas say when the two agree. */
module Search {
  import opened Page

  /** get_vmm_page(i) == NULL: not mapped, or not a slot at all. */
  ghost predicate Open(unmapped: set<nat>, slots: nat, i: word) {
    i >= slots || i in unmapped
  }

  /** The test of the inner loop at position p, wrapping subtraction included. */
  ghost predicate Fits(unmapped: set<nat>, slots: nat, p: word, count: nat) {
    forall i: word :: i < count ==> Open(unmapped, slots, Sub(p, i))
  }

  /** `count` slots ending in p, all of them real and unmapped. */
  ghost predicate Within(unmapped: set<nat>, p: word, count: nat) {
    count <= p + 1 && forall k: nat :: p + 1 - count <= k <= p ==> k in unmapped
  }

  /** The plain form of the search: try every position from p down to 1. */
  ghost function Highest(unmapped: set<nat>, slots: nat, p: word, count: nat): (r: word)
    ensures r <= p
    ensures r != 0 ==> Fits(unmapped, slots, r, count)
    ensures forall q: word :: r < q <= p ==> !Fits(unmapped, slots, q, count)
  {
    if p == 0 || Fits(unmapped, slots, p, count) then p else Highest(unmapped, slots, p - 1, count)
  }

  /** What the loop tests is what it is meant to test, unless every slot from p down to 0 is unmapped. */
  lemma FitsMeaning(unmapped: set<nat>, slots: nat, p: word, count: nat)
    requires p < slots <= GLOBL_PAGE_NUM && count <= 0x100000
    ensures Fits(unmapped, slots, p, count) <==>
            Within(unmapped, p, count) || (p + 1 < count && forall k: nat :: k <= p ==> k in unmapped)
  {
    if Fits(unmapped, slots, p, count) {
      forall k: nat | k <= p && p < k + count
        ensures k in unmapped
      {
        assert Open(unmapped, slots, Sub(p, p - k));
      }
    }
  }

  /** Meeting a mapped slot at p - i rules out every position from p down to p - i. */
  lemma SkipMissesNothing(unmapped: set<nat>, slots: nat, p: word, i: word, count: nat)
    requires p < slots <= GLOBL_PAGE_NUM && i < count <= 0x100000
    requires !Open(unmapped, slots, Sub(p, i))
    ensures i <= p
    ensures forall q: word :: p - i <= q <= p ==> !Fits(unmapped, slots, q, count)
  {
    forall q: word | p - i <= q <= p
      ensures !Fits(unmapped, slots, q, count)
    {
      assert Sub(q, q - (p - i)) == Sub(p, i);
    }
  }

  /** So the plain form loses nothing by skipping too. */
  lemma {:induction false} SkipHighest(unmapped: set<nat>, slots: nat, p: word, i: word, count: nat)
    requires i <= p
    requires forall q: word :: p - i <= q <= p ==> !Fits(unmapped, slots, q, count)
    ensures Highest(unmapped, slots, p, count) == if p - i == 0 then 0 else Highest(unmapped, slots, p - i - 1, count)
  {
    if i > 0 {
      SkipHighest(unmapped, slots, p - 1, i - 1, count);
    }
  }

  /** What the search of the source returns.  Stepping over slot 0 when it is the mapped slot met (`p -= i` gives 0,
      and the loop still decrements) lands on the last 32-bit number, which Fits anything. */
  ghost function Found(unmapped: set<nat>, slots: nat, pos: word, count: nat): word {
    var h := Highest(unmapped, slots, pos, count);
    if h == 0 && 1 in unmapped then 0xffff_ffff else h
  }

  /** The position found is usable: real slots only, and taking them does not push vmm_pos below 0. */
  ghost predicate Usable(p: word, pos: word, count: nat) {
    p == 0 || (p <= pos && count <= p + 1 && !(p == pos && p + 1 == count))
  }

  /** What a caller can look at before asking for `count` slots: a run above slot 0, or a run from slot 0 with room
      above it, or a mapped slot 1 to stop the scan. */
  ghost predicate Safe(unmapped: set<nat>, pos: word, count: nat) {
    || (exists p: word :: count <= p <= pos && Within(unmapped, p, count))
    || (1 <= count - 1 < pos && Within(unmapped, count - 1, count))
    || 1 !in unmapped
  }

  /** The search answers properly exactly on the safe requests.  The others (slot 1 unmapped, no run of the length
      asked for) are answered with a run that leaves the slots, or that takes vmm_pos below 0. */
  lemma SafeExactly(unmapped: set<nat>, slots: nat, pos: word, count: nat)
    requires pos < slots <= GLOBL_PAGE_NUM && 0 < count <= 0x100000
    requires forall k: nat :: k in unmapped ==> k <= pos
    ensures Safe(unmapped, pos, count) <==> Usable(Found(unmapped, slots, pos, count), pos, count)
  {
    if Safe(unmapped, pos, count) {
      SafeIsUsable(unmapped, slots, pos, count);
    } else {
      UnsafeIsNot(unmapped, slots, pos, count);
    }
  }

  /** One slot can always be asked for. */
  lemma SingleIsSafe(unmapped: set<nat>, pos: word)
    requires forall k: nat :: k in unmapped ==> k <= pos
    ensures Safe(unmapped, pos, 1)
  {
    assert 1 in unmapped ==> Within(unmapped, 1, 1);
  }

  lemma SafeIsUsable(unmapped: set<nat>, slots: nat, pos: word, count: nat)
    requires pos < slots <= GLOBL_PAGE_NUM && 0 < count <= 0x100000
    requires forall k: nat :: k in unmapped ==> k <= pos
    requires Safe(unmapped, pos, count)
    ensures Usable(Found(unmapped, slots, pos, count), pos, count)
  {
    var h := Highest(unmapped, slots, pos, count);
    FitsMeaning(unmapped, slots, h, count);
    if p: word :| count <= p <= pos && Within(unmapped, p, count) {
      FitsMeaning(unmapped, slots, p, count);
    } else if 1 <= count - 1 < pos && Within(unmapped, count - 1, count) {
      FitsMeaning(unmapped, slots, count - 1, count);
    }
  }

  lemma UnsafeIsNot(unmapped: set<nat>, slots: nat, pos: word, count: nat)
    requires pos < slots <= GLOBL_PAGE_NUM && 0 < count <= 0x100000
    requires forall k: nat :: k in unmapped ==> k <= pos
    requires !Safe(unmapped, pos, count)
    ensures !Usable(Found(unmapped, slots, pos, count), pos, count)
  {
    var h := Highest(unmapped, slots, pos, count);
    FitsMeaning(unmapped, slots, h, count);
    assert h != 0 && Within(unmapped, h, count) && h >= count ==> count <= h <= pos;
  }

  /** A request that is not safe: slot 0 mapped, slots 1 and 2 unmapped, three slots wanted. */
  lemma UnsafeExample(unmapped: set<nat>)
    requires unmapped == {1, 2}
    ensures !Safe(unmapped, 2, 3) && Found(unmapped, 0x10000, 2, 3) == 0xffff_ffff
  {
    assert 0 !in unmapped && 1 in unmapped;
    FitsMeaning(unmapped, 0x10000, 2, 3);
    FitsMeaning(unmapped, 0x10000, 1, 3);
    SkipHighest(unmapped, 0x10000, 2, 1, 3);
  }
}
