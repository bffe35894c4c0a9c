/** Names as they are stored: the entries a name is written to, byte by byte, and what kernel/fs/fat.c makes of them. */
module NameSets {
  import opened Basics
  import opened Clusters
  import opened LongNames

  /** Where in an entry its thirteen characters are. */
  const PLACES: seq<nat> := [1, 3, 5, 7, 9, 14, 16, 18, 20, 22, 24, 28, 30]

  /** A name of plain characters with at most 63 entries. */
  ghost predicate CanStore(name: seq<schar>) {
    0 < |name| <= 63 * 13 && forall p: nat {:trigger name[p]} :: p < |name| ==> name[p] > 0
  }

  /** Behind the name stand a 0 and then bits that are all set. */
  function Code(name: seq<schar>, p: nat): nat
    requires p < |name| ==> name[p] > 0
  {
    if p < |name| then name[p] else if p == |name| then 0 else 0xffff
  }

  /** Entry number i of the c the name takes. */
  ghost predicate Stores(e: Entry, name: seq<schar>, i: nat, c: nat)
    requires CanStore(name) && i > 0
  {
    && e[0] == (if i == c then 0x40 else 0) + i && e[11] == 0x0f
    && forall k: nat {:trigger PLACES[k]} :: k < 13 ==>
         (e[PLACES[k]] as int) + (e[PLACES[k] + 1] as int) * 0x100 == Code(name, (i - 1) * 13 + k)
  }

  /** The entries from n on store the name, the last part first; behind them stands an entry that is not deleted. */
  ghost predicate SetStored(at: nat -> Entry, n: nat, name: seq<schar>)
    requires CanStore(name)
  {
    var c := (|name| + 12) / 13;
    && (forall i: nat {:trigger Frag(at, n, c, i)} :: 0 < i <= c ==> Stores(Frag(at, n, c, i), name, i, c))
    && at(n + c)[0] != 0xe5 && at(n + c)[11] != 0x0f
  }

  lemma Chars(e: Entry, name: seq<schar>, i: nat, c: nat, k: nat)
    requires CanStore(name) && i > 0 && Stores(e, name, i, c) && k < 13
    ensures LfnChar(e, k) == Code(name, (i - 1) * 13 + k)
  {
    assert PLACES[k] == if k < 5 then 1 + 2 * k else if k < 11 then 14 + 2 * (k - 5) else 28 + 2 * (k - 11);
  }

  lemma Marks(e: Entry, name: seq<schar>, i: nat, c: nat)
    requires CanStore(name) && 0 < i <= c <= 63 && Stores(e, name, i, c)
    ensures IsLong(e) && (IsLast(e) <==> i == c) && Number(e) == i
  {
  }

  lemma PartStored(e: Entry, name: seq<schar>, i: nat)
    requires CanStore(name) && 0 < i <= Parts(|name|) && Stores(e, name, i, Parts(|name|))
    ensures Same(Part(name, i), e)
  {
    hide LfnChar, Stores, Part;
    PartLength(name, i);
    forall k: nat | k < |Part(name, i)|
      ensures Part(name, i)[k] == LfnChar(e, k)
    {
      PartAt(name, i, k);
      Chars(e, name, i, Parts(|name|), k);
    }
    if |Part(name, i)| < 13 {
      Chars(e, name, i, Parts(|name|), |Part(name, i)|);
    } else {
      Thirteen(e);
    }
  }

  /** A stored name is found ... */
  lemma StoredMatches(at: nat -> Entry, n: nat, name: seq<schar>)
    requires CanStore(name) && SetStored(at, n, name)
    ensures Matches(at, name, n)
  {
    hide Stores, Same, Part;
    var c := Parts(|name|);
    assert c <= 63;
    assert at(n) == Frag(at, n, c, c);
    forall i: nat | 0 < i <= c
      ensures Same(Part(name, i), Frag(at, n, c, i))
      ensures IsLong(Frag(at, n, c, i)) && (IsLast(Frag(at, n, c, i)) <==> i == c) && Number(Frag(at, n, c, i)) == i
    {
      Marks(Frag(at, n, c, i), name, i, c);
      PartStored(Frag(at, n, c, i), name, i);
    }
  }

  lemma NoZeroIn(e: Entry, p: seq<schar>)
    requires Same(p, e) && NoZero(p)
    ensures forall k: nat {:trigger LfnChar(e, k)} :: k < |p| ==> LfnChar(e, k) != 0
  {
    assert forall k: nat {:trigger LfnChar(e, k)} :: k < |p| ==> p[k] == LfnChar(e, k);
  }

  /** Two parts that one entry agrees with are the same. */
  lemma SameOnce(e: Entry, p: seq<schar>, q: seq<schar>)
    requires Same(p, e) && Same(q, e) && NoZero(p) && NoZero(q)
    ensures p == q
  {
    hide LfnChar;
    NoZeroIn(e, p);
    NoZeroIn(e, q);
  }

  lemma NoZeroPart(name: seq<schar>, i: nat)
    requires NoZero(name) && 0 < i <= Parts(|name|)
    ensures NoZero(Part(name, i))
  {
    hide Part;
    forall k: nat | k < |Part(name, i)|
      ensures Part(name, i)[k] != 0
    {
      PartAt(name, i, k);
    }
  }

  /** ... and under no other name. */
  lemma MatchesOnce(at: nat -> Entry, n: nat, name: seq<schar>, other: seq<schar>)
    requires name != [] && other != [] && NoZero(name) && NoZero(other)
    requires Matches(at, name, n) && Matches(at, other, n)
    ensures name == other
  {
    hide Part, Same;
    var c := Parts(|name|);
    assert Parts(|other|) == c;
    forall i: nat | 0 < i <= c
      ensures Part(name, i) == Part(other, i)
    {
      NoZeroPart(name, i);
      NoZeroPart(other, i);
      assert i < c ==> Continues(Frag(at, n, c, i), name, i) && Continues(Frag(at, n, c, i), other, i);
      SameOnce(if i == c then at(n) else Frag(at, n, c, i), Part(name, i), Part(other, i));
    }
    PartLength(name, c);
    PartLength(other, c);
    forall p: nat | p < |name|
      ensures name[p] == other[p]
    {
      PartLength(name, p / 13 + 1);
      PartAt(name, p / 13 + 1, p % 13);
      PartAt(other, p / 13 + 1, p % 13);
    }
  }

  /** Where a name is stored, a lookup finds that name and no other. */
  lemma FoundExactly(at: nat -> Entry, n: nat, name: seq<schar>, other: seq<schar>)
    requires CanStore(name) && SetStored(at, n, name) && other != [] && NoZero(other)
    ensures Matches(at, other, n) <==> other == name
  {
    hide SetStored, Matches;
    StoredMatches(at, n, name);
    if Matches(at, other, n) {
      MatchesOnce(at, n, name, other);
    }
  }

  lemma PlainPart(e: Entry, name: seq<schar>, i: nat)
    requires CanStore(name) && 0 < i <= Parts(|name|) && Stores(e, name, i, Parts(|name|))
    ensures Plain(e, |Part(name, i)|) && Filled(e, 0) == |Part(name, i)|
  {
    hide LfnChar, Stores, Part, Filled;
    PartLength(name, i);
    forall j: nat | j < |Part(name, i)|
      ensures 0 < LfnChar(e, j) < 0x80
    {
      Chars(e, name, i, Parts(|name|), j);
    }
    if |Part(name, i)| < 13 {
      Chars(e, name, i, Parts(|name|), |Part(name, i)|);
    } else {
      Thirteen(e);
    }
    FilledIs(e, 0, |Part(name, i)|);
  }

  /** A stored name of fewer than 256 characters, with an entry of a directory (0x10) or file (0x20) behind it, is a set
      with that name; in the root directory neither bit need be set. */
  lemma StoredIsSet(at: nat -> Entry, count: nat, n: nat, name: seq<schar>, top: bool)
    requires CanStore(name) && SetStored(at, n, name) && |name| < 256 && n + (|name| + 12) / 13 < count
    requires var kind := at(n + (|name| + 12) / 13)[11] / 0x10; kind == 1 || kind == 2 || (top && kind == 0)
    ensures SetAt(at, count, n, top) && IsName(at, n, name)
  {
    hide Stores, Part, Plain, LfnChar, Matches, IsName;
    var c := Parts(|name|);
    assert at(n) == Frag(at, n, c, c);
    forall i: nat | 0 < i <= c
      ensures Plain(Frag(at, n, c, i), |Part(name, i)|) && Filled(Frag(at, n, c, i), 0) == |Part(name, i)|
      ensures |Part(name, i)| == if i < c then 13 else |name| - (c - 1) * 13
      ensures IsLong(Frag(at, n, c, i)) && (IsLast(Frag(at, n, c, i)) <==> i == c) && Number(Frag(at, n, c, i)) == i
    {
      PlainPart(Frag(at, n, c, i), name, i);
      PartLength(name, i);
      Marks(Frag(at, n, c, i), name, i, c);
    }
    StoredMatches(at, n, name);
    MatchNames(at, count, name, n, top);
  }
}
