/** Directory entries and long names, kernel/fs/fat.c, on values. */
module LongNames {
  import opened Basics
  import opened Clusters

  type Entry = s: seq<byte> | |s| == 32 witness seq(32, _ => 0)

  /** A C char, which is signed. */
  type schar = x: int | -0x80 <= x < 0x80

  function Order(e: Entry): byte {
    e[0]
  }

  function Attribute(e: Entry): byte {
    e[11]
  }

  /** lfn_char: the thirteen 16-bit characters of a name entry lie in three groups. */
  function LfnChar(e: Entry, n: nat): nat {
    if n < 5 then Word16(e, 1 + 2 * n)
    else if n < 11 then Word16(e, 14 + 2 * (n - 5))
    else if n < 13 then Word16(e, 28 + 2 * (n - 11))
    else 0
  }

  predicate Deleted(e: Entry) {
    Order(e) == 0xe5
  }

  predicate IsLong(e: Entry) {
    !Deleted(e) && Attribute(e) == 0x0f
  }

  /** The flag of the entry that comes first, and holds the end of the name. */
  predicate IsLast(e: Entry) {
    Order(e) / 0x40 % 2 == 1
  }

  function Number(e: Entry): nat {
    Order(e) % 0x40
  }

  /** lfn_cmp is 0: the characters agree, and the name ends there or fills the entry. */
  ghost predicate Same(name: seq<schar>, e: Entry) {
    (forall k: nat {:trigger name[k]} :: k < |name| ==> name[k] == LfnChar(e, k)) && LfnChar(e, |name|) == 0
  }

  method LfnCmp(name: seq<schar>, e: Entry) returns (r: int)
    ensures r == 0 <==> Same(name, e)
  {
    for n := 0 to |name|
      invariant forall k: nat {:trigger name[k]} :: k < n ==> name[k] == LfnChar(e, k)
    {
      if name[n] != LfnChar(e, n) {
        return 1;
      }
    }
    return LfnChar(e, |name|);
  }

  /** lfn_count */
  function Parts(len: nat): nat {
    (len + 12) / 13
  }

  /** The characters entry i of a name has to hold; entries are numbered from 1. */
  function Part(name: seq<schar>, i: nat): seq<schar>
    requires 0 < i <= Parts(|name|)
  {
    name[(i - 1) * 13..Min(i * 13, |name|)]
  }

  /** The first entry of a set for this name. */
  ghost predicate Heads(e: Entry, name: seq<schar>)
    requires name != []
  {
    IsLong(e) && IsLast(e) && Number(e) == Parts(|name|) && Same(Part(name, Parts(|name|)), e)
  }

  /** The entry numbered i of it. */
  ghost predicate Continues(e: Entry, name: seq<schar>, i: nat)
    requires 0 < i <= Parts(|name|)
  {
    IsLong(e) && !IsLast(e) && Number(e) == i && Same(Part(name, i), e)
  }

  /** The short entry that ends a set. */
  predicate IsShort(e: Entry) {
    !Deleted(e) && Attribute(e) != 0x0f
  }

  /** The entry numbered i of a set of c that starts at n. */
  function Frag(at: nat -> Entry, n: nat, c: nat, i: nat): Entry
    requires i <= c
  {
    at(n + (c - i))
  }

  /** The upper attribute bits: 1 a directory, 2 an ordinary file. */
  function Kind(e: Entry): nat {
    Attribute(e) / 0x10
  }

  /** Does the listing show this entry?  In the root directory no upper attribute bit need be set. */
  predicate Listed(e: Entry, top: bool) {
    IsShort(e) && (Kind(e) == 1 || Kind(e) == 2 || (top && Kind(e) == 0))
  }

  /** The naive matcher: a whole set for this name starts at entry n. */
  ghost predicate Matches(at: nat -> Entry, name: seq<schar>, n: nat)
    requires name != []
  {
    var c := Parts(|name|);
    && Heads(at(n), name)
    && (forall i: nat {:trigger Frag(at, n, c, i)} :: 0 < i < c ==> Continues(Frag(at, n, c, i), name, i))
    && IsShort(at(n + c))
  }

  /** After a mismatch at the entry numbered i, none of the entries before it can start a set. */
  lemma SkipMissesNothing(at: nat -> Entry, name: seq<schar>, n: nat, i: nat, m: nat)
    requires name != [] && 0 < i < Parts(|name|) && n < m < n + Parts(|name|) - i
    requires forall j: nat {:trigger Frag(at, n, Parts(|name|), j)} :: i < j < Parts(|name|) ==>
               Continues(Frag(at, n, Parts(|name|), j), name, j)
    ensures !Matches(at, name, m)
  {
    var j := n + Parts(|name|) - m;
    assert Continues(Frag(at, n, Parts(|name|), j), name, j);
  }

  // Directories whose long names are well formed

  ghost predicate IsHead(e: Entry) {
    IsLong(e) && IsLast(e)
  }

  /** How many characters of a name the entry holds. */
  function Filled(e: Entry, k: nat): (n: nat)
    requires k <= 13
    ensures k <= n <= 13
    ensures forall j: nat :: k <= j < n ==> LfnChar(e, j) != 0
    ensures n < 13 ==> LfnChar(e, n) == 0
    decreases 13 - k
  {
    if k == 13 || LfnChar(e, k) == 0 then k else Filled(e, k + 1)
  }

  function NameLength(e: Entry): int {
    (Number(e) - 1) * 13 + Filled(e, 0)
  }

  /** Plain characters, as far as the entry is filled. */
  ghost predicate Plain(e: Entry, n: nat) {
    n <= 13 && forall j: nat {:trigger LfnChar(e, j)} :: j < n ==> 0 < LfnChar(e, j) < 0x80
  }

  /** A whole set of entries starts at n, for a name that fits the name field of file_t. */
  ghost predicate SetAt(at: nat -> Entry, count: nat, n: nat, top: bool) {
    var c := Number(at(n));
    && IsHead(at(n)) && 0 < c && n + c < count
    && 0 < Filled(at(n), 0) && NameLength(at(n)) < 256 && Plain(at(n), Filled(at(n), 0))
    && (forall i: nat {:trigger Frag(at, n, c, i)} :: 0 < i < c ==>
          && IsLong(Frag(at, n, c, i)) && !IsLast(Frag(at, n, c, i)) && Number(Frag(at, n, c, i)) == i
          && Plain(Frag(at, n, c, i), 13))
    && Listed(at(n + c), top)
  }

  ghost predicate WellFormed(at: nat -> Entry, count: nat, top: bool) {
    forall n: nat {:trigger at(n)} :: n < count && IsHead(at(n)) ==> SetAt(at, count, n, top)
  }

  /** Character p of the name whose set starts at n. */
  function NameChar(at: nat -> Entry, n: nat, p: nat): nat
    requires p / 13 < Number(at(n))
  {
    LfnChar(at(n + Number(at(n)) - 1 - p / 13), p % 13)
  }

  /** The name. */
  ghost predicate IsName(at: nat -> Entry, n: nat, name: seq<schar>) {
    && 0 < Number(at(n)) && |name| == NameLength(at(n))
    && forall p: nat {:trigger name[p]} :: p < |name| ==> p / 13 < Number(at(n)) && name[p] == NameChar(at, n, p)
  }

  lemma PartsOf(c: nat, f: nat)
    requires 0 < c && 0 < f <= 13
    ensures Parts((c - 1) * 13 + f) == c
  {
  }

  lemma {:induction false} FilledIs(e: Entry, k: nat, n: nat)
    requires k <= n <= 13 && LfnChar(e, n) == 0 && forall j: nat :: k <= j < n ==> LfnChar(e, j) != 0
    ensures Filled(e, k) == n
    decreases n - k
  {
    hide LfnChar;
    if k < n {
      FilledIs(e, k + 1, n);
    }
  }

  /** A C string has no 0 in it. */
  predicate NoZero(name: seq<schar>) {
    forall k: nat {:trigger name[k]} :: k < |name| ==> name[k] != 0
  }

  /** Part i, character by character. */
  lemma PartAt(name: seq<schar>, i: nat, k: nat)
    requires 0 < i <= Parts(|name|) && k < |Part(name, i)|
    ensures (i - 1) * 13 + k < |name| && Part(name, i)[k] == name[(i - 1) * 13 + k]
    ensures ((i - 1) * 13 + k) / 13 == i - 1 && ((i - 1) * 13 + k) % 13 == k
  {
  }

  lemma PartLength(name: seq<schar>, i: nat)
    requires 0 < i <= Parts(|name|)
    ensures |Part(name, i)| == if i < Parts(|name|) then 13 else |name| - (i - 1) * 13
    ensures 0 < |Part(name, i)| <= 13
  {
  }

  /** Part i of the name is what the set at n has there. */
  ghost predicate PartIsIn(at: nat -> Entry, n: nat, name: seq<schar>, i: nat)
    requires 0 < i <= Parts(|name|)
  {
    forall p: nat {:trigger name[p]} :: (i - 1) * 13 <= p < (i - 1) * 13 + |Part(name, i)| && p < |name| ==>
      p / 13 < Number(at(n)) && name[p] == NameChar(at, n, p)
  }

  /** One entry of the set against one part of the name. */
  lemma SamePart(at: nat -> Entry, n: nat, name: seq<schar>, i: nat)
    requires 0 < i <= Parts(|name|) == Number(at(n)) && LfnChar(Frag(at, n, Number(at(n)), i), |Part(name, i)|) == 0
    ensures Same(Part(name, i), Frag(at, n, Number(at(n)), i)) <==>
            PartIsIn(at, n, name, i)
  {
    hide LfnChar, Part;
    var e := Frag(at, n, Number(at(n)), i);
    var part := Part(name, i);
    PartLength(name, i);
    if Same(part, e) {
      forall p: nat | (i - 1) * 13 <= p < (i - 1) * 13 + |part| && p < |name|
        ensures p / 13 < Number(at(n)) && name[p] == NameChar(at, n, p)
      {
        PartAt(name, i, p - (i - 1) * 13);
      }
    }
    if PartIsIn(at, n, name, i) {
      forall k: nat | k < |part|
        ensures part[k] == LfnChar(e, k)
      {
        PartAt(name, i, k);
        assert name[(i - 1) * 13 + k] == NameChar(at, n, (i - 1) * 13 + k);
      }
    }
  }

  lemma WholeName(at: nat -> Entry, n: nat, name: seq<schar>)
    requires name != [] && Parts(|name|) == Number(at(n)) && |name| == NameLength(at(n))
    ensures IsName(at, n, name) <==> forall i: nat {:trigger PartIsIn(at, n, name, i)} :: 0 < i <= Parts(|name|) ==> PartIsIn(at, n, name, i)
  {
    hide Part, NameChar, LfnChar;
    if forall i: nat {:trigger PartIsIn(at, n, name, i)} :: 0 < i <= Parts(|name|) ==> PartIsIn(at, n, name, i) {
      forall p: nat | p < |name|
        ensures p / 13 < Number(at(n)) && name[p] == NameChar(at, n, p)
      {
        PartLength(name, p / 13 + 1);
        assert PartIsIn(at, n, name, p / 13 + 1);
      }
    }
  }

  /** A match names the set. */
  lemma MatchNames(at: nat -> Entry, count: nat, name: seq<schar>, n: nat, top: bool)
    requires SetAt(at, count, n, top) && name != [] && NoZero(name) && Matches(at, name, n)
    ensures IsName(at, n, name)
  {
    hide LfnChar, NameChar, Part;
    var c := Parts(|name|);
    var last := Part(name, c);
    PartLength(name, c);
    forall j: nat | j < |last|
      ensures LfnChar(at(n), j) != 0
    {
      PartAt(name, c, j);
    }
    FilledIs(at(n), 0, |last|);
    forall i: nat | 0 < i <= c
      ensures PartIsIn(at, n, name, i)
    {
      PartLength(name, i);
      if i < c {
        Thirteen(Frag(at, n, c, i));
      }
      SamePart(at, n, name, i);
    }
    WholeName(at, n, name);
  }

  lemma Thirteen(e: Entry)
    ensures LfnChar(e, 13) == 0
  {
  }

  /** The name of a set matches it. */
  lemma NameMatches(at: nat -> Entry, count: nat, name: seq<schar>, n: nat, top: bool)
    requires SetAt(at, count, n, top) && IsName(at, n, name)
    ensures name != [] && Matches(at, name, n)
  {
    hide LfnChar, NameChar, Part;
    var c := Number(at(n));
    PartsOf(c, Filled(at(n), 0));
    WholeName(at, n, name);
    PartLength(name, c);
    Thirteen(at(n));
    SamePart(at, n, name, c);
    assert PartIsIn(at, n, name, c);
    forall i: nat | 0 < i < c
      ensures Continues(Frag(at, n, c, i), name, i)
    {
      PartLength(name, i);
      Thirteen(Frag(at, n, c, i));
      SamePart(at, n, name, i);
      assert PartIsIn(at, n, name, i);
    }
  }

  /** In a well-formed directory, looking a name up is looking for the first set with that name. */
  lemma MatchIsName(at: nat -> Entry, count: nat, name: seq<schar>, n: nat, top: bool)
    requires WellFormed(at, count, top) && n < count && name != [] && NoZero(name)
    ensures Matches(at, name, n) <==> IsHead(at(n)) && IsName(at, n, name)
  {
    hide SetAt, IsName;
    if Matches(at, name, n) {
      MatchNames(at, count, name, n, top);
    }
    if IsHead(at(n)) && IsName(at, n, name) {
      NameMatches(at, count, name, n, top);
    }
  }

  /** The first entry of set number k (from 0), looking from n on; `count` when there are not that many. */
  ghost function Nth(at: nat -> Entry, count: nat, n: nat, k: nat): (r: nat)
    ensures r <= count || r == n
    ensures r < count ==> n <= r && IsHead(at(r))
    decreases count - n
  {
    if n >= count then count
    else if !IsHead(at(n)) then Nth(at, count, n + 1, k)
    else if k == 0 then n
    else Nth(at, count, n + 1, k - 1)
  }

  /** No set starts inside another one, so the listing may step over a whole set. */
  lemma {:induction false} StepOver(at: nat -> Entry, count: nat, n: nat, m: nat, k: nat)
    requires n < m <= count && forall j: nat {:trigger at(j)} :: n <= j < m ==> !IsHead(at(j))
    ensures Nth(at, count, n, k) == Nth(at, count, m, k)
    decreases m - n
  {
    if n + 1 < m {
      StepOver(at, count, n + 1, m, k);
    }
  }

  lemma NoHeadInside(at: nat -> Entry, count: nat, n: nat, j: nat, top: bool)
    requires SetAt(at, count, n, top) && n < j <= n + Number(at(n))
    ensures !IsHead(at(j))
  {
    if j < n + Number(at(n)) {
      assert at(j) == Frag(at, n, Number(at(n)), n + Number(at(n)) - j);
    }
  }

  lemma NthNext(at: nat -> Entry, count: nat, n: nat, k: nat)
    requires n < count
    ensures Nth(at, count, n, k) ==
            if !IsHead(at(n)) then Nth(at, count, n + 1, k) else if k == 0 then n else Nth(at, count, n + 1, k - 1)
  {
  }

  lemma NthEnd(at: nat -> Entry, count: nat, k: nat)
    ensures Nth(at, count, count, k) == count
  {
  }

  lemma AtHead(at: nat -> Entry, count: nat, n: nat, top: bool)
    requires WellFormed(at, count, top) && n < count && IsHead(at(n))
    ensures SetAt(at, count, n, top) && 0 < Number(at(n)) && n + Number(at(n)) < count
  {
  }

  lemma OverSet(at: nat -> Entry, count: nat, n: nat, k: nat, top: bool)
    requires SetAt(at, count, n, top)
    ensures n + Number(at(n)) < count
    ensures Nth(at, count, n + 1, k) == Nth(at, count, n + Number(at(n)) + 1, k)
  {
    hide IsHead;
    forall j: nat | n < j <= n + Number(at(n))
      ensures !IsHead(at(j))
    {
      NoHeadInside(at, count, n, j, top);
    }
    StepOver(at, count, n + 1, n + Number(at(n)) + 1, k);
  }

  /** In a well-formed set every character of the name is plain. */
  lemma NameIsPlain(at: nat -> Entry, count: nat, n: nat, p: nat, top: bool)
    requires SetAt(at, count, n, top) && p < NameLength(at(n))
    ensures p / 13 < Number(at(n)) && 0 < NameChar(at, n, p) < 0x80
  {
    hide LfnChar;
    var c := Number(at(n));
    if p / 13 < c - 1 {
      assert at(n + c - 1 - p / 13) == Frag(at, n, c, p / 13 + 1);
    }
  }

  // The name field of file_t

  /** A 16-bit character stored in a C char. */
  function ToChar(c: nat): schar {
    if c % 0x100 < 0x80 then c % 0x100 else c % 0x100 - 0x100
  }

  /** How many characters lfn_cpy copies: it stops behind the first that is stored as 0. */
  function Stored(e: Entry, k: nat): (n: nat)
    requires k <= 13
    ensures k <= n <= 13
    ensures forall j: nat {:trigger LfnChar(e, j)} :: k <= j < n ==> ToChar(LfnChar(e, j)) != 0
    ensures n < 13 ==> ToChar(LfnChar(e, n)) == 0
    decreases 13 - k
  {
    if k == 13 || ToChar(LfnChar(e, k)) == 0 then k else Stored(e, k + 1)
  }

  /** Where in the name field the characters of an entry go, and the places stored to. */
  function Place(e: Entry): int {
    (Number(e) - 1) * 13
  }

  predicate StoresAt(e: Entry, p: int) {
    Place(e) <= p < Place(e) + Min(13, Stored(e, 0) + 1)
  }

  /** The name field once an entry was copied to `at`. */
  function CopyInto(file: seq<schar>, at: nat, e: Entry): (r: seq<schar>)
    requires at + Min(13, Stored(e, 0) + 1) <= |file|
    ensures |r| == |file|
    ensures forall j: nat {:trigger r[j]} :: j < |file| ==>
              r[j] == if StoresFrom(at, e, j) then ToChar(LfnChar(e, j - at)) else file[j]
  {
    seq(|file|, j requires 0 <= j < |file| => if StoresFrom(at, e, j) then ToChar(LfnChar(e, j - at)) else file[j])
  }

  predicate StoresFrom(at: nat, e: Entry, j: nat) {
    at <= j < at + Min(13, Stored(e, 0) + 1)
  }

  /** lfn_cpy */
  method LfnCpy(file: array<schar>, at: nat, e: Entry) returns (n: nat)
    requires at + Min(13, Stored(e, 0) + 1) <= file.Length
    modifies file
    ensures n == Stored(e, 0) && file[..] == CopyInto(old(file[..]), at, e)
  {
    hide LfnChar, ToChar;
    ghost var was := file[..];
    n := 0;
    while n < 13
      invariant n <= Stored(e, 0)
      invariant forall j: nat {:trigger file[j]} :: j < file.Length ==>
                  file[j] == if at <= j < at + n then ToChar(LfnChar(e, j - at)) else was[j]
    {
      file[at + n] := ToChar(LfnChar(e, n));
      if file[at + n] == 0 {
        return;
      }
      n := n + 1;
    }
  }

  /** The listing takes entry n + t for another part of the name whose set starts at n. */
  predicate GoesOn(e: Entry) {
    IsLong(e) && !IsLast(e)
  }

  /** Entry number j behind entry n. */
  function Behind(at: nat -> Entry, n: nat, j: nat): Entry {
    at(n + j)
  }

  /** How many entries the listing takes after the first: it counts down from the number in the first, as an unsigned
      number, until an entry does not go on. */
  ghost function PartsRead(at: nat -> Entry, n: nat, t: nat, limit: nat): (r: nat)
    ensures t <= r && (r <= limit || r == t)
    ensures forall j: nat {:trigger Behind(at, n, j)} :: t < j <= r ==> GoesOn(Behind(at, n, j))
    ensures r < limit ==> !GoesOn(Behind(at, n, r + 1))
    decreases limit - t
  {
    if t < limit && GoesOn(Behind(at, n, t + 1)) then PartsRead(at, n, t + 1, limit) else t
  }

  function Limit(e: Entry): nat {
    if Number(e) == 0 then 0xffff_ffff else Number(e) - 1
  }

  /** Every place the listing stores to, for the set whose first entry is n. */
  ghost predicate StoredTo(at: nat -> Entry, n: nat, p: int) {
    exists j: nat {:trigger Behind(at, n, j)} :: j <= PartsRead(at, n, 0, Limit(at(n))) && StoresAt(Behind(at, n, j), p)
  }

  /** The stores of an entry stay in the 256 characters of the name field. */
  predicate Fits(e: Entry) {
    0 < Number(e) && Place(e) + Min(13, Stored(e, 0) + 1) <= 256
  }

  ghost predicate SetFits(at: nat -> Entry, n: nat) {
    forall j: nat {:trigger Behind(at, n, j)} :: j <= PartsRead(at, n, 0, Limit(at(n))) ==> Fits(Behind(at, n, j))
  }

  /** The listing of a set stays in the name field exactly when every entry it takes has a number from 1 on, and room for
      its characters and their terminator. */
  lemma StaysInside(at: nat -> Entry, n: nat)
    ensures SetFits(at, n) <==> forall p: int :: StoredTo(at, n, p) ==> 0 <= p < 256
  {
    hide PartsRead, Stored, Number;
    if forall p: int :: StoredTo(at, n, p) ==> 0 <= p < 256 {
      forall j: nat | j <= PartsRead(at, n, 0, Limit(at(n)))
        ensures Fits(Behind(at, n, j))
      {
        EntryFits(at, n, j);
      }
    }
  }

  lemma EntryFits(at: nat -> Entry, n: nat, j: nat)
    requires j <= PartsRead(at, n, 0, Limit(at(n))) && forall p: int :: StoredTo(at, n, p) ==> 0 <= p < 256
    ensures Fits(Behind(at, n, j))
  {
    hide PartsRead, Stored, Behind, Limit, Number;
    var e := Behind(at, n, j);
    assert StoresAt(e, Place(e)) && StoredTo(at, n, Place(e));
    var last := Place(e) + Min(13, Stored(e, 0) + 1) - 1;
    assert StoresAt(e, last) && StoredTo(at, n, last);
  }

  /** An entry that does not: order 0x7f, numbered 0x3f, puts its first character 806 places from the start. */
  lemma OutsideExample(at: nat -> Entry, n: nat)
    requires Order(at(n)) == 0x7f && Attribute(at(n)) == 0x0f
    ensures IsHead(at(n)) && StoredTo(at, n, 806) && !SetFits(at, n)
  {
    hide LfnChar, ToChar;
    assert Behind(at, n, 0) == at(n) && StoresAt(Behind(at, n, 0), 806);
  }

  /** The name field once the first t entries behind n, and n itself, were copied. */
  ghost function Gather(file: seq<schar>, at: nat -> Entry, n: nat, t: nat): (r: seq<schar>)
    requires |file| == 256 && forall j: nat {:trigger Behind(at, n, j)} :: j <= t ==> Fits(Behind(at, n, j))
    ensures |r| == 256
  {
    var e := Behind(at, n, t);
    assert Fits(e);
    CopyInto(if t == 0 then file else Gather(file, at, n, t - 1), Place(e), e)
  }

  /** Does the listing get through the whole set at n, to an entry it shows? */
  ghost predicate Complete(at: nat -> Entry, n: nat, top: bool) {
    PartsRead(at, n, 0, Limit(at(n))) == Limit(at(n)) && Listed(at(n + Number(at(n))), top)
  }

  /** The set shown as number k from n on: sets before are stepped over by their number, incomplete ones are not
      counted once it has come to number 0; `count` when there is none. */
  ghost function Listing(at: nat -> Entry, count: nat, top: bool, n: nat, k: nat): (r: nat)
    ensures r <= count && (r < count ==> n <= r && IsHead(at(r)) && Complete(at, r, top))
    decreases count - n
  {
    if n >= count then count
    else if !IsHead(at(n)) then Listing(at, count, top, n + 1, k)
    else if k > 0 then Listing(at, count, top, n + Number(at(n)) + 1, k - 1)
    else if Complete(at, n, top) then n
    else Listing(at, count, top, n + 1, 0)
  }

  /** The name shown for the set at n: what is gathered over some earlier contents of the field. */
  ghost predicate Shows(at: nat -> Entry, n: nat, name: seq<schar>)
    requires SetFits(at, n)
  {
    && |name| == Place(at(n)) + Stored(at(n), 0) <= 256
    && exists file: seq<schar> {:trigger Gather(file, at, n, PartsRead(at, n, 0, Limit(at(n))))} ::
         |file| == 256 && name == Gather(file, at, n, PartsRead(at, n, 0, Limit(at(n))))[..|name|]
  }

  /** What the listing shows as number k. */
  ghost predicate Lists(at: nat -> Entry, count: nat, top: bool, k: nat, name: seq<schar>, dir: bool) {
    var n := Listing(at, count, top, 0, k);
    if n < count then SetFits(at, n) && Shows(at, n, name) && (dir <==> at(n + Number(at(n)))[11] / 0x10 == 1) else name == []
  }

  // In a well-formed directory

  lemma {:induction false} StoredIs(e: Entry, k: nat, n: nat)
    requires k <= n <= 13 && forall j: nat {:trigger LfnChar(e, j)} :: k <= j < n ==> ToChar(LfnChar(e, j)) != 0
    requires n < 13 ==> ToChar(LfnChar(e, n)) == 0
    ensures Stored(e, k) == n
    decreases n - k
  {
    hide LfnChar, ToChar;
    if k < n {
      StoredIs(e, k + 1, n);
    }
  }

  lemma PlainChar(c: nat)
    ensures c < 0x80 ==> ToChar(c) == c
  {
  }

  /** Plain characters are stored as they are. */
  lemma StoredPlain(e: Entry)
    requires Plain(e, Filled(e, 0))
    ensures Stored(e, 0) == Filled(e, 0)
    ensures forall j: nat {:trigger LfnChar(e, j)} :: j < Filled(e, 0) ==> ToChar(LfnChar(e, j)) == LfnChar(e, j)
  {
    hide LfnChar, ToChar;
    forall j: nat | j < Filled(e, 0)
      ensures ToChar(LfnChar(e, j)) == LfnChar(e, j) != 0
    {
      PlainChar(LfnChar(e, j));
    }
    PlainChar(0);
    hide Filled, Stored;
    StoredIs(e, 0, Filled(e, 0));
  }

  lemma PlainFilled(e: Entry)
    requires Plain(e, 13)
    ensures Filled(e, 0) == 13
  {
    FilledIs(e, 0, 13);
  }

  lemma FragBehind(at: nat -> Entry, count: nat, n: nat, j: nat, top: bool)
    requires SetAt(at, count, n, top) && 0 < j < Number(at(n))
    ensures var e := Behind(at, n, j);
            GoesOn(e) && Number(e) == Number(at(n)) - j && Plain(e, 13) && Filled(e, 0) == 13 && Stored(e, 0) == 13
  {
    hide LfnChar, Filled;
    assert Behind(at, n, j) == Frag(at, n, Number(at(n)), Number(at(n)) - j);
    PlainFilled(Behind(at, n, j));
    StoredPlain(Behind(at, n, j));
  }

  lemma {:induction false} AllGoOn(at: nat -> Entry, count: nat, n: nat, t: nat, top: bool)
    requires SetAt(at, count, n, top) && t < Number(at(n))
    ensures PartsRead(at, n, t, Number(at(n)) - 1) == Number(at(n)) - 1
    decreases Number(at(n)) - t
  {
    hide SetAt, LfnChar;
    if t + 1 < Number(at(n)) {
      FragBehind(at, count, n, t + 1, top);
      AllGoOn(at, count, n, t + 1, top);
    }
  }

  /** A well-formed set is complete and stays in the name field. */
  lemma SetIsFit(at: nat -> Entry, count: nat, n: nat, top: bool)
    requires SetAt(at, count, n, top)
    ensures SetFits(at, n) && Complete(at, n, top) && Limit(at(n)) == Number(at(n)) - 1
  {
    hide LfnChar, Filled, PartsRead;
    AllGoOn(at, count, n, 0, top);
    StoredPlain(at(n));
    forall j: nat | j <= Number(at(n)) - 1
      ensures Fits(Behind(at, n, j))
    {
      if j > 0 {
        FragBehind(at, count, n, j, top);
      }
    }
  }

  /** The characters of the name at n from `from` on are in place. */
  ghost predicate InPlace(file: seq<schar>, at: nat -> Entry, n: nat, from: int) {
    && NameLength(at(n)) <= |file|
    && forall p: nat {:trigger file[p]} :: from <= p < NameLength(at(n)) ==> p / 13 < Number(at(n)) && file[p] == NameChar(at, n, p)
  }

  lemma {:induction false} GatherName(file: seq<schar>, at: nat -> Entry, count: nat, n: nat, t: nat, top: bool)
    requires SetAt(at, count, n, top) && t < Number(at(n)) && |file| == 256
    requires forall j: nat {:trigger Behind(at, n, j)} :: j <= t ==> Fits(Behind(at, n, j))
    ensures InPlace(Gather(file, at, n, t), at, n, (Number(at(n)) - 1 - t) * 13)
  {
    hide SetAt, LfnChar, ToChar, Fits, Filled, CopyInto;
    if t == 0 {
      assert Fits(Behind(at, n, 0)) && Behind(at, n, 0) == at(n);
      FirstInPlace(file, at, count, n, top);
    } else {
      GatherName(file, at, count, n, t - 1, top);
      NextInPlace(Gather(file, at, n, t - 1), at, count, n, t, top);
    }
  }

  lemma FirstInPlace(file: seq<schar>, at: nat -> Entry, count: nat, n: nat, top: bool)
    requires SetAt(at, count, n, top) && Fits(at(n)) && |file| == 256
    ensures InPlace(CopyInto(file, Place(at(n)), at(n)), at, n, (Number(at(n)) - 1) * 13)
  {
    hide LfnChar, ToChar, Plain, Stored;
    StoredPlain(at(n));
    hide Filled;
    var now, place := CopyInto(file, Place(at(n)), at(n)), Place(at(n));
    forall p: nat | place <= p < NameLength(at(n))
      ensures p / 13 < Number(at(n)) && now[p] == NameChar(at, n, p)
    {
      assert p / 13 == Number(at(n)) - 1 && p % 13 == p - place;
      assert StoresFrom(place, at(n), p);
    }
  }

  lemma NextInPlace(file: seq<schar>, at: nat -> Entry, count: nat, n: nat, t: nat, top: bool)
    requires SetAt(at, count, n, top) && 0 < t < Number(at(n)) && Fits(Behind(at, n, t)) && |file| == 256
    requires InPlace(file, at, n, (Number(at(n)) - t) * 13)
    ensures InPlace(CopyInto(file, Place(Behind(at, n, t)), Behind(at, n, t)), at, n, (Number(at(n)) - 1 - t) * 13)
  {
    FragBehind(at, count, n, t, top);
    hide LfnChar, SetAt, Filled;
    var e := Behind(at, n, t);
    StoredPlain(e);
    hide ToChar, Plain;
    var now, place := CopyInto(file, Place(e), e), Place(e);
    forall p: nat | place <= p < NameLength(at(n))
      ensures p / 13 < Number(at(n)) && now[p] == NameChar(at, n, p)
    {
      if p < place + 13 {
        assert p / 13 == Number(at(n)) - 1 - t && p % 13 == p - place;
        assert StoresFrom(place, e, p);
      } else {
        assert !StoresFrom(place, e, p) && now[p] == file[p];
      }
    }
  }

  /** What the listing shows of a well-formed set is its name. */
  lemma ShowsName(at: nat -> Entry, count: nat, n: nat, name: seq<schar>, top: bool)
    requires SetAt(at, count, n, top) && SetFits(at, n) && Shows(at, n, name)
    ensures name != [] && NoZero(name) && IsName(at, n, name)
  {
    SetIsFit(at, count, n, top);
    StoredPlain(at(n));
    hide LfnChar, ToChar, Filled, SetFits, SetAt, PartsRead, NameChar;
    var t := PartsRead(at, n, 0, Limit(at(n)));
    var file: seq<schar> :| |file| == 256 && name == Gather(file, at, n, t)[..|name|];
    GatherName(file, at, count, n, t, top);
    hide Gather;
    forall p: nat | p < |name|
      ensures p / 13 < Number(at(n)) && name[p] == NameChar(at, n, p) && name[p] != 0
    {
      assert name[p] == Gather(file, at, n, t)[p];
      NameIsPlain(at, count, n, p, top);
    }
  }

  /** In a well-formed directory the listing counts the sets. */
  lemma {:induction false} ListingIsNth(at: nat -> Entry, count: nat, top: bool, n: nat, k: nat)
    requires WellFormed(at, count, top)
    ensures Listing(at, count, top, n, k) == if n >= count then count else Nth(at, count, n, k)
    decreases count - n
  {
    hide SetAt, LfnChar, Complete, IsHead, WellFormed;
    if n < count {
      NthNext(at, count, n, k);
      if !IsHead(at(n)) {
        ListingIsNth(at, count, top, n + 1, k);
      } else {
        AtHead(at, count, n, top);
        SetIsFit(at, count, n, top);
        if k > 0 {
          OverSet(at, count, n, k - 1, top);
          ListingIsNth(at, count, top, n + Number(at(n)) + 1, k - 1);
        }
      }
    }
    NthEnd(at, count, k);
  }
}
