/** Looking names up and listing directories, kernel/fs/fat.c. */
module Fat {
  import opened Basics
  import opened Clusters
  import opened LongNames

  /** Entries divide clusters: entry n lies in one cluster. */
  lemma Aligned(size: nat, n: nat) returns (q: nat)
    requires size > 0 && size % 32 == 0
    ensures Top(size, q) <= 32 * n && 32 * n + 32 <= Top(size, q) + size
  {
    var m := size / 32;
    assert size == 32 * m;
    q := n / m;
    assert n == q * m + n % m;
    assert q * size == 32 * (q * m);
  }

  /** What a directory is read from: the fixed root directory of a FAT16 volume, or a cluster chain; and what the local
      of the reader holds when an entry cannot be read. */
  datatype Source = Source(v: Volume, root: bool, cl: seq<nat>, stale: nat -> Entry) {
    ghost predicate Valid() {
      v.sound && (!root ==> IsChain(v, cl) && v.clusterSize % 32 == 0)
    }

    /** The bytes the entries lie in. */
    ghost function Bytes(): seq<byte> {
      if root then (if v.root <= |v.disk| then v.disk[v.root..] else []) else if Valid() then Content(v, cl) else []
    }

    /** The entry read as number n: its place is a product of 32 bits. */
    ghost function At(n: nat): Entry {
      var at := 32 * n % 0x1_0000_0000;
      if at + 32 <= |Bytes()| then Bytes()[at..at + 32] else stale(n)
    }

    /** How many entries are scanned: so is the length of the directory. */
    ghost function Count(): nat {
      if root then v.rootCount else |Bytes()| % 0x1_0000_0000 / 32
    }
  }

  lemma WholeEntries(size: nat, n: nat)
    requires size % 32 == 0
    ensures Top(size, n) % 32 == 0
  {
    assert size == 32 * (size / 32);
    assert Top(size, n) == 32 * (n * (size / 32));
  }

  lemma CountOf(len: nat, n: nat)
    requires len % 32 == 0
    ensures 32 * (len % 0x1_0000_0000 / 32) == len <==> len < 0x1_0000_0000
    ensures n < len % 0x1_0000_0000 / 32 ==> 32 * n + 32 <= len && 32 * n % 0x1_0000_0000 == 32 * n
  {
  }

  /** The entries scanned are the entries of the directory, in order; and they are all of them exactly when the directory
      is smaller than 4 GiB. */
  lemma ScansAll(s: Source, n: nat)
    requires s.Valid() && !s.root
    ensures n < s.Count() ==> 32 * n + 32 <= |Content(s.v, s.cl)| && s.At(n) == Content(s.v, s.cl)[32 * n..32 * n + 32]
    ensures 32 * s.Count() == |Content(s.v, s.cl)| <==> |Content(s.v, s.cl)| < 0x1_0000_0000
  {
    hide Content, Top, IsChain;
    WholeEntries(s.v.clusterSize, |s.cl|);
    CountOf(Top(s.v.clusterSize, |s.cl|), n);
  }

  /** In a root directory of fixed size, they are as many as the volume says, 32 bytes each from its first byte on. */
  lemma ScansRoot(s: Source, n: nat)
    requires s.Valid() && s.root && n < 0x800_0000
    ensures n < s.Count() <==> n < s.v.rootCount
    ensures s.v.root + 32 * n + 32 <= |s.v.disk| ==> s.At(n) == s.v.disk[s.v.root + 32 * n..s.v.root + 32 * n + 32]
    ensures s.v.root + 32 * n + 32 > |s.v.disk| ==> s.At(n) == s.stale(n)
  {
    assert 32 * n % 0x1_0000_0000 == 32 * n;
    if s.v.root + 32 * n + 32 <= |s.v.disk| {
      assert s.v.disk[s.v.root..][32 * n..32 * n + 32] == s.v.disk[s.v.root + 32 * n..s.v.root + 32 * n + 32];
    }
  }

  /** A whole set for the name starts at n, and nowhere before. */
  ghost predicate First(s: Source, name: seq<schar>, n: nat)
    requires name != []
  {
    Matches(s.At, name, n) && forall m: nat {:trigger Matches(s.At, name, m)} :: m < n ==> !Matches(s.At, name, m)
  }

  /** e is the short entry of the first set for the name; marked deleted exactly when there is none. */
  ghost predicate Finds(s: Source, name: seq<schar>, e: Entry)
    requires name != []
  {
    if exists n: nat {:trigger Matches(s.At, name, n)} :: n < s.Count() && Matches(s.At, name, n) then
      !Deleted(e) && exists n: nat {:trigger First(s, name, n)} :: n < s.Count() && First(s, name, n) && e == s.At(n + Parts(|name|))
    else
      Deleted(e)
  }

  /** e is the short entry of the first set, up to n, that has this name. */
  ghost predicate FirstNamed(s: Source, name: seq<schar>, n: nat, e: Entry) {
    exists m: nat {:trigger s.At(m)} ::
      && m <= n && IsHead(s.At(m)) && IsName(s.At, m, name) && e == s.At(m + Number(s.At(m)))
      && forall j: nat {:trigger s.At(j)} :: j < m ==> !(IsHead(s.At(j)) && IsName(s.At, j, name))
  }

  /** A directory to scan. */
  class Directory {
    const v: Volume
    const root: bool
    const cluster: nat
    const count: nat
    const stale: nat -> Entry
    ghost const src: Source

    ghost predicate Valid() {
      && src.Valid() && src.v == v && src.root == root && src.stale == stale && count == src.Count()
      && (!root ==> src.cl[0] == cluster)
    }

    constructor Root(v: Volume, stale: nat -> Entry)
      requires v.sound
      ensures Valid() && src == Source(v, true, [], stale)
    {
      this.v, root, cluster, count, this.stale, src := v, true, 0, v.rootCount, stale, Source(v, true, [], stale);
    }

    constructor Chain(v: Volume, cluster: nat, stale: nat -> Entry, ghost cl: seq<nat>)
      requires v.sound && IsChain(v, cl) && cl[0] == cluster && v.clusterSize % 32 == 0
      ensures Valid() && src == Source(v, false, cl, stale)
    {
      hide Top, Content, Next, Whole;
      ChainLength(v, cl);
      var n := DirCluster(v, cluster);
      this.v, root, this.cluster, count, this.stale := v, false, cluster, Top(v.clusterSize, n) % 0x1_0000_0000 / 32, stale;
      src := Source(v, false, cl, stale);
    }

    /** read_root_dir_entry and read_dir_entry */
    method Read(n: nat) returns (e: Entry)
      requires Valid()
      ensures e == src.At(n)
    {
      var buf := new byte[32](i requires 0 <= i < 32 => stale(n)[i]);
      assert buf[..] == stale(n);
      if root {
        ReadRoot(n, buf);
      } else {
        ReadChain(n, buf);
      }
      e := buf[..];
    }

    method ReadRoot(n: nat, buf: array<byte>)
      requires Valid() && root && buf.Length == 32 && buf[..] == stale(n)
      modifies buf
      ensures buf[..] == src.At(n)
    {
      AtRoot(n);
      hide Source.At, Source.Bytes;
      if v.root + 32 * n % 0x1_0000_0000 + 32 <= |v.disk| {
        var i := DiskRead(v, buf, 0, 32, v.root + 32 * n % 0x1_0000_0000);
      }
    }

    lemma AtRoot(n: nat)
      requires Valid() && root
      ensures var at := v.root + 32 * n % 0x1_0000_0000;
              src.At(n) == if at + 32 <= |v.disk| then v.disk[at..at + 32] else stale(n)
    {
    }

    method ReadChain(n: nat, buf: array<byte>)
      requires Valid() && !root && buf.Length == 32 && buf[..] == stale(n)
      modifies buf
      ensures buf[..] == src.At(n)
    {
      hide Content, Top, Next, Placed, Source.At, Source.Bytes, Whole;
      AtChain(n);
      var at := 32 * n % 0x1_0000_0000;
      ghost var q := Aligned(v.clusterSize, n % 0x800_0000);
      ghost var base := Top(v.clusterSize, q);
      Position(v.clusterSize, 0, q, |src.cl|);
      var r := ReadCluster(v, buf, cluster, 32, at, src.cl, q, base);
      if q < |src.cl| {
        Whole32(buf[..], stale(n), Content(v, src.cl), base, v.clusterSize, at);
      }
    }

    lemma AtChain(n: nat)
      requires Valid() && !root
      ensures var data, at := Content(v, src.cl), 32 * n % 0x1_0000_0000;
              src.At(n) == if at + 32 <= |data| then data[at..at + 32] else src.stale(n)
    {
      hide Content;
    }

    lemma Whole32(now: seq<byte>, was: seq<byte>, data: seq<byte>, base: nat, size: nat, offset: nat)
      requires |was| == 32 && base <= offset && offset + 32 <= base + size <= |data|
      requires Placed(now, was, data, base, size, offset, offset - base + 32)
      ensures now == data[offset..offset + 32]
    {
    }

    /** The fragments of a name behind its first entry: 0 when all agree, else the number of the one that does not. */
    method Fragments(n: nat, name: seq<schar>) returns (i: nat)
      requires Valid() && name != []
      ensures i < Parts(|name|)
      ensures forall j: nat {:trigger Frag(src.At, n, Parts(|name|), j)} :: i < j < Parts(|name|) ==>
                Continues(Frag(src.At, n, Parts(|name|), j), name, j)
      ensures i > 0 ==> !Continues(Frag(src.At, n, Parts(|name|), i), name, i)
    {
      hide Valid, Source.At;
      var c := Parts(|name|);
      i := c - 1;
      while i > 0
        invariant i < c
        invariant forall j: nat {:trigger Frag(src.At, n, c, j)} :: i < j < c ==> Continues(Frag(src.At, n, c, j), name, j)
      {
        var e := Read(n + c - i);
        assert e == Frag(src.At, n, c, i);
        var r := LfnCmp(Part(name, i), e);
        if !(IsLong(e) && !IsLast(e) && Number(e) == i && r == 0) {
          return;
        }
        i := i - 1;
      }
    }

    /** Does a set for this name start at n?  If not, how many entries behind n need no look. */
    method Try(n: nat, name: seq<schar>) returns (found: bool, e: Entry, skip: nat)
      requires Valid() && name != []
      ensures found <==> Matches(src.At, name, n)
      ensures found ==> e == src.At(n + Parts(|name|))
      ensures !found ==> forall m: nat :: n < m <= n + skip ==> !Matches(src.At, name, m)
    {
      hide Valid, Source.At, Same;
      var c := Parts(|name|);
      found, skip := false, 0;
      e := Read(n);
      var r := LfnCmp(Part(name, c), e);
      if !(IsLong(e) && IsLast(e) && Number(e) == c && r == 0) {
        return;
      }
      var i := Fragments(n, name);
      if i == 0 {
        e := Read(n + c);
        found := IsShort(e);
      } else {
        skip := c - i - 1;
        forall m: nat | n < m <= n + skip
          ensures !Matches(src.At, name, m)
        {
          SkipMissesNothing(src.At, name, n, i, m);
        }
      }
    }

    /** The scan of get_root_file and get_file: whichever entries are skipped, it finds the first set. */
    method Find(name: seq<schar>) returns (e: Entry)
      requires Valid() && name != []
      ensures Finds(src, name, e)
    {
      var n: nat := 0;
      e := stale(0);
      while n < count
        invariant forall m: nat {:trigger Matches(src.At, name, m)} :: m < n && m < count ==> !Matches(src.At, name, m)
        decreases count - n
      {
        hide Valid, Source.At, Matches, Finds;
        var found, skip;
        found, e, skip := Try(n, name);
        if found {
          FoundFirst(name, n);
          return;
        }
        n := n + skip + 1;
      }
      e := e[0 := 0xe5];
    }

    lemma FoundFirst(name: seq<schar>, n: nat)
      requires Valid() && name != [] && n < count && Matches(src.At, name, n)
      requires forall m: nat {:trigger Matches(src.At, name, m)} :: m < n ==> !Matches(src.At, name, m)
      ensures Finds(src, name, src.At(n + Parts(|name|)))
    {
      assert !Deleted(src.At(n + Parts(|name|)));
      hide Source.At, Matches;
      assert First(src, name, n);
    }

    /** The part of read_root_dir and read_dir that puts a name together.  The count of entries to go is unsigned. */
    method Assemble(n: nat, first: Entry, file: array<schar>, top: bool) returns (ok: bool, len: nat, dir: bool)
      requires Valid() && first == src.At(n) && file.Length == 256 && SetFits(src.At, n)
      modifies file
      ensures file[..] == Gather(old(file[..]), src.At, n, PartsRead(src.At, n, 0, Limit(first)))
      ensures len == Place(first) + Stored(first, 0) <= 256
      ensures ok <==> Complete(src.At, n, top)
      ensures ok ==> (dir <==> src.At(n + Number(first))[11] / 0x10 == 1)
    {
      hide Valid, Source.At, Stored, CopyInto, Gather, PartsRead, Fits;
      ghost var was := file[..];
      FirstFits(n);
      var last := LfnCpy(file, Place(first), first);
      len := Place(first) + last;
      GatherFirst(was, n);
      var i := Number(first) - 1;
      ghost var t := 0;
      while i > 0
        invariant i == Number(first) - 1 - t && 0 <= t <= Limit(first)
        invariant PartsRead(src.At, n, t, Limit(first)) == PartsRead(src.At, n, 0, Limit(first)) >= t
        invariant file[..] == Gather(was, src.At, n, t)
      {
        var e := Read(n + (Number(first) - i));
        PartsReadNext(n, t, Limit(first));
        if !GoesOn(e) {
          break;
        }
        NextFits(n, t, Limit(first));
        GatherNext(was, n, t + 1);
        var k := LfnCpy(file, Place(e), e);
        i, t := i - 1, t + 1;
      }
      PartsReadEnd(n, t, Limit(first));
      ok, dir := false, false;
      if i == 0 {
        var e := Read(n + Number(first));
        ok, dir := Listed(e, top), Kind(e) == 1;
      }
    }

    lemma FirstFits(n: nat)
      requires SetFits(src.At, n)
      ensures Fits(src.At(n)) && Number(src.At(n)) > 0 && Place(src.At(n)) + Min(13, Stored(src.At(n), 0) + 1) <= 256
    {
      hide Stored, Source.At;
      assert Fits(Behind(src.At, n, 0));
    }

    lemma GatherFirst(file: seq<schar>, n: nat)
      requires SetFits(src.At, n) && |file| == 256 && Fits(src.At(n))
      ensures forall j: nat {:trigger Behind(src.At, n, j)} :: j <= 0 ==> Fits(Behind(src.At, n, j))
      ensures Gather(file, src.At, n, 0) == CopyInto(file, Place(src.At(n)), src.At(n))
    {
      hide Source.At, CopyInto, Stored;
      assert Behind(src.At, n, 0) == src.At(n);
    }

    lemma PartsReadNext(n: nat, t: nat, limit: nat)
      requires t < limit
      ensures PartsRead(src.At, n, t, limit) ==
              if GoesOn(src.At(n + (t + 1))) then PartsRead(src.At, n, t + 1, limit) else t
    {
    }

    lemma PartsReadEnd(n: nat, t: nat, limit: nat)
      requires t <= limit
      ensures PartsRead(src.At, n, t, limit) >= t && (t == limit ==> PartsRead(src.At, n, t, limit) == t)
    {
    }

    lemma NextFits(n: nat, t: nat, limit: nat)
      requires SetFits(src.At, n) && limit == Limit(src.At(n)) && t + 1 <= PartsRead(src.At, n, 0, limit)
      ensures forall j: nat {:trigger Behind(src.At, n, j)} :: j <= t + 1 ==> Fits(Behind(src.At, n, j))
      ensures var e := src.At(n + (t + 1)); Place(e) >= 0 && Place(e) + Min(13, Stored(e, 0) + 1) <= 256
    {
      hide Stored, Source.At, PartsRead;
      assert Fits(Behind(src.At, n, t + 1));
    }

    lemma GatherNext(file: seq<schar>, n: nat, t: nat)
      requires t > 0 && |file| == 256
      requires forall j: nat {:trigger Behind(src.At, n, j)} :: j <= t ==> Fits(Behind(src.At, n, j))
      ensures var e := src.At(n + t);
              && Place(e) >= 0 && Place(e) + Min(13, Stored(e, 0) + 1) <= 256
              && Gather(file, src.At, n, t) == CopyInto(Gather(file, src.At, n, t - 1), Place(e), e)
    {
      hide Stored, Source.At, CopyInto;
      assert Fits(Behind(src.At, n, t));
    }

    /** read_root_dir (at the top) and read_dir, where every set stays in the name field: the set shown as number k, with an
        entry behind it that is a directory or a file; no name when there is none. */
    method List(k: nat, top: bool) returns (name: seq<schar>, dir: bool)
      requires Valid() && forall n: nat {:trigger src.At(n)} :: n < count && IsHead(src.At(n)) ==> SetFits(src.At, n)
      ensures Lists(src.At, count, top, k, name, dir)
      ensures var n := Listing(src.At, count, top, 0, k);
              n < count ==>
                var e := src.At(n + Number(src.At(n)));
                e[0] != 0xe5 && (e[11] / 0x10 == 1 || e[11] / 0x10 == 2 || (top && e[11] < 0x0f))
    {
      hide Valid, Source.At, SetFits, Shows, Complete, Listing, Lists, Gather, Stored, Attribute, Order, IsLong, IsLast, Number;
      var file := new schar[256];
      var p: nat, left := 0, k;
      while p < count
        invariant left >= 0 && Listing(src.At, count, top, 0, k) == Listing(src.At, count, top, p, left)
        decreases count - p
      {
        var e := Read(p);
        ListingNext(p, left, top);
        if IsLong(e) && IsLast(e) {
          if left == 0 {
            ghost var was := file[..];
            var ok, len;
            ok, len, dir := Assemble(p, e, file, top);
            if ok {
              ShowsGathered(was, p, len);
              CompleteIs(p, top);
              IsListed(p, k, top, file[..len], dir);
              return file[..len], dir;
            }
          } else {
            p := p + Number(e);
            left := left - 1;
          }
        }
        p := p + 1;
      }
      ListingEnd(p, left, top);
      name, dir := [], false;
      NoneListed(k, top, dir);
    }

    lemma IsListed(n: nat, k: nat, top: bool, name: seq<schar>, dir: bool)
      requires n < count && Listing(src.At, count, top, 0, k) == n && SetFits(src.At, n) && Shows(src.At, n, name)
      requires dir <==> src.At(n + Number(src.At(n)))[11] / 0x10 == 1
      ensures Lists(src.At, count, top, k, name, dir)
    {
      hide Source.At, SetFits, Shows, Listing;
    }

    lemma NoneListed(k: nat, top: bool, dir: bool)
      requires Listing(src.At, count, top, 0, k) == count
      ensures Lists(src.At, count, top, k, [], dir)
    {
      hide Source.At, SetFits, Shows, Listing;
    }

    lemma CompleteIs(n: nat, top: bool)
      requires Complete(src.At, n, top)
      ensures var e := src.At(n + Number(src.At(n)));
              e[0] != 0xe5 && (e[11] / 0x10 == 1 || e[11] / 0x10 == 2 || (top && e[11] < 0x0f))
    {
      hide Source.At;
    }

    lemma ListingNext(n: nat, k: nat, top: bool)
      requires n < count
      ensures Listing(src.At, count, top, n, k) ==
              if !IsHead(src.At(n)) then Listing(src.At, count, top, n + 1, k)
              else if k > 0 then Listing(src.At, count, top, n + Number(src.At(n)) + 1, k - 1)
              else if Complete(src.At, n, top) then n
              else Listing(src.At, count, top, n + 1, 0)
    {
    }

    lemma ListingEnd(n: nat, k: nat, top: bool)
      requires n >= count
      ensures Listing(src.At, count, top, n, k) == count
    {
    }

    lemma ShowsGathered(was: seq<schar>, n: nat, len: nat)
      requires SetFits(src.At, n) && |was| == 256 && len == Place(src.At(n)) + Stored(src.At(n), 0) <= 256
      ensures Shows(src.At, n, Gather(was, src.At, n, PartsRead(src.At, n, 0, Limit(src.At(n))))[..len])
    {
      hide Source.At, Gather, PartsRead, Stored;
    }

    /** In a well-formed directory: the name and type of set number k. */
    method ListWellFormed(k: nat, top: bool) returns (name: seq<schar>, dir: bool)
      requires Valid() && WellFormed(src.At, count, top)
      ensures name == [] <==> Nth(src.At, count, 0, k) == count
      ensures name != [] ==>
                var n := Nth(src.At, count, 0, k);
                && n < count && NoZero(name) && IsName(src.At, n, name) && (dir <==> src.At(n + Number(src.At(n)))[11] / 0x10 == 1)
    {
      hide Valid, Source.At, SetAt, SetFits, Shows, Complete, Listing, Nth, IsName, NoZero;
      forall n: nat | n < count && IsHead(src.At(n))
        ensures SetFits(src.At, n)
      {
        SetIsFit(src.At, count, n, top);
      }
      ListingIsNth(src.At, count, top, 0, k);
      NthEnd(src.At, count, k);
      name, dir := List(k, top);
      var n := Listing(src.At, count, top, 0, k);
      if n < count {
        ShowsName(src.At, count, n, name, top);
      }
    }

    /** A listed name, looked up, gives the short entry of the first set with that name. */
    method ListThenFind(k: nat, top: bool) returns (name: seq<schar>, e: Entry)
      requires Valid() && WellFormed(src.At, count, top)
      ensures name == [] <==> Nth(src.At, count, 0, k) == count
      ensures name != [] ==> IsName(src.At, Nth(src.At, count, 0, k), name)
      ensures name != [] ==> FirstNamed(src, name, Nth(src.At, count, 0, k), e)
    {
      hide Valid, Source.At, SetAt, Nth, IsName, Matches, Finds, FirstNamed;
      var dir;
      name, dir := ListWellFormed(k, top);
      e := stale(0);
      if name != [] {
        e := Find(name);
        NamedFirst(name, Nth(src.At, count, 0, k), e, top);
      }
    }

    lemma NamedFirst(name: seq<schar>, n: nat, e: Entry, top: bool)
      requires Valid() && WellFormed(src.At, count, top) && n < count && name != [] && NoZero(name)
      requires IsHead(src.At(n)) && IsName(src.At, n, name) && Finds(src, name, e)
      ensures FirstNamed(src, name, n, e)
    {
      hide Source.At, Source.Valid, IsName, SetAt, WellFormed, Matches, Finds;
      MatchIsName(src.At, count, name, n, top);
      var m := FoundAt(name, n, e);
      MatchIsName(src.At, count, name, m, top);
      forall j: nat | j < m
        ensures !(IsHead(src.At(j)) && IsName(src.At, j, name))
      {
        MatchIsName(src.At, count, name, j, top);
      }
      NamedParts(name, m);
    }

    lemma FoundAt(name: seq<schar>, n: nat, e: Entry) returns (m: nat)
      requires name != [] && Finds(src, name, e) && n < src.Count() && Matches(src.At, name, n)
      ensures m <= n && First(src, name, m) && e == src.At(m + Parts(|name|))
    {
      hide Source.At, Matches;
      m :| m < src.Count() && First(src, name, m) && e == src.At(m + Parts(|name|));
    }

    lemma NamedParts(name: seq<schar>, m: nat)
      requires name != [] && Matches(src.At, name, m)
      ensures Parts(|name|) == Number(src.At(m))
    {
    }
  }
}
