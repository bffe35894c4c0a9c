/** Paths and files, kernel/fs/fat.c: get_root_file, get_file, get_path, read_file and fat_read. */
module Paths {
  import opened Basics
  import opened Clusters
  import opened LongNames
  import opened Fat

  const SLASH: schar := 0x2f

  /** The volume, the chain that starts at each cluster (where one does), and the reader's stale local. */
  datatype Env = Env(v: Volume, chains: nat -> seq<nat>, stale: nat -> Entry)

  function FirstCluster(v: Volume, e: Entry): nat {
    Word16(e, 26) + if v.fat16 then 0 else Word16(e, 20) * 0x1_0000
  }

  function FileSize(e: Entry): nat {
    Word32(e, 28)
  }

  /** get_path marks the root directory with a '/' in the reserved byte, where an entry of the volume may have one too. */
  predicate IsRoot(e: Entry) {
    e[12] == 0x2f
  }

  predicate IsDir(e: Entry) {
    Attribute(e) / 0x10 % 2 == 1
  }

  predicate IsFile(e: Entry) {
    Attribute(e) / 0x20 % 2 == 1
  }

  ghost function RootSource(env: Env): Source {
    if env.v.fat16 then Source(env.v, true, [], env.stale) else Source(env.v, false, env.chains(env.v.rootCluster), env.stale)
  }

  ghost function DirSource(env: Env, e: Entry): Source {
    Source(env.v, false, env.chains(FirstCluster(env.v, e)), env.stale)
  }

  /** One component of a path: from entry e to entry e'. */
  ghost predicate Step(env: Env, e: Entry, name: seq<schar>, e': Entry)
    requires name != []
  {
    if IsRoot(e) then Finds(RootSource(env), name, e')
    else if Deleted(e) || !IsDir(e) then Deleted(e')
    else Finds(DirSource(env, e), name, e')
  }

  /** The chain of the directory e ends. */
  ghost predicate Readable(env: Env, e: Entry) {
    if IsRoot(e) then
      RootSource(env).Valid() && (!env.v.fat16 ==> env.chains(env.v.rootCluster)[0] == env.v.rootCluster)
    else
      Deleted(e) || !IsDir(e) || (DirSource(env, e).Valid() && env.chains(FirstCluster(env.v, e))[0] == FirstCluster(env.v, e))
  }

  ghost predicate Names(comps: seq<seq<schar>>) {
    forall i: nat {:trigger comps[i]} :: i < |comps| ==> comps[i] != []
  }

  /** Every directory on the way can be read. */
  ghost predicate Walkable(env: Env, e: Entry, comps: seq<seq<schar>>)
    requires Names(comps)
    decreases |comps|
  {
    comps == [] || (Readable(env, e) &&
      forall e': Entry {:trigger Step(env, e, comps[0], e')} :: Step(env, e, comps[0], e') && !Deleted(e') ==> Walkable(env, e', comps[1..]))
  }

  /** The walk along the components; it stops where one is not found. */
  ghost predicate Walks(env: Env, e: Entry, comps: seq<seq<schar>>, r: Entry)
    requires Names(comps)
    decreases |comps|
  {
    if comps == [] then r == e
    else exists e': Entry {:trigger Step(env, e, comps[0], e')} :: Step(env, e, comps[0], e') &&
           if Deleted(e') then r == e' else Walks(env, e', comps[1..], r)
  }

  /** Where the next '/' stands; |path| when there is none. */
  function Slash(path: seq<schar>): (n: nat)
    ensures n <= |path| && (n < |path| ==> path[n] == SLASH)
    ensures forall i: nat :: i < n ==> path[i] != SLASH
  {
    if path == [] || path[0] == SLASH then 0 else 1 + Slash(path[1..])
  }

  /** The components of a path: what stands between slashes, if anything does. */
  function Components(path: seq<schar>): (r: seq<seq<schar>>)
    ensures Names(r)
    decreases |path|
  {
    var n := Slash(path);
    var rest := if n < |path| then Components(path[n + 1..]) else [];
    if n == 0 then rest else [path[..n]] + rest
  }

  method GetRootFile(v: Volume, stale: nat -> Entry, name: seq<schar>, ghost env: Env) returns (e: Entry)
    requires env.v == v && env.stale == stale && name != [] && RootSource(env).Valid()
    requires !v.fat16 ==> env.chains(v.rootCluster)[0] == v.rootCluster
    ensures Finds(RootSource(env), name, e)
  {
    hide Source.At, Source.Bytes, Matches, Next;
    var d: Directory;
    if v.fat16 {
      d := new Directory.Root(v, stale);
    } else {
      d := new Directory.Chain(v, v.rootCluster, stale, env.chains(v.rootCluster));
    }
    e := d.Find(name);
  }

  method GetFile(v: Volume, stale: nat -> Entry, dir: Entry, name: seq<schar>, ghost env: Env) returns (e: Entry)
    requires env.v == v && env.stale == stale && name != [] && !IsRoot(dir) && Readable(env, dir)
    ensures Step(env, dir, name, e)
  {
    if Deleted(dir) || !IsDir(dir) {
      e := stale(0);
      return e[0 := 0xe5];
    }
    hide Source.At, Source.Bytes, Matches, Next;
    var c := FirstCluster(v, dir);
    var d := new Directory.Chain(v, c, stale, env.chains(c));
    e := d.Find(name);
  }

  /** One turn of get_path, at a component. */
  method Enter(v: Volume, stale: nat -> Entry, e: Entry, name: seq<schar>, ghost env: Env) returns (e': Entry)
    requires env.v == v && env.stale == stale && name != [] && Readable(env, e)
    ensures Step(env, e, name, e')
  {
    hide Finds, RootSource, DirSource, Source.Valid;
    if IsRoot(e) {
      e' := GetRootFile(v, stale, name, env);
    } else {
      e' := GetFile(v, stale, e, name, env);
    }
  }

  /** What is left of the walk ends where the whole walk ends. */
  ghost predicate Leads(env: Env, e0: Entry, all: seq<seq<schar>>, e: Entry, comps: seq<seq<schar>>)
    requires Names(all) && Names(comps)
  {
    forall r: Entry {:trigger Walks(env, e0, all, r)} {:trigger Walks(env, e, comps, r)} ::
      Walks(env, e, comps, r) ==> Walks(env, e0, all, r)
  }

  lemma LeadsOn(env: Env, e0: Entry, all: seq<seq<schar>>, e: Entry, comps: seq<seq<schar>>, e': Entry)
    requires Names(all) && Names(comps) && Leads(env, e0, all, e, comps)
    requires comps != [] && Walkable(env, e, comps) && Step(env, e, comps[0], e')
    ensures Deleted(e') ==> Walks(env, e0, all, e')
    ensures !Deleted(e') ==> Leads(env, e0, all, e', comps[1..]) && Walkable(env, e', comps[1..])
  {
    hide Step, Readable;
    if Deleted(e') {
      assert Walks(env, e, comps, e');
    } else {
      forall r: Entry | Walks(env, e', comps[1..], r)
        ensures Walks(env, e0, all, r)
      {
        assert Walks(env, e, comps, r);
      }
    }
  }

  lemma WithSlash(path: seq<schar>)
    requires Slash(path) < |path|
    ensures var rest := Components(path[Slash(path) + 1..]);
            && (Slash(path) == 0 ==> Components(path) == rest)
            && (Slash(path) > 0 ==> Components(path) == [path[..Slash(path)]] + rest)
  {
    hide Slash, Names;
  }

  lemma Tail(first: seq<schar>, rest: seq<seq<schar>>)
    ensures ([first] + rest)[1..] == rest
  {
  }

  lemma NoSlash(path: seq<schar>)
    requires Slash(path) == |path|
    ensures Components(path) == if path == [] then [] else [path]
  {
    hide Slash, Names;
    assert path[..|path|] == path;
  }

  // Paths of no name, of one name and of two, byte by byte

  ghost predicate Slashes(s: seq<schar>) {
    forall k: nat {:trigger s[k]} :: k < |s| ==> s[k] == 0x2f
  }

  ghost predicate IsComponent(s: seq<schar>) {
    s != [] && forall k: nat {:trigger s[k]} :: k < |s| ==> s[k] != 0x2f
  }

  lemma {:induction false} LeadingSlashes(s: seq<schar>, rest: seq<schar>)
    requires Slashes(s)
    ensures Components(s + rest) == Components(rest)
  {
    hide Components;
    if s == [] {
      assert s + rest == rest;
    } else {
      assert (s + rest)[1..] == s[1..] + rest;
      WithSlash(s + rest);
      LeadingSlashes(s[1..], rest);
    }
  }

  lemma OnlySlashes(s: seq<schar>)
    requires Slashes(s)
    ensures Components(s) == []
  {
    hide Components;
    assert s + [] == s;
    LeadingSlashes(s, []);
    NoSlash([]);
  }

  lemma FirstName(name: seq<schar>, rest: seq<schar>)
    requires IsComponent(name) && (rest == [] || rest[0] == 0x2f)
    ensures Components(name + rest) == [name] + Components(rest)
  {
    hide Components, Slash;
    var path := name + rest;
    assert path[Slash(path)..] == rest && path[..Slash(path)] == name by {
      assert forall k: nat {:trigger path[k]} :: k < |name| ==> path[k] == name[k];
      assert rest != [] ==> path[|name|] == rest[0];
      assert Slash(path) == |name|;
    }
    if rest == [] {
      assert path == name;
      NoSlash(path);
      OnlySlashes([]);
    } else {
      WithSlash(path);
      assert path[Slash(path) + 1..] == rest[1..];
      assert rest == [rest[0]] + rest[1..];
      LeadingSlashes([rest[0]], rest[1..]);
    }
  }

  /** The path is one name, with or without slashes around it. */
  ghost predicate IsOne(path: seq<schar>, name: seq<schar>) {
    IsComponent(name) && exists s: seq<schar>, t: seq<schar> {:trigger s + name + t} :: path == s + name + t && Slashes(s) && Slashes(t)
  }

  /** The path is two names with slashes between them. */
  ghost predicate IsTwo(path: seq<schar>, name: seq<schar>, last: seq<schar>) {
    IsComponent(name) && exists s: seq<schar>, rest: seq<schar> {:trigger s + name + rest} ::
      path == s + name + rest && Slashes(s) && rest != [] && rest[0] == 0x2f && IsOne(rest, last)
  }

  lemma OneComponent(path: seq<schar>, name: seq<schar>)
    requires IsOne(path, name)
    ensures name != [] && Components(path) == [name]
  {
    hide Components;
    var s: seq<schar>, t: seq<schar> :| path == s + name + t && Slashes(s) && Slashes(t);
    assert path == s + (name + t);
    LeadingSlashes(s, name + t);
    FirstName(name, t);
    OnlySlashes(t);
  }

  lemma TwoComponents(path: seq<schar>, name: seq<schar>, last: seq<schar>)
    requires IsTwo(path, name, last)
    ensures name != [] && last != [] && Components(path) == [name] + [last]
  {
    hide Components, IsOne;
    var s: seq<schar>, rest: seq<schar> :| path == s + name + rest && Slashes(s) && rest != [] && rest[0] == 0x2f && IsOne(rest, last);
    assert path == s + (name + rest);
    LeadingSlashes(s, name + rest);
    FirstName(name, rest);
    OneComponent(rest, last);
  }

  /** The number of a first cluster is in bytes 26 and 27; on FAT32 bytes 20 and 21 are its upper half. */
  ghost function StartBytes(fat16: bool, e: Entry): nat {
    (e[26] as int) + (e[27] as int) * 0x100 + if fat16 then 0 else (e[20] as int) * 0x1_0000 + (e[21] as int) * 0x100_0000
  }

  ghost function SizeBytes(e: Entry): nat {
    (e[28] as int) + (e[29] as int) * 0x100 + (e[30] as int) * 0x1_0000 + (e[31] as int) * 0x100_0000
  }

  /** What is kept in the clusters of a directory. */
  ghost function Inside(env: Env, e: Entry): Source {
    Source(env.v, false, env.chains(StartBytes(env.v.fat16, e)), env.stale)
  }

  /** The fields of an entry, as the code takes them, are these bytes. */
  lemma FieldsAre(v: Volume, e: Entry)
    ensures FirstCluster(v, e) == StartBytes(v.fat16, e) && FileSize(e) == SizeBytes(e)
    ensures (Deleted(e) <==> e[0] == 0xe5) && (IsFile(e) <==> e[11] / 0x20 % 2 == 1) && (IsDir(e) <==> e[11] / 0x10 % 2 == 1)
  {
  }

  /** r is what a name leads to from the entry e: from one marked with '/' what it is in the root directory; an entry
      marked deleted from what is no directory; else what it is inside. */
  ghost predicate Reaches(env: Env, e: Entry, name: seq<schar>, r: Entry)
    requires name != []
  {
    && (e[12] == 0x2f ==> Finds(RootSource(env), name, r))
    && (e[12] != 0x2f && (e[0] == 0xe5 || e[11] / 0x10 % 2 == 0) ==> r[0] == 0xe5)
    && (e[12] != 0x2f && e[0] != 0xe5 && e[11] / 0x10 % 2 == 1 ==> Finds(Inside(env, e), name, r))
  }

  /** What the first name is in the root directory leads to r by the second. */
  ghost predicate ReachesFrom(env: Env, name: seq<schar>, last: seq<schar>, r: Entry) {
    && name != [] && last != []
    && exists e: Entry {:trigger Reaches(env, e, last, r)} {:trigger Finds(RootSource(env), name, e)} ::
         Finds(RootSource(env), name, e) && if e[0] == 0xe5 then r == e else Reaches(env, e, last, r)
  }

  lemma StepLeads(env: Env, e: Entry, name: seq<schar>, r: Entry)
    requires name != []
    ensures Step(env, e, name, r) <==> Reaches(env, e, name, r)
  {
    hide Finds, RootSource;
  }

  lemma WalksNone(env: Env, e: Entry, r: Entry)
    ensures Walks(env, e, [], r) <==> r == e
  {
  }

  lemma WalksOne(env: Env, e: Entry, name: seq<schar>, r: Entry)
    requires name != [] && Walks(env, e, [name], r)
    ensures Reaches(env, e, name, r)
  {
    hide Step, Reaches;
    var e': Entry :| Step(env, e, name, e') && if Deleted(e') then r == e' else Walks(env, e', [name][1..], r);
    assert [name][1..] == [];
    WalksNone(env, e', r);
    StepLeads(env, e, name, r);
  }

  lemma WalksTwo(env: Env, e: Entry, name: seq<schar>, last: seq<schar>, r: Entry)
    requires name != [] && last != [] && Walks(env, e, [name] + [last], r)
    requires e[12] == 0x2f
    ensures ReachesFrom(env, name, last, r)
  {
    hide Step, Finds, RootSource, Inside;
    var comps := [name] + [last];
    var e': Entry :| Step(env, e, comps[0], e') && if Deleted(e') then r == e' else Walks(env, e', comps[1..], r);
    assert comps[1..] == [last];
    StepLeads(env, e, name, e');
    if !Deleted(e') {
      WalksOne(env, e', last, r);
    }
  }

  lemma ShortWalks(env: Env, e0: Entry, path: seq<schar>, r: Entry)
    requires e0[12] == 0x2f && Walks(env, e0, Components(path), r)
    ensures Slashes(path) ==> r[12] == 0x2f
    ensures forall name: seq<schar> {:trigger IsOne(path, name)} :: IsOne(path, name) ==> Finds(RootSource(env), name, r)
    ensures forall name: seq<schar>, last: seq<schar> {:trigger IsTwo(path, name, last)} ::
              IsTwo(path, name, last) ==> ReachesFrom(env, name, last, r)
  {
    hide Walks, Components, Finds, IsTwo;
    if Slashes(path) {
      OnlySlashes(path);
      WalksNone(env, e0, r);
    }
    forall name: seq<schar> {:trigger IsOne(path, name)} | IsOne(path, name)
      ensures Finds(RootSource(env), name, r)
    {
      OneComponent(path, name);
      WalksOne(env, e0, name, r);
    }
    forall name: seq<schar>, last: seq<schar> {:trigger IsTwo(path, name, last)} | IsTwo(path, name, last)
      ensures ReachesFrom(env, name, last, r)
    {
      TwoComponents(path, name, last);
      WalksTwo(env, e0, name, last, r);
    }
  }

  /** get_path: the walk along the components of the path, from the root directory. */
  method GetPath(v: Volume, stale: nat -> Entry, path: seq<schar>, ghost env: Env) returns (r: Entry)
    requires env.v == v && env.stale == stale
    requires Walkable(env, stale(0)[12 := 0x2f], Components(path))
    ensures Walks(env, stale(0)[12 := 0x2f], Components(path), r)
    ensures Slashes(path) ==> r[12] == 0x2f
    ensures forall name: seq<schar> {:trigger IsOne(path, name)} :: IsOne(path, name) ==> Finds(RootSource(env), name, r)
    ensures forall name: seq<schar>, last: seq<schar> {:trigger IsTwo(path, name, last)} ::
              IsTwo(path, name, last) ==> ReachesFrom(env, name, last, r)
  {
    hide Finds, RootSource, Slashes, IsOne, IsTwo, ReachesFrom, Step, Readable, Components, Slash, Leads, Walks, Walkable;
    var e: Entry, rest := stale(0)[12 := 0x2f], path;
    ghost var e0, all := e, Components(path);
    LeadsItself(env, e, all);
    while Slash(rest) < |rest|
      invariant Walkable(env, e, Components(rest)) && Leads(env, e0, all, e, Components(rest))
      decreases |rest|
    {
      var len := Slash(rest);
      WithSlash(rest);
      if len != 0 {
        Tail(rest[..len], Components(rest[len + 1..]));
        var found;
        found, e := OneName(v, stale, e, rest[..len], Components(rest), e0, all, env);
        if !found {
          ShortWalks(env, e0, path, e);
          return e;
        }
      }
      rest := rest[len + 1..];
    }
    NoSlash(rest);
    if rest != [] {
      assert Components(rest)[1..] == [];
      var found;
      found, e := OneName(v, stale, e, rest, Components(rest), e0, all, env);
      if !found {
        ShortWalks(env, e0, path, e);
        return e;
      }
    }
    Arrived(env, e0, all, e);
    ShortWalks(env, e0, path, e);
    return e;
  }

  lemma LeadsItself(env: Env, e: Entry, all: seq<seq<schar>>)
    requires Names(all)
    ensures Leads(env, e, all, e, all)
  {
  }

  lemma Arrived(env: Env, e0: Entry, all: seq<seq<schar>>, e: Entry)
    requires Names(all) && Leads(env, e0, all, e, [])
    ensures Walks(env, e0, all, e)
  {
    assert Walks(env, e, [], e);
  }

  method OneName(v: Volume, stale: nat -> Entry, e: Entry, name: seq<schar>, ghost comps: seq<seq<schar>>, ghost e0: Entry,
        ghost all: seq<seq<schar>>, ghost env: Env)
    returns (found: bool, e': Entry)
    requires env.v == v && env.stale == stale && Names(comps) && Names(all)
    requires comps != [] && comps[0] == name && Walkable(env, e, comps) && Leads(env, e0, all, e, comps)
    ensures found ==> Walkable(env, e', comps[1..]) && Leads(env, e0, all, e', comps[1..])
    ensures !found ==> Deleted(e') && Walks(env, e0, all, e')
  {
    hide Step, Readable, Leads, Walks;
    e' := Enter(v, stale, e, name, env);
    found := !Deleted(e');
    LeadsOn(env, e0, all, e, comps, e');
  }

  /** read_file: the bytes of the file from `offset` on, no more than it has, where read_cluster puts them; in place when
      the request starts a cluster or stays in one.  The clusters of the file hold it. */
  method ReadFile(v: Volume, file: Entry, buf: array<byte>, count: nat, offset: nat, ghost cl: seq<nat>, ghost q: nat, ghost base: nat)
    returns (r: int)
    requires file[0] != 0xe5 && file[11] / 0x20 % 2 == 1 ==>
               && count < 0x8000_0000 && IsWalk(v, cl) && cl[0] == StartBytes(v.fat16, file) && SizeBytes(file) <= |Content(v, cl)|
               && base == Top(v.clusterSize, q) && base <= offset < base + v.clusterSize
               && (if offset == base || offset - base + count <= v.clusterSize then count else offset - base + count) <= buf.Length
    modifies buf
    ensures file[0] == 0xe5 || file[11] / 0x20 % 2 == 0 ==> r == -1
    ensures file[0] != 0xe5 && file[11] / 0x20 % 2 == 1 ==> r == Max(0, Min(count, SizeBytes(file) - offset)) || (r == -1 && !v.sound)
    ensures r > 0 ==> Placed(buf[..], old(buf[..]), Content(v, cl), base, v.clusterSize, offset, offset - base + r)
    ensures r > 0 && (offset == base || offset - base + r <= v.clusterSize) ==>
              r <= buf.Length && buf[..r] == Content(v, cl)[offset..offset + r]
    ensures r > 0 && (offset == base || offset - base + r <= v.clusterSize) && Holds(v, cl) && AllNear(v, cl, offset, offset + r) ==>
              buf[..r] == Data(v, cl)[offset..offset + r]
    ensures r == 0 ==> buf[..] == old(buf[..])
  {
    hide Content, Top, Next, Placed, FileSize, FirstCluster, SizeBytes, StartBytes, Whole, Data, AllNear, Holds, IsWalk, Deleted, IsFile;
    FieldsAre(v, file);
    if Deleted(file) || !IsFile(file) {
      return -1;
    }
    if offset >= FileSize(file) {
      return 0;
    }
    var n := if offset + count > FileSize(file) then FileSize(file) - offset else count;
    r := ReadPlaced(v, buf, FirstCluster(v, file), n, offset, cl, q, base);
    if r > 0 && Holds(v, cl) && AllNear(v, cl, offset, offset + r) {
      NearIsFound(v, cl, offset, offset + r);
    }
  }

  /** read_cluster, for a request the chain has the bytes of. */
  method ReadPlaced(v: Volume, buf: array<byte>, cluster: nat, n: nat, offset: nat, ghost cl: seq<nat>, ghost q: nat, ghost base: nat)
    returns (r: int)
    requires IsWalk(v, cl) && cl[0] == cluster && offset + n <= |Content(v, cl)| && offset < |Content(v, cl)|
    requires base == Top(v.clusterSize, q) && base <= offset < base + v.clusterSize && n < 0x8000_0000
    requires (if offset - base + n <= v.clusterSize then n else offset - base + n) <= buf.Length
    modifies buf
    ensures r == n || (r == -1 && !v.sound)
    ensures r == n ==> Placed(buf[..], old(buf[..]), Content(v, cl), base, v.clusterSize, offset, offset - base + n)
    ensures r == n && (offset == base || offset - base + n <= v.clusterSize) ==>
              n <= buf.Length && buf[..n] == Content(v, cl)[offset..offset + n] && (n == 0 ==> buf[..] == old(buf[..]))
    ensures r == n == 0 ==> buf[..] == old(buf[..])
  {
    hide Content, Top, Next, Placed, Whole;
    ghost var was := buf[..];
    Position(v.clusterSize, 0, q, |cl|);
    r := ReadCluster(v, buf, cluster, n, offset, cl, q, base);
    if r != -1 {
      if offset == base || offset - base + n <= v.clusterSize {
        InPlace(buf[..], was, Content(v, cl), base, v.clusterSize, offset, n);
      }
    }
  }

  lemma InPlace(now: seq<byte>, was: seq<byte>, data: seq<byte>, base: nat, size: nat, offset: nat, n: nat)
    requires base <= offset < base + size && offset + n <= |data| && n <= |was|
    requires offset == base || offset - base + n <= size
    requires Placed(now, was, data, base, size, offset, offset - base + n)
    ensures now[..n] == data[offset..offset + n]
    ensures n == 0 ==> now == was
  {
  }

  /** Where the path may end. */
  ghost predicate Found(env: Env, path: seq<schar>, e: Entry) {
    Walks(env, env.stale(0)[12 := 0x2f], Components(path), e)
  }

  /** The clusters of the file hold it, and the buffer has room. */
  ghost predicate CanRead(env: Env, e: Entry, room: nat, count: nat, offset: nat, q: nat, base: nat) {
    var cl := env.chains(StartBytes(env.v.fat16, e));
    && count < 0x8000_0000 && IsWalk(env.v, cl) && cl[0] == StartBytes(env.v.fat16, e) && SizeBytes(e) <= |Content(env.v, cl)|
    && base == Top(env.v.clusterSize, q) && base <= offset < base + env.v.clusterSize
    && (if offset == base || offset - base + count <= env.v.clusterSize then count else offset - base + count) <= room
  }

  /** fat_read: what the path leads to is read when it is a file, and not marked with '/'. */
  method ReadPath(v: Volume, stale: nat -> Entry, path: seq<schar>, buf: array<byte>, count: nat, offset: nat,
        ghost env: Env, ghost q: nat, ghost base: nat)
    returns (r: int, ghost e: Entry)
    requires env.v == v && env.stale == stale && Walkable(env, stale(0)[12 := 0x2f], Components(path))
    requires forall e: Entry {:trigger Found(env, path, e)} ::
               Found(env, path, e) && e[12] != 0x2f && e[0] != 0xe5 && e[11] / 0x20 % 2 == 1 ==>
                 CanRead(env, e, buf.Length, count, offset, q, base)
    modifies buf
    ensures Found(env, path, e)
    ensures Slashes(path) ==> r == -1
    ensures e[12] == 0x2f || e[0] == 0xe5 || e[11] / 0x20 % 2 == 0 ==> r == -1
    ensures e[12] != 0x2f && e[0] != 0xe5 && e[11] / 0x20 % 2 == 1 ==>
              && (r == Max(0, Min(count, SizeBytes(e) - offset)) || (r == -1 && !v.sound))
              && (r > 0 && (offset == base || offset - base + r <= v.clusterSize) ==>
                    && r <= buf.Length && CanRead(env, e, buf.Length, count, offset, q, base)
                    && buf[..r] == Content(v, env.chains(StartBytes(v.fat16, e)))[offset..offset + r])
  {
    hide Walks, Walkable, Components, Slashes, IsOne, IsTwo, ReachesFrom, Finds, CanRead, Content, SizeBytes, StartBytes;
    var file := GetPath(v, stale, path, env);
    e := file;
    assert Found(env, path, e);
    if file[12] == 0x2f {
      return -1, file;
    }
    CanReadIs(env, file, buf.Length, count, offset, q, base);
    r := ReadFile(v, file, buf, count, offset, env.chains(StartBytes(v.fat16, file)), q, base);
  }

  lemma CanReadIs(env: Env, e: Entry, room: nat, count: nat, offset: nat, q: nat, base: nat)
    requires e[0] != 0xe5 && e[11] / 0x20 % 2 == 1 ==> CanRead(env, e, room, count, offset, q, base)
    ensures e[0] != 0xe5 && e[11] / 0x20 % 2 == 1 ==>
              var cl := env.chains(StartBytes(env.v.fat16, e));
              && count < 0x8000_0000 && IsWalk(env.v, cl) && cl[0] == StartBytes(env.v.fat16, e) && SizeBytes(e) <= |Content(env.v, cl)|
              && base == Top(env.v.clusterSize, q) && base <= offset < base + env.v.clusterSize
              && (if offset == base || offset - base + count <= env.v.clusterSize then count else offset - base + count) <= room
  {
  }

  ghost predicate CanList(s: Source) {
    forall n: nat {:trigger s.At(n)} :: n < s.Count() && IsHead(s.At(n)) ==> SetFits(s.At, n)
  }

  /** read_root_dir */
  method ListRoot(v: Volume, stale: nat -> Entry, k: nat, ghost env: Env) returns (name: seq<schar>, dir: bool)
    requires env.v == v && env.stale == stale && RootSource(env).Valid() && CanList(RootSource(env))
    requires !v.fat16 ==> env.chains(v.rootCluster)[0] == v.rootCluster
    ensures Lists(RootSource(env).At, RootSource(env).Count(), true, k, name, dir)
  {
    hide Source.At, Source.Bytes, Source.Count, Lists, Listing, IsHead, SetFits, Next;
    var d: Directory;
    if v.fat16 {
      d := new Directory.Root(v, stale);
    } else {
      d := new Directory.Chain(v, v.rootCluster, stale, env.chains(v.rootCluster));
    }
    name, dir := d.List(k, true);
  }

  /** read_dir */
  method ListDir(v: Volume, stale: nat -> Entry, e: Entry, k: nat, ghost env: Env) returns (name: seq<schar>, dir: bool)
    requires env.v == v && env.stale == stale && !IsRoot(e) && Readable(env, e)
    requires e[0] != 0xe5 && e[11] / 0x10 % 2 == 1 ==> CanList(Inside(env, e))
    ensures e[0] == 0xe5 || e[11] / 0x10 % 2 == 0 ==> name == []
    ensures e[0] != 0xe5 && e[11] / 0x10 % 2 == 1 ==> Lists(Inside(env, e).At, Inside(env, e).Count(), false, k, name, dir)
  {
    FieldsAre(v, e);
    if Deleted(e) || !IsDir(e) {
      return [], false;
    }
    hide Source.At, Source.Bytes, Source.Count, Lists, Listing, IsHead, SetFits, Next, FirstCluster, StartBytes;
    var c := FirstCluster(v, e);
    var d := new Directory.Chain(v, c, stale, env.chains(c));
    name, dir := d.List(k, false);
  }

  /** fat_readdir: the root directory where the entry is marked with '/', nothing in what is no directory. */
  method ListPath(v: Volume, stale: nat -> Entry, path: seq<schar>, k: nat, ghost env: Env)
    returns (name: seq<schar>, dir: bool, ghost e: Entry)
    requires env.v == v && env.stale == stale && Walkable(env, stale(0)[12 := 0x2f], Components(path))
    requires forall e: Entry {:trigger Found(env, path, e)} :: Found(env, path, e) ==>
               && Readable(env, e)
               && (e[12] == 0x2f ==> CanList(RootSource(env)))
               && (e[12] != 0x2f && e[0] != 0xe5 && e[11] / 0x10 % 2 == 1 ==> CanList(Inside(env, e)))
    ensures Found(env, path, e)
    ensures Slashes(path) ==> Lists(RootSource(env).At, RootSource(env).Count(), true, k, name, dir)
    ensures e[12] == 0x2f ==> Lists(RootSource(env).At, RootSource(env).Count(), true, k, name, dir)
    ensures e[12] != 0x2f && (e[0] == 0xe5 || e[11] / 0x10 % 2 == 0) ==> name == []
    ensures e[12] != 0x2f && e[0] != 0xe5 && e[11] / 0x10 % 2 == 1 ==> Lists(Inside(env, e).At, Inside(env, e).Count(), false, k, name, dir)
  {
    hide Walks, Walkable, Components, Slashes, IsOne, IsTwo, ReachesFrom, Finds, Lists, CanList, Source.At, Source.Count, Source.Valid, RootSource, Inside;
    var at := GetPath(v, stale, path, env);
    e := at;
    assert Found(env, path, e);
    if at[12] == 0x2f {
      name, dir := ListRoot(v, stale, k, env);
    } else {
      name, dir := ListDir(v, stale, at, k, env);
    }
  }
}
