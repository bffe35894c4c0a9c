/** Cluster chains of a FAT volume: next_cluster, dir_cluster and read_cluster of kernel/fs/fat.c. */
module Clusters {
  import opened Basics

  /** What fat_init keeps, with sectors turned into byte offsets, and the volume itself; does its disk answer every
      request? */
  datatype Volume = Volume(
    fat16: bool, table: nat, start: nat, clusterSize: nat, root: nat, rootCount: nat, rootCluster: nat,
    disk: seq<byte>, sound: bool)

  function Word16(s: seq<byte>, at: nat): nat
    requires at + 2 <= |s|
  {
    (s[at] as int) + (s[at + 1] as int) * 0x100
  }

  function Word32(s: seq<byte>, at: nat): nat
    requires at + 4 <= |s|
  {
    Word16(s, at) + Word16(s, at + 2) * 0x1_0000
  }

  /** next_cluster: 0 at the end of a chain, and where the table cannot be read.  The offset in the table is a product of
      32 bits. */
  function Next(v: Volume, cluster: nat): (next: nat)
    ensures next == 0 || 2 <= next < 0x1000_0000
  {
    if v.fat16 then
      var at := v.table + cluster * 2 % 0x1_0000_0000;
      if at + 2 > |v.disk| then 0 else
        var next := Word16(v.disk, at);
        if next < 2 || next > 0xffef then 0 else next
    else
      var at := v.table + cluster * 4 % 0x1_0000_0000;
      if at + 4 > |v.disk| then 0 else
        var next := Word32(v.disk, at);
        if next < 2 || next > 0xfff_ffef then 0 else next
  }

  /** Where read_cluster looks for a cluster: the product is 32 bits wide. */
  function ClusterAt(v: Volume, cluster: nat): nat {
    v.start + (cluster - 2) * v.clusterSize % 0x1_0000_0000
  }

  /** The place read lies within the volume. */
  predicate Whole(v: Volume, cluster: nat) {
    ClusterAt(v, cluster) + v.clusterSize <= |v.disk|
  }

  /** Clusters met one after the other on the way along a chain, from its first on. */
  ghost predicate IsWalk(v: Volume, cl: seq<nat>) {
    && cl != [] && v.clusterSize > 0
    && forall k: nat {:trigger cl[k]} :: k < |cl| ==> Whole(v, cl[k]) && (k + 1 < |cl| ==> Next(v, cl[k]) == cl[k + 1] != 0)
  }

  /** All the clusters of a chain that ends. */
  ghost predicate IsChain(v: Volume, cl: seq<nat>) {
    IsWalk(v, cl) && Next(v, cl[|cl| - 1]) == 0
  }

  /** A chain that ends meets no cluster twice. */
  lemma {:induction false} ChainDistinct(v: Volume, cl: seq<nat>, i: nat, j: nat)
    requires IsChain(v, cl) && i <= j < |cl| && cl[i] == cl[j]
    ensures i == j
    decreases |cl| - j
  {
    hide Whole, Next;
    assert i + 1 < |cl| ==> cl[i + 1] != 0;
    if j + 1 < |cl| {
      assert cl[j + 1] != 0;
      ChainDistinct(v, cl, i + 1, j + 1);
    }
  }

  /** The cluster dir_cluster holds after n + 1 steps, wherever the clusters lie; 0 from the end of the chain on. */
  function Steps(v: Volume, cluster: nat, n: nat): (c: nat)
    ensures c == 0 || 2 <= c < 0x1000_0000
  {
    if n == 0 then Next(v, cluster) else
      var c := Steps(v, cluster, n - 1);
      if c == 0 then 0 else Next(v, c)
  }

  ghost predicate Ends(v: Volume, cluster: nat) {
    exists n: nat :: Steps(v, cluster, n) == 0
  }

  /** The chain comes back to a cluster it met. */
  ghost predicate Returns(v: Volume, cluster: nat) {
    exists i: nat, j: nat :: i < j && Steps(v, cluster, i) == Steps(v, cluster, j) != 0
  }

  lemma {:induction false} EndStays(v: Volume, cluster: nat, n: nat, m: nat)
    requires Steps(v, cluster, n) == 0 && n <= m
    ensures Steps(v, cluster, m) == 0
  {
    hide Next;
    if n < m {
      EndStays(v, cluster, n, m - 1);
    }
  }

  lemma {:induction false} GoesRound(v: Volume, cluster: nat, i: nat, j: nat, n: nat)
    requires i < j && Steps(v, cluster, i) == Steps(v, cluster, j) && j <= n
    ensures Steps(v, cluster, n) == Steps(v, cluster, n - (j - i))
  {
    hide Next;
    if j < n {
      GoesRound(v, cluster, i, j, n - 1);
    }
  }

  /** A chain that comes back to a cluster it met has no end: dir_cluster runs for ever, and read_cluster goes round until
      the request is met. */
  lemma {:induction false} CycleNeverEnds(v: Volume, cluster: nat, i: nat, j: nat, n: nat)
    requires i < j && Steps(v, cluster, i) == Steps(v, cluster, j) != 0
    ensures Steps(v, cluster, n) != 0
  {
    hide Steps;
    if n <= j {
      if Steps(v, cluster, n) == 0 {
        EndStays(v, cluster, n, j);
      }
    } else {
      GoesRound(v, cluster, i, j, n);
      CycleNeverEnds(v, cluster, i, j, n - (j - i));
    }
  }

  /** More numbers below m than m do not all differ. */
  lemma {:induction false} Pigeonhole(s: seq<nat>, m: nat) returns (i: nat, j: nat)
    requires |s| > m && forall k: nat :: k < |s| ==> s[k] < m
    ensures i < j < |s| && s[i] == s[j]
    decreases m
  {
    assert s[0] < m;
    if k: nat :| k < |s| - 1 && s[k] == s[|s| - 1] {
      i, j := k, |s| - 1;
    } else if k: nat, l: nat :| k < l < |s| - 1 && s[k] == s[l] {
      i, j := k, l;
    } else if k: nat :| k < |s| - 1 && s[k] == m - 1 {
      var t := s[..|s| - 1][k := s[|s| - 1]];
      i, j := Pigeonhole(t, m - 1);
    } else {
      i, j := Pigeonhole(s[..|s| - 1], m - 1);
    }
  }

  /** A chain ends exactly when it never comes back to a cluster it met: the table has fewer than 2^28 clusters. */
  lemma EndsExactly(v: Volume, cluster: nat)
    ensures Ends(v, cluster) <==> !Returns(v, cluster)
  {
    hide Steps;
    if Returns(v, cluster) {
      var i: nat, j: nat :| i < j && Steps(v, cluster, i) == Steps(v, cluster, j) != 0;
      forall n: nat
        ensures Steps(v, cluster, n) != 0
      {
        CycleNeverEnds(v, cluster, i, j, n);
      }
    } else if !Ends(v, cluster) {
      var i, j := Met(v, cluster, 0x1000_0001);
      assert false;
    }
  }

  lemma Met(v: Volume, cluster: nat, n: nat) returns (i: nat, j: nat)
    requires n > 0x1000_0000
    ensures i < j < n && Steps(v, cluster, i) == Steps(v, cluster, j)
  {
    hide Steps;
    var s := seq(n, k requires 0 <= k < n => Steps(v, cluster, k));
    i, j := Pigeonhole(s, 0x1000_0000);
  }

  /** Is n the number of clusters of the chain? */
  ghost predicate IsLength(v: Volume, cluster: nat, n: nat) {
    n > 0 && Steps(v, cluster, n - 1) == 0 && forall m: nat :: m < n - 1 ==> Steps(v, cluster, m) != 0
  }

  /** dir_cluster, on every chain that ends, whether its clusters lie within the volume or not.  Its 32-bit counter does
      not wrap around. */
  method DirCluster(v: Volume, cluster: nat) returns (n: nat)
    requires Ends(v, cluster)
    ensures IsLength(v, cluster, n) && n <= 0x1000_0001
  {
    hide Next, Returns;
    ghost var end: nat :| Steps(v, cluster, end) == 0;
    n := 1;
    var c := Next(v, cluster);
    while c != 0
      invariant n > 0 && c == Steps(v, cluster, n - 1)
      invariant forall m: nat :: m < n - 1 ==> Steps(v, cluster, m) != 0
      invariant n - 1 <= end
      decreases end - n
    {
      if n - 1 == end {
        assert false;
      }
      c := Next(v, c);
      n := n + 1;
    }
    Short(v, cluster, n);
  }

  lemma Short(v: Volume, cluster: nat, n: nat)
    requires IsLength(v, cluster, n)
    ensures n <= 0x1000_0001
  {
    hide Steps;
    if n > 0x1000_0001 {
      var i, j := Met(v, cluster, n - 1);
      CycleNeverEnds(v, cluster, i, j, n - 1);
    }
  }

  /** The length of a chain within the volume is what dir_cluster counts. */
  lemma {:induction false} ChainSteps(v: Volume, cl: seq<nat>, n: nat)
    requires IsChain(v, cl) && n < |cl|
    ensures Steps(v, cl[0], n) == if n + 1 < |cl| then cl[n + 1] else 0
    ensures n + 1 < |cl| ==> cl[n + 1] != 0
  {
    hide Next, Whole;
    if n > 0 {
      ChainSteps(v, cl, n - 1);
    }
  }

  lemma ChainLength(v: Volume, cl: seq<nat>)
    requires IsChain(v, cl)
    ensures Ends(v, cl[0]) && forall n: nat :: IsLength(v, cl[0], n) <==> n == |cl|
  {
    hide Next, Whole, Steps;
    assert cl != [];
    forall m: nat | m < |cl|
      ensures Steps(v, cl[0], m) == 0 <==> m == |cl| - 1
    {
      ChainSteps(v, cl, m);
    }
    assert Steps(v, cl[0], |cl| - 1) == 0;
  }

  /** A table with a cycle: cluster 2 leads to 3, and 3 to 2. */
  lemma CycleExample(v: Volume)
    requires v.fat16 && v.table == 0 && v.disk == [0, 0, 0, 0, 3, 0, 2, 0]
    ensures !Ends(v, 2)
  {
    assert Next(v, 2) == 3 && Next(v, 3) == 2;
    assert Steps(v, 2, 0) == 3 && Steps(v, 2, 1) == 2 && Steps(v, 2, 2) == 3;
    EndsExactly(v, 2);
  }

  /** Where cluster k starts in the bytes of the chain. */
  function Top(size: nat, k: nat): nat {
    k * size
  }

  /** What lies at the given places, one after the other. */
  ghost function Joined(disk: seq<byte>, at: seq<nat>, size: nat): (r: seq<byte>)
    requires forall k: nat {:trigger at[k]} :: k < |at| ==> at[k] + size <= |disk|
    ensures |r| == Top(size, |at|)
  {
    if at == [] then [] else
      NextTop(size, |at| - 1);
      var n := |at| - 1;
      Joined(disk, at[..n], size) + disk[at[n]..at[n] + size]
  }

  ghost function Places(v: Volume, cl: seq<nat>): (r: seq<nat>)
    ensures |r| == |cl| && forall k: nat {:trigger r[k]} :: k < |cl| ==> r[k] == ClusterAt(v, cl[k])
  {
    seq(|cl|, k requires 0 <= k < |cl| => ClusterAt(v, cl[k]))
  }

  /** The bytes read_cluster finds along the chain, cluster after cluster. */
  ghost function Content(v: Volume, cl: seq<nat>): (r: seq<byte>)
    requires forall k: nat {:trigger cl[k]} :: k < |cl| ==> Whole(v, cl[k])
    ensures |r| == Top(v.clusterSize, |cl|)
  {
    assert forall k: nat {:trigger Places(v, cl)[k]} :: k < |cl| ==> Whole(v, cl[k]);
    Joined(v.disk, Places(v, cl), v.clusterSize)
  }

  /** Where the data of a cluster is. */
  function DataAt(v: Volume, cluster: nat): nat
    requires cluster >= 2
  {
    v.start + (cluster - 2) * v.clusterSize
  }

  ghost function DataPlaces(v: Volume, cl: seq<nat>): (r: seq<nat>)
    requires forall k: nat {:trigger cl[k]} :: k < |cl| ==> cl[k] >= 2
    ensures |r| == |cl| && forall k: nat {:trigger r[k]} :: k < |cl| ==> r[k] == DataAt(v, cl[k])
  {
    seq(|cl|, k requires 0 <= k < |cl| => DataAt(v, cl[k]))
  }

  ghost predicate Holds(v: Volume, cl: seq<nat>) {
    forall k: nat {:trigger cl[k]} :: k < |cl| ==> cl[k] >= 2 && DataAt(v, cl[k]) + v.clusterSize <= |v.disk|
  }

  /** The bytes of the chain. */
  ghost function Data(v: Volume, cl: seq<nat>): (r: seq<byte>)
    requires Holds(v, cl)
    ensures |r| == Top(v.clusterSize, |cl|)
  {
    Joined(v.disk, DataPlaces(v, cl), v.clusterSize)
  }

  /** The cluster lies in the first 4 GiB of data. */
  predicate Near(v: Volume, cluster: nat) {
    (cluster - 2) * v.clusterSize < 0x1_0000_0000
  }

  /** So do all the clusters that bytes lo, ..., hi - 1 of the chain are in. */
  ghost predicate AllNear(v: Volume, cl: seq<nat>, lo: nat, hi: nat) {
    forall k: nat {:trigger cl[k]} ::
      k < |cl| && Top(v.clusterSize, k) < hi && lo < Top(v.clusterSize, k) + v.clusterSize ==> Near(v, cl[k])
  }

  lemma PlaceIsData(v: Volume, cluster: nat)
    requires cluster >= 2
    ensures ClusterAt(v, cluster) == DataAt(v, cluster) <==> Near(v, cluster)
    ensures ClusterAt(v, cluster) <= DataAt(v, cluster)
  {
    var x := (cluster - 2) * v.clusterSize;
    assert x >= 0;
  }

  /** Two lists of places give the same bytes from lo to hi, whatever the disk holds, exactly when the places used are the
      same. */
  lemma SamePlaces(len: nat, at: seq<nat>, at': seq<nat>, size: nat, lo: nat, hi: nat)
    requires |at| == |at'| && lo < hi <= Top(size, |at|)
    requires forall k: nat {:trigger at[k]} :: k < |at| ==> at[k] + size <= len
    requires forall k: nat {:trigger at'[k]} :: k < |at| ==> at'[k] + size <= len
    ensures (forall disk: seq<byte> {:trigger Joined(disk, at', size)} :: |disk| == len ==>
               Joined(disk, at, size)[lo..hi] == Joined(disk, at', size)[lo..hi])
            <==> forall k: nat {:trigger at[k]} :: k < |at| && Top(size, k) < hi && lo < Top(size, k) + size ==> at[k] == at'[k]
  {
    hide Top;
    if forall k: nat {:trigger at[k]} :: k < |at| && Top(size, k) < hi && lo < Top(size, k) + size ==> at[k] == at'[k] {
      forall disk: seq<byte> | |disk| == len
        ensures Joined(disk, at, size)[lo..hi] == Joined(disk, at', size)[lo..hi]
      {
        JoinedSame(disk, at, at', size, lo, hi);
      }
    } else {
      var k: nat :| k < |at| && Top(size, k) < hi && lo < Top(size, k) + size && at[k] != at'[k];
      Differs(len, at, at', size, lo, hi, k);
    }
  }

  lemma JoinedSame(disk: seq<byte>, at: seq<nat>, at': seq<nat>, size: nat, lo: nat, hi: nat)
    requires |at| == |at'| && lo <= hi <= Top(size, |at|)
    requires forall k: nat {:trigger at[k]} :: k < |at| ==> at[k] + size <= |disk|
    requires forall k: nat {:trigger at'[k]} :: k < |at| ==> at'[k] + size <= |disk|
    requires forall k: nat {:trigger at[k]} :: k < |at| && Top(size, k) < hi && lo < Top(size, k) + size ==> at[k] == at'[k]
    ensures Joined(disk, at, size)[lo..hi] == Joined(disk, at', size)[lo..hi]
  {
    hide Top, Joined;
    var s, t := Joined(disk, at, size), Joined(disk, at', size);
    forall i: nat | lo <= i < hi
      ensures s[i] == t[i]
    {
      var k := Where(size, |at|, i);
      JoinedByte(disk, at, size, k, i);
      JoinedByte(disk, at', size, k, i);
    }
    SameSlice(s, t, lo, hi);
  }

  lemma SameSlice(s: seq<byte>, t: seq<byte>, lo: nat, hi: nat)
    requires lo <= hi <= |s| == |t| && forall i: nat :: lo <= i < hi ==> s[i] == t[i]
    ensures s[lo..hi] == t[lo..hi]
  {
  }

  lemma Differs(len: nat, at: seq<nat>, at': seq<nat>, size: nat, lo: nat, hi: nat, k: nat)
    requires |at| == |at'| && lo < hi <= Top(size, |at|)
    requires forall k: nat {:trigger at[k]} :: k < |at| ==> at[k] + size <= len
    requires forall k: nat {:trigger at'[k]} :: k < |at| ==> at'[k] + size <= len
    requires k < |at| && Top(size, k) < hi && lo < Top(size, k) + size && at[k] != at'[k]
    ensures exists disk: seq<byte> {:trigger Joined(disk, at', size)} ::
              |disk| == len && Joined(disk, at, size)[lo..hi] != Joined(disk, at', size)[lo..hi]
  {
    hide Top, Joined;
    var part := Where(size, |at|, lo);
    var i := Max(lo, Top(size, k));
    var disk: seq<byte> := seq(len, x => if x == at'[k] + (i - Top(size, k)) then 1 else 0);
    JoinedByte(disk, at, size, k, i);
    JoinedByte(disk, at', size, k, i);
    var s, t := Joined(disk, at, size), Joined(disk, at', size);
    assert s[lo..hi][i - lo] == s[i] && t[lo..hi][i - lo] == t[i];
  }

  /** The part that byte i lies in. */
  lemma {:induction false} Where(size: nat, n: nat, i: nat) returns (k: nat)
    requires i < Top(size, n)
    ensures k < n && Top(size, k) <= i < Top(size, k) + size
  {
    NextTop(size, n - 1);
    if i >= Top(size, n - 1) {
      k := n - 1;
    } else {
      k := Where(size, n - 1, i);
    }
  }

  lemma JoinedByte(disk: seq<byte>, at: seq<nat>, size: nat, k: nat, i: nat)
    requires forall k: nat {:trigger at[k]} :: k < |at| ==> at[k] + size <= |disk|
    requires k < |at| && Top(size, k) <= i < Top(size, k) + size
    ensures i < |Joined(disk, at, size)| && Joined(disk, at, size)[i] == disk[at[k] + (i - Top(size, k))]
  {
    hide Top, Joined;
    var top := Top(size, k);
    JoinedAt(disk, at, size, k, top);
    assert Joined(disk, at, size)[top..top + size][i - top] == Joined(disk, at, size)[i];
    assert disk[at[k]..at[k] + size][i - top] == disk[at[k] + (i - top)];
  }

  lemma HeldIsWhole(v: Volume, cl: seq<nat>)
    requires Holds(v, cl)
    ensures forall k: nat {:trigger cl[k]} :: k < |cl| ==>
              Whole(v, cl[k]) && (ClusterAt(v, cl[k]) == DataAt(v, cl[k]) <==> Near(v, cl[k]))
  {
    hide ClusterAt, DataAt, Near;
    forall k: nat | k < |cl|
      ensures Whole(v, cl[k]) && (ClusterAt(v, cl[k]) == DataAt(v, cl[k]) <==> Near(v, cl[k]))
    {
      PlaceIsData(v, cl[k]);
    }
  }

  /** read_cluster finds the bytes of the chain from lo to hi, whatever the volume holds, exactly when the clusters they
      are in lie in the first 4 GiB of data. */
  lemma FindsItsData(v: Volume, cl: seq<nat>, lo: nat, hi: nat)
    requires Holds(v, cl) && lo < hi <= Top(v.clusterSize, |cl|)
    ensures FindsAlways(v, cl, lo, hi) <==> AllNear(v, cl, lo, hi)
  {
    hide Top, ClusterAt, DataAt, Joined, Near, Whole, Content, Data;
    HeldIsWhole(v, cl);
    var at, at' := Places(v, cl), DataPlaces(v, cl);
    PlacesFit(v, cl);
    SamePlaces(|v.disk|, at, at', v.clusterSize, lo, hi);
    if FindsAlways(v, cl, lo, hi) {
      forall disk: seq<byte> | |disk| == |v.disk|
        ensures Joined(disk, at, v.clusterSize)[lo..hi] == Joined(disk, at', v.clusterSize)[lo..hi]
      {
        SameVolume(v, disk, cl);
      }
      forall k: nat | k < |cl| && Top(v.clusterSize, k) < hi && lo < Top(v.clusterSize, k) + v.clusterSize
        ensures Near(v, cl[k])
      {
        assert at[k] == at'[k];
      }
    } else {
      var disk: seq<byte> :| |disk| == |v.disk| && !FindsIn(v, disk, cl, lo, hi);
      SameVolume(v, disk, cl);
      assert Joined(disk, at, v.clusterSize)[lo..hi] != Joined(disk, at', v.clusterSize)[lo..hi];
      var k: nat :| k < |at| && Top(v.clusterSize, k) < hi && lo < Top(v.clusterSize, k) + v.clusterSize && at[k] != at'[k];
      assert !Near(v, cl[k]);
    }
  }

  /** With these bytes on the volume, does it find the bytes of the chain? */
  ghost predicate FindsIn(v: Volume, disk: seq<byte>, cl: seq<nat>, lo: nat, hi: nat)
    requires Holds(v, cl) && |disk| == |v.disk| && lo <= hi <= Top(v.clusterSize, |cl|)
  {
    HeldIsWhole(v, cl);
    SameVolume(v, disk, cl);
    Content(v.(disk := disk), cl)[lo..hi] == Data(v.(disk := disk), cl)[lo..hi]
  }

  ghost predicate FindsAlways(v: Volume, cl: seq<nat>, lo: nat, hi: nat)
    requires Holds(v, cl) && lo <= hi <= Top(v.clusterSize, |cl|)
  {
    forall disk: seq<byte> :: |disk| == |v.disk| ==> FindsIn(v, disk, cl, lo, hi)
  }

  lemma PlacesFit(v: Volume, cl: seq<nat>)
    requires Holds(v, cl)
    ensures forall k: nat {:trigger Places(v, cl)[k]} :: k < |cl| ==> Places(v, cl)[k] + v.clusterSize <= |v.disk|
    ensures forall k: nat {:trigger DataPlaces(v, cl)[k]} :: k < |cl| ==> DataPlaces(v, cl)[k] + v.clusterSize <= |v.disk|
  {
    hide ClusterAt, DataAt;
    HeldIsWhole(v, cl);
  }

  lemma SameVolume(v: Volume, disk: seq<byte>, cl: seq<nat>)
    requires Holds(v, cl) && |disk| == |v.disk| && forall k: nat {:trigger cl[k]} :: k < |cl| ==> Whole(v, cl[k])
    ensures var w := v.(disk := disk);
            && Holds(w, cl) && (forall k: nat {:trigger cl[k]} :: k < |cl| ==> Whole(w, cl[k]))
            && Content(w, cl) == Joined(disk, Places(v, cl), v.clusterSize)
            && Data(w, cl) == Joined(disk, DataPlaces(v, cl), v.clusterSize)
  {
    var w := v.(disk := disk);
    assert Places(w, cl) == Places(v, cl) && DataPlaces(w, cl) == DataPlaces(v, cl);
  }

  lemma NearIsFound(v: Volume, cl: seq<nat>, lo: nat, hi: nat)
    requires Holds(v, cl) && lo < hi <= Top(v.clusterSize, |cl|) && AllNear(v, cl, lo, hi)
    ensures forall k: nat {:trigger cl[k]} :: k < |cl| ==> Whole(v, cl[k])
    ensures Content(v, cl)[lo..hi] == Data(v, cl)[lo..hi]
  {
    hide Top, Whole, AllNear, Content, Data;
    FindsItsData(v, cl, lo, hi);
    assert FindsIn(v, v.disk, cl, lo, hi) && v.(disk := v.disk) == v;
    HeldIsWhole(v, cl);
  }

  /** The first cluster beyond 4 GiB of data, with clusters of 32 KiB, is read where cluster 2 is. */
  lemma FarExample(v: Volume)
    requires v.clusterSize == 0x8000
    ensures ClusterAt(v, 0x2_0002) == ClusterAt(v, 2) == DataAt(v, 2) != DataAt(v, 0x2_0002)
  {
  }

  lemma NextTop(size: nat, k: nat)
    ensures Top(size, k + 1) == Top(size, k) + size
  {
  }

  lemma TopsBelow(size: nat, k: nat, n: nat)
    requires k < n
    ensures Top(size, k) + size <= Top(size, n)
  {
    assert (n - k - 1) * size >= 0;
    assert n * size == k * size + size + (n - k - 1) * size;
  }

  lemma {:induction false} JoinedAt(disk: seq<byte>, at: seq<nat>, size: nat, k: nat, top: nat)
    requires forall k: nat {:trigger at[k]} :: k < |at| ==> at[k] + size <= |disk|
    requires k < |at| && top == Top(size, k)
    ensures top + size <= |Joined(disk, at, size)|
    ensures Joined(disk, at, size)[top..top + size] == disk[at[k]..at[k] + size]
  {
    hide Top;
    var n := |at| - 1;
    NextTop(size, n);
    var before, last := Joined(disk, at[..n], size), disk[at[n]..at[n] + size];
    assert Joined(disk, at, size) == before + last;
    if k < n {
      JoinedAt(disk, at[..n], size, k, top);
      hide Joined;
      Within(before, last, top, size);
    } else {
      assert top == |before|;
      hide Joined;
      assert (before + last)[top..top + size] == last;
    }
  }

  lemma ContentAt(v: Volume, cl: seq<nat>, k: nat, top: nat)
    requires forall k: nat {:trigger cl[k]} :: k < |cl| ==> Whole(v, cl[k])
    requires k < |cl| && top == Top(v.clusterSize, k)
    ensures top + v.clusterSize <= |Content(v, cl)|
    ensures Content(v, cl)[top..top + v.clusterSize] == v.disk[ClusterAt(v, cl[k])..ClusterAt(v, cl[k]) + v.clusterSize]
  {
    hide Top, Joined, ClusterAt;
    JoinedAt(v.disk, Places(v, cl), v.clusterSize, k, top);
  }

  lemma Within(a: seq<byte>, b: seq<byte>, at: nat, n: nat)
    requires at + n <= |a|
    ensures (a + b)[at..at + n] == a[at..at + n]
  {
  }

  /** disk_read of a part of the volume; the disk may refuse. */
  method DiskRead(v: Volume, buf: array<byte>, at: nat, count: nat, offset: nat) returns (i: int)
    requires at + count <= buf.Length && offset + count <= |v.disk|
    modifies buf
    ensures i == count || (i == -1 && !v.sound)
    ensures i == count ==> buf[..] == old(buf[..at]) + v.disk[offset..offset + count] + old(buf[at + count..])
  {
    var refused := *;
    if refused && !v.sound {
      return -1;
    }
    forall k: nat | k < count {
      buf[at + k] := v.disk[offset + k];
    }
    return count;
  }

  /** Byte i of the buffer once the request has been read up to `end`, counted from the start of its first cluster
      (which is at `base` in the chain): the bytes of the first cluster land at 0, all the others at their distance
      from `base`, and a gap as long as the bytes skipped in the first cluster stays as it was. */
  function Landed(was: seq<byte>, data: seq<byte>, base: nat, size: nat, offset: nat, end: nat, i: nat): byte
    requires i < |was| && base <= offset && base + end <= |data|
  {
    if i < Min(size, end) - (offset - base) then data[offset + i]
    else if size <= i < end then data[base + i]
    else was[i]
  }

  ghost predicate Placed(now: seq<byte>, was: seq<byte>, data: seq<byte>, base: nat, size: nat, offset: nat, end: nat) {
    && |now| == |was| && base <= offset && base + end <= |data|
    && forall i: nat {:trigger now[i]} :: i < |now| ==> now[i] == Landed(was, data, base, size, offset, end, i)
  }

  /** One disk_read inside cluster k, which is at `top` in the chain. */
  method ReadPart(v: Volume, buf: array<byte>, at: nat, count: nat, off: nat, cluster: nat, ghost cl: seq<nat>, ghost k: nat,
        ghost top: nat)
    returns (i: int)
    requires IsWalk(v, cl) && k < |cl| && cluster == cl[k] && top == Top(v.clusterSize, k)
    requires off + count <= v.clusterSize && at + count <= buf.Length
    modifies buf
    ensures i == count || (i == -1 && !v.sound)
    ensures top + v.clusterSize <= |Content(v, cl)|
    ensures i == count ==>
              buf[..] == old(buf[..at]) + Content(v, cl)[top + off..top + off + count] + old(buf[at + count..])
  {
    hide Content, ClusterAt, Next, Top;
    ContentAt(v, cl, k, top);
    assert Whole(v, cluster);
    PartAgrees(Content(v, cl), v.disk, top, ClusterAt(v, cluster), v.clusterSize, off, count);
    i := DiskRead(v, buf, at, count, ClusterAt(v, cluster) + off);
  }

  lemma PartAgrees(a: seq<byte>, b: seq<byte>, x: nat, y: nat, size: nat, off: nat, count: nat)
    requires x + size <= |a| && y + size <= |b| && off + count <= size && a[x..x + size] == b[y..y + size]
    ensures a[x + off..x + off + count] == b[y + off..y + off + count]
  {
    var s, t := a[x + off..x + off + count], b[y + off..y + off + count];
    forall i: nat | i < count
      ensures s[i] == t[i]
    {
      assert a[x..x + size][off + i] == b[y..y + size][off + i];
    }
  }

  lemma PlacedFirst(now: seq<byte>, was: seq<byte>, data: seq<byte>, base: nat, size: nat, offset: nat, n: nat)
    requires base <= offset && offset - base + n <= size && offset + n <= |data| && n <= |was|
    requires now == was[..0] + data[offset..offset + n] + was[n..]
    ensures Placed(now, was, data, base, size, offset, offset - base + n)
  {
  }

  lemma PlacedMore(now': seq<byte>, now: seq<byte>, was: seq<byte>, data: seq<byte>, base: nat, size: nat, offset: nat, at: nat, n: nat)
    requires Placed(now, was, data, base, size, offset, at) && size <= at && at + n <= |now| && base + at + n <= |data|
    requires offset - base <= size
    requires now' == now[..at] + data[base + at..base + at + n] + now[at + n..]
    ensures Placed(now', was, data, base, size, offset, at + n)
  {
  }

  /** One turn's read: the first, from `off` in its cluster, or a later one. */
  method ReadHere(v: Volume, buf: array<byte>, at: nat, part: nat, off: nat, c: nat, ghost cl: seq<nat>, ghost k: nat, ghost top: nat,
        ghost was: seq<byte>, ghost base: nat, ghost offset: nat)
    returns (i: int)
    requires IsWalk(v, cl) && k < |cl| && c == cl[k] && top == Top(v.clusterSize, k)
    requires off + part <= v.clusterSize && at + part <= buf.Length && base <= offset < base + v.clusterSize
    requires at == 0 ==> buf[..] == was && base == top && offset == top + off
    requires at > 0 ==> at >= v.clusterSize && off == 0 && top == base + at
    requires at > 0 ==> Placed(buf[..], was, Content(v, cl), base, v.clusterSize, offset, at)
    modifies buf
    ensures i == part || (i == -1 && !v.sound)
    ensures i == part ==> Placed(buf[..], was, Content(v, cl), base, v.clusterSize, offset, at + off + part)
  {
    hide Top, Content, Placed, Next, Whole, ClusterAt;
    ghost var now := buf[..];
    i := ReadPart(v, buf, at, part, off, c, cl, k, top);
    if i == part {
      if at == 0 {
        PlacedFirst(buf[..], was, Content(v, cl), base, v.clusterSize, offset, part);
      } else {
        PlacedMore(buf[..], now, was, Content(v, cl), base, v.clusterSize, offset, at, part);
      }
    }
  }

  /** read_cluster, for a chain that ends or has the bytes asked for before it comes back on itself.  The request starts
      in cluster q, which is at `base` in the chain, and its length fits the signed result. */
  method ReadCluster(v: Volume, buf: array<byte>, cluster: nat, count: nat, offset: nat, ghost cl: seq<nat>, ghost q: nat,
        ghost base: nat)
    returns (r: int)
    requires IsWalk(v, cl) && cl[0] == cluster && base == Top(v.clusterSize, q)
    requires Next(v, cl[|cl| - 1]) == 0 || (offset < |Content(v, cl)| && offset + count <= |Content(v, cl)|)
    requires base <= offset < base + v.clusterSize && count < 0x8000_0000
    requires (if offset - base + count <= v.clusterSize then count else offset - base + count) <= buf.Length
    modifies buf
    ensures r == -1 ==> !v.sound
    ensures r == -1 || r == Max(0, Min(count, |Content(v, cl)| - offset))
    ensures q < |cl| && r != -1 ==>
              Placed(buf[..], old(buf[..]), Content(v, cl), base, v.clusterSize, offset, offset - base + r)
    ensures q >= |cl| && r != -1 ==> buf[..] == old(buf[..])
  {
    hide Top, Content, Next, Placed;
    ghost var k, top, was := 0, 0, buf[..];
    var n: nat, at: nat, c, off: nat, left: nat := 0, 0, cluster, offset, count;
    FirstTop(v.clusterSize);
    while true
      invariant k < |cl| && c == cl[k] && top == Top(v.clusterSize, k)
      invariant at == 0 ==> k <= q && n == 0 && off == offset - top && left == count && buf[..] == was
      invariant at > 0 ==> k > q && top == base + at && at >= v.clusterSize && off == 0 && n == top - offset && left == count - n
      invariant at > 0 ==> left > 0 && Placed(buf[..], was, Content(v, cl), base, v.clusterSize, offset, at)
      decreases |cl| - k
    {
      Position(v.clusterSize, k, q, |cl|);
      if off < v.clusterSize {
        var part := Min(left, v.clusterSize - off);
        var i := ReadHere(v, buf, at, part, off, c, cl, k, top, was, base, offset);
        if i == -1 {
          return -1;
        }
        n := n + i;
        if off + left > v.clusterSize {
          left := left - (v.clusterSize - off);
          off := 0;
          at := at + v.clusterSize - off;
        } else {
          return n;
        }
      } else {
        off := off - v.clusterSize;
      }
      NextTop(v.clusterSize, k);
      NextInChain(v, cl, k);
      c := Next(v, c);
      if c == 0 {
        return n;
      }
      k, top := k + 1, top + v.clusterSize;
    }
  }

  lemma FirstTop(size: nat)
    ensures Top(size, 0) == 0
  {
  }

  lemma Position(size: nat, k: nat, q: nat, n: nat)
    requires k < n
    ensures k < q ==> Top(size, k) + size <= Top(size, q)
    ensures Top(size, k) + size <= Top(size, n)
    ensures n <= q ==> Top(size, n) <= Top(size, q)
    ensures q < n ==> Top(size, q) + size <= Top(size, n)
  {
    if k < q {
      TopsBelow(size, k, q);
    }
    TopsBelow(size, k, n);
    if n < q {
      TopsBelow(size, n, q);
    }
    if q < n {
      TopsBelow(size, q, n);
    }
  }

  lemma NextInChain(v: Volume, cl: seq<nat>, k: nat)
    requires IsWalk(v, cl) && k < |cl|
    ensures k + 1 < |cl| ==> Next(v, cl[k]) == cl[k + 1] != 0
  {
    hide Next, Whole;
  }

  /** So what is asked for arrives in place, whatever the buffer held, exactly when the request starts a cluster or ends
      in the one it starts in.  Otherwise the gap keeps what the buffer held before. */
  lemma ReadExactly(data: seq<byte>, base: nat, size: nat, offset: nat, count: nat)
    requires base <= offset < base + size && 0 < count && offset + count <= |data|
    ensures (forall was: seq<byte>, now: seq<byte> {:trigger Placed(now, was, data, base, size, offset, offset - base + count)} ::
               |was| >= offset - base + count && Placed(now, was, data, base, size, offset, offset - base + count) ==>
               now[..count] == data[offset..offset + count])
            <==> offset == base || offset - base + count <= size
  {
    var o := offset - base;
    var end := o + count;
    if o > 0 && end > size {
      var b: byte := if data[base + size] == 0 then 1 else 0;
      var was := seq(end, _ => b);
      var now := seq(end, i requires 0 <= i < end => Landed(was, data, base, size, offset, end, i));
      assert Placed(now, was, data, base, size, offset, end);
      assert now[..count][size - o] == b && data[offset..offset + count][size - o] == data[base + size];
    }
  }

  /** A request that is not read in place: 32 bytes from byte 1 on, clusters of 32 bytes.  The last of them, byte 32 of
      the chain, lands one place behind where it belongs. */
  lemma MisplacedExample(now: seq<byte>, was: seq<byte>, data: seq<byte>)
    requires |was| == 33 && was[31] == 0 && |data| == 64 && data[32] == 7
    requires Placed(now, was, data, 0, 32, 1, 33)
    ensures now[..32] != data[1..33] && now[31] == 0 && now[32] == 7
  {
    assert now[31] == Landed(was, data, 0, 32, 1, 33, 31);
    assert now[..32][31] != data[1..33][31];
  }
}
