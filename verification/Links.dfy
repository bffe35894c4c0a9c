/** The allocation table as a list of links: what next_cluster of kernel/fs/fat.c reads is what was written there. */
module Links {
  import opened Basics
  import opened Clusters

  /** A table with two bytes for each cluster, the lower first. */
  ghost function Table16(links: seq<nat>): (s: seq<byte>)
    requires forall c: nat {:trigger links[c]} :: c < |links| ==> links[c] < 0x1_0000
    ensures |s| == 2 * |links|
  {
    if links == [] then [] else [links[0] % 0x100, links[0] / 0x100] + Table16(links[1..])
  }

  /** A table with four bytes for each cluster, the lowest first. */
  ghost function Table32(links: seq<nat>): (s: seq<byte>)
    requires forall c: nat {:trigger links[c]} :: c < |links| ==> links[c] < 0x1_0000_0000
    ensures |s| == 4 * |links|
  {
    if links == [] then []
    else
      var x := links[0];
      [x % 0x100, x / 0x100 % 0x100, x / 0x1_0000 % 0x100, x / 0x100_0000] + Table32(links[1..])
  }

  lemma {:induction false} At16(links: seq<nat>, c: nat)
    requires forall c: nat {:trigger links[c]} :: c < |links| ==> links[c] < 0x1_0000
    requires c < |links|
    ensures Word16(Table16(links), 2 * c) == links[c]
  {
    if c > 0 {
      At16(links[1..], c - 1);
      assert Table16(links)[2 * c] == Table16(links[1..])[2 * c - 2];
      assert Table16(links)[2 * c + 1] == Table16(links[1..])[2 * c - 1];
    }
  }

  lemma Halves(x: nat)
    ensures x == x % 0x100 + 0x100 * (x / 0x100)
    ensures x / 0x100 / 0x100 == x / 0x1_0000 && x / 0x1_0000 / 0x100 == x / 0x100_0000
  {
  }

  lemma Bytes32(x: nat)
    requires x < 0x1_0000_0000
    ensures x == x % 0x100 + x / 0x100 % 0x100 * 0x100 + (x / 0x1_0000 % 0x100 + x / 0x100_0000 * 0x100) * 0x1_0000
  {
    Halves(x);
    Halves(x / 0x100);
    Halves(x / 0x1_0000);
  }

  lemma {:induction false} At32(links: seq<nat>, c: nat)
    requires forall c: nat {:trigger links[c]} :: c < |links| ==> links[c] < 0x1_0000_0000
    requires c < |links|
    ensures Word32(Table32(links), 4 * c) == links[c]
  {
    var t := Table32(links);
    if c == 0 {
      Bytes32(links[0]);
    } else {
      At32(links[1..], c - 1);
      assert t[4 * c] == Table32(links[1..])[4 * c - 4] && t[4 * c + 1] == Table32(links[1..])[4 * c - 3];
      assert t[4 * c + 2] == Table32(links[1..])[4 * c - 2] && t[4 * c + 3] == Table32(links[1..])[4 * c - 1];
    }
  }

  /** The disk holds the table, from the first byte of the volume's table on. */
  ghost predicate Written(v: Volume, links: seq<nat>) {
    && (forall c: nat {:trigger links[c]} :: c < |links| ==> links[c] < if v.fat16 then 0x1_0000 else 0x1_0000_0000)
    && var s := if v.fat16 then Table16(links) else Table32(links);
       v.table + |s| <= |v.disk| && v.disk[v.table..v.table + |s|] == s
  }

  lemma SameWords(s: seq<byte>, t: seq<byte>, from: nat, at: nat)
    requires from + |t| <= |s| && s[from..from + |t|] == t
    ensures at + 2 <= |t| ==> Word16(s, from + at) == Word16(t, at)
    ensures at + 4 <= |t| ==> Word32(s, from + at) == Word32(t, at)
  {
    assert forall k: nat {:trigger t[k]} :: k < |t| ==> s[from..from + |t|][k] == s[from + k];
  }

  lemma Wraps16(x: nat)
    ensures x * 2 % 0x1_0000_0000 == 2 * (x % 0x8000_0000)
  {
    assert x == 0x8000_0000 * (x / 0x8000_0000) + x % 0x8000_0000;
  }

  lemma Wraps32(x: nat)
    ensures x * 4 % 0x1_0000_0000 == 4 * (x % 0x4000_0000)
  {
    assert x == 0x4000_0000 * (x / 0x4000_0000) + x % 0x4000_0000;
  }

  /** next_cluster gives back the link written for the cluster, and 0 for a link that is no cluster.  From 2^31 (2^30)
      on, the number of a cluster wraps around. */
  lemma LinkRead(v: Volume, links: seq<nat>, cluster: nat)
    requires Written(v, links)
    ensures v.fat16 && cluster % 0x8000_0000 < |links| ==>
              var x := links[cluster % 0x8000_0000]; Next(v, cluster) == if 2 <= x <= 0xffef then x else 0
    ensures !v.fat16 && cluster % 0x4000_0000 < |links| ==>
              var x := links[cluster % 0x4000_0000]; Next(v, cluster) == if 2 <= x <= 0xfff_ffef then x else 0
  {
    hide Word16, Word32, Table16, Table32;
    if v.fat16 {
      Wraps16(cluster);
      var c := cluster % 0x8000_0000;
      if c < |links| {
        At16(links, c);
        SameWords(v.disk, Table16(links), v.table, 2 * c);
      }
    } else {
      Wraps32(cluster);
      var c := cluster % 0x4000_0000;
      if c < |links| {
        At32(links, c);
        SameWords(v.disk, Table32(links), v.table, 4 * c);
      }
    }
  }

  /** A list of clusters written into the table as links, with any end mark, is the chain that is followed. */
  lemma ChainRead(v: Volume, links: seq<nat>, cl: seq<nat>)
    requires Written(v, links) && cl != [] && v.clusterSize > 0
    requires forall k: nat {:trigger cl[k]} :: k < |cl| ==> 2 <= cl[k] < |links| && Whole(v, cl[k])
    requires forall k: nat {:trigger cl[k]} :: k < |cl| ==> cl[k] <= if v.fat16 then 0xffef else 0xfff_ffef
    requires forall k: nat {:trigger cl[k]} :: k + 1 < |cl| ==> links[cl[k]] == cl[k + 1]
    requires links[cl[|cl| - 1]] < 2 || links[cl[|cl| - 1]] > if v.fat16 then 0xffef else 0xfff_ffef
    ensures IsChain(v, cl)
  {
    hide Whole, Next, Written;
    forall k: nat {:trigger cl[k]} | k < |cl|
      ensures Next(v, cl[k]) == if k + 1 < |cl| then cl[k + 1] else 0
    {
      LinkRead(v, links, cl[k]);
      assert links[cl[k]] == if k + 1 < |cl| then cl[k + 1] else links[cl[|cl| - 1]];
    }
  }
}
