/** Two-level page tables in physical memory, on values (kernel/mm/umm.c; section 4.3, 32-bit paging, of the Intel
    SDM, volume 3A).  A directory or table is a frame of 1024 words; `use` says what each frame of an address space
    is for, and being a map it gives every frame one use. */
module Spaces {
  import opened Page
  import opened Slots

  type Memory = seq<seq<word>>  // words of each frame

  datatype Use = Directory(dir: nat) | Table(dir: nat, m: nat) | UserPage(dir: nat, n: nat)

  function Word(mem: Memory, f: nat, k: nat): word {
    if f < |mem| && k < |mem[f]| then mem[f][k] else 0
  }

  function Store(mem: Memory, f: nat, k: nat, v: word): (r: Memory)
    ensures |r| == |mem|
    ensures forall g: nat, j: nat {:trigger Word(r, g, j)} ::
              Word(r, g, j) == if g == f && j == k && f < |mem| && k < |mem[f]| then v else Word(mem, g, j)
    ensures forall g: nat {:trigger r[g]} :: g < |mem| ==> |r[g]| == |mem[g]|
  {
    if f < |mem| && k < |mem[f]| then
      var row: seq<word> := mem[f][k := v];
      mem[f := row]
    else mem
  }

  ghost predicate Sized(mem: Memory, pages: nat) {
    |mem| == pages && forall f: nat {:trigger mem[f]} :: f < pages ==> |mem[f]| == 0x400
  }

  /** get_umm_value */
  function GetValue(mem: Memory, d: nat, attr: word): word {
    if Word(mem, d, PdeIndex(attr)) == 0 then 0
    else Word(mem, FrameOf(Word(mem, d, PdeIndex(attr))), PteIndex(attr))
  }

  /** The entry of page n of the address space with directory d. */
  function Flat(mem: Memory, d: nat, n: nat): word {
    if Word(mem, d, n / 0x400) == 0 then 0 else Word(mem, FrameOf(Word(mem, d, n / 0x400)), n % 0x400)
  }

  lemma GetIsFlat(mem: Memory, d: nat, attr: word)
    ensures GetValue(mem, d, attr) == Flat(mem, d, FrameOf(attr))
  {
  }

  ghost predicate IsDir(use: map<nat, Use>, d: nat) {
    d in use && use[d] == Directory(d)
  }

  /** Every directory entry below the kernel's is 0 or names the table of that entry, present, writable and open to the
      user, and a table is named by the entry it is for. */
  ghost predicate TablesOk(mem: Memory, use: map<nat, Use>) {
    && (forall f: nat {:trigger f in use} :: f in use ==>
          0 < f < |mem| && f < 0x100000 && (use[f].Directory? ==> use[f].dir == f))
    && (forall d: nat, m: nat {:trigger Word(mem, d, m)} :: IsDir(use, d) && m < KERNEL_PDE && Word(mem, d, m) != 0 ==>
          Word(mem, d, m) % 0x1000 == 7 && FrameOf(Word(mem, d, m)) in use && use[FrameOf(Word(mem, d, m))] == Table(d, m))
    && (forall t: nat {:trigger use[t]} :: t in use && use[t].Table? ==>
          IsDir(use, use[t].dir) && use[t].m < KERNEL_PDE && FrameOf(Word(mem, use[t].dir, use[t].m)) == t)
  }

  /** The entries of every directory from the kernel's first one on are those of the kernel directory. */
  ghost predicate KernelShared(mem: Memory, use: map<nat, Use>, kernel: seq<word>) {
    |kernel| == 0x400 &&
    forall d: nat, m: nat {:trigger Word(mem, d, m)} :: IsDir(use, d) && KERNEL_PDE <= m < 0x400 ==> Word(mem, d, m) == kernel[m]
  }

  /** Every user page has the entry 0, or one that is present, writable and open to the user, with a frame of its own; and
      every user frame is mapped at its page. */
  ghost predicate PagesOk(mem: Memory, use: map<nat, Use>) {
    && (forall d: nat, n: nat {:trigger Flat(mem, d, n)} :: IsDir(use, d) && n < USER_PAGES && Flat(mem, d, n) != 0 ==>
          Flat(mem, d, n) % 0x1000 == 7 && FrameOf(Flat(mem, d, n)) in use && use[FrameOf(Flat(mem, d, n))] == UserPage(d, n))
    && (forall f: nat {:trigger use[f]} :: f in use && use[f].UserPage? ==>
          IsDir(use, use[f].dir) && use[f].n < USER_PAGES && FrameOf(Flat(mem, use[f].dir, use[f].n)) == f)
  }

  /** Frame t, all of its words 0. */
  function Zeroed(mem: Memory, t: nat, n: nat): (r: Memory)
    ensures |r| == |mem|
    ensures forall g: nat, j: nat {:trigger Word(r, g, j)} :: Word(r, g, j) == if g == t && j < n then 0 else Word(mem, g, j)
    ensures forall g: nat {:trigger r[g]} :: g < |mem| ==> |r[g]| == |mem[g]|
  {
    if n == 0 then mem else Store(Zeroed(mem, t, n - 1), t, n - 1, 0)
  }

  lemma ZeroedNext(mem: Memory, t: nat, n: nat)
    ensures Zeroed(mem, t, n + 1) == Store(Zeroed(mem, t, n), t, n, 0)
    ensures Zeroed(mem, t, 0) == mem
  {
  }

  /** Frame t becomes the table of entry m of directory d. */
  function NewTable(mem: Memory, d: nat, m: nat, t: nat): (r: Memory)
    requires t < 0x100000
  {
    Store(Zeroed(mem, t, 0x400), d, m, SetPage(AddrOf(t), USER_ENTRY))
  }

  function NewUse(use: map<nat, Use>, d: nat, m: nat, t: nat): map<nat, Use> {
    use[t := Table(d, m)]
  }

  /** A fresh table keeps the shape of every directory and maps nothing: no page of any address space changes. */
  lemma NewTableOk(mem: Memory, use: map<nat, Use>, d: nat, m: nat, t: nat)
    requires TablesOk(mem, use) && Sized(mem, |mem|) && IsDir(use, d) && m < KERNEL_PDE
    requires Word(mem, d, m) == 0 && t !in use && 0 < t < |mem| && t < 0x100000
    ensures TablesOk(NewTable(mem, d, m, t), NewUse(use, d, m, t))
    ensures forall d': nat, n: nat :: IsDir(use, d') && n < USER_PAGES ==> Flat(NewTable(mem, d, m, t), d', n) == Flat(mem, d', n)
    ensures forall d': nat, k: nat {:trigger Word(NewTable(mem, d, m, t), d', k)} :: IsDir(use, d') && k < KERNEL_PDE ==>
              (d' != d || k != m ==> Word(NewTable(mem, d, m, t), d', k) == Word(mem, d', k))
  {
    hide SetPage, PdeIndex, PteIndex;
    EntryKeepsFrame(t, USER_ENTRY);
    var r := NewTable(mem, d, m, t);
    assert Word(r, d, m) == SetPage(AddrOf(t), USER_ENTRY);
    assert forall k: nat :: k < 0x400 ==> Word(r, t, k) == 0;
  }

  /** Storing into a table changes the one page it is about. */
  lemma StoreOk(mem: Memory, use: map<nat, Use>, d: nat, n: nat, v: word)
    requires TablesOk(mem, use) && Sized(mem, |mem|) && IsDir(use, d) && n < USER_PAGES && Word(mem, d, n / 0x400) != 0
    ensures TablesOk(Store(mem, FrameOf(Word(mem, d, n / 0x400)), n % 0x400, v), use)
    ensures forall d': nat, n': nat :: IsDir(use, d') && n' < USER_PAGES ==>
              Flat(Store(mem, FrameOf(Word(mem, d, n / 0x400)), n % 0x400, v), d', n') ==
              if d' == d && n' == n then v else Flat(mem, d', n')
    ensures forall d': nat, k: nat {:trigger Word(Store(mem, FrameOf(Word(mem, d, n / 0x400)), n % 0x400, v), d', k)} ::
              IsDir(use, d') ==> Word(Store(mem, FrameOf(Word(mem, d, n / 0x400)), n % 0x400, v), d', k) == Word(mem, d', k)
  {
    var t := FrameOf(Word(mem, d, n / 0x400));
    var r := Store(mem, t, n % 0x400, v);
    forall d': nat, n': nat | IsDir(use, d') && n' < USER_PAGES
      ensures Flat(r, d', n') == if d' == d && n' == n then v else Flat(mem, d', n')
    {
      assert Word(r, d', n' / 0x400) == Word(mem, d', n' / 0x400);
    }
  }

  /** Giving a fresh table no page keeps the pages as they are. */
  lemma PagesAfterTable(mem: Memory, mem': Memory, use: map<nat, Use>, d: nat, m: nat, t: nat)
    requires PagesOk(mem, use) && t !in use
    requires forall d': nat, n: nat :: IsDir(use, d') && n < USER_PAGES ==> Flat(mem', d', n) == Flat(mem, d', n)
    ensures PagesOk(mem', NewUse(use, d, m, t))
  {
  }

  /** Mapping an unmapped page to a fresh frame. */
  lemma PagesAfterMap(mem: Memory, mem': Memory, use: map<nat, Use>, d: nat, n: nat, v: word)
    requires PagesOk(mem, use) && IsDir(use, d) && n < USER_PAGES && FrameOf(Flat(mem, d, n)) == 0
    requires FrameOf(v) !in use && 0 !in use && v % 0x1000 == 7
    requires forall d': nat, n': nat :: IsDir(use, d') && n' < USER_PAGES ==>
               Flat(mem', d', n') == if d' == d && n' == n then v else Flat(mem, d', n')
    ensures PagesOk(mem', use[FrameOf(v) := UserPage(d, n)])
  {
    var use' := use[FrameOf(v) := UserPage(d, n)];
    forall f: nat | f in use' && use'[f].UserPage?
      ensures IsDir(use', use'[f].dir) && use'[f].n < USER_PAGES && FrameOf(Flat(mem', use'[f].dir, use'[f].n)) == f
    {
      assert f != FrameOf(v) ==> use'[f] == use[f];
    }
  }

  /** The same when a table may have been made on the way. */
  lemma PagesAfterFault(mem: Memory, mem': Memory, use: map<nat, Use>, use': map<nat, Use>, d: nat, n: nat, t: nat, v: word)
    requires PagesOk(mem, use) && IsDir(use, d) && n < USER_PAGES && FrameOf(Flat(mem, d, n)) == 0
    requires FrameOf(v) !in use' && 0 !in use' && v % 0x1000 == 7
    requires use' == use || (t !in use && use' == NewUse(use, d, n / 0x400, t))
    requires forall d': nat, n': nat :: IsDir(use, d') && n' < USER_PAGES ==>
               Flat(mem', d', n') == if d' == d && n' == n then v else Flat(mem, d', n')
    ensures PagesOk(mem', use'[FrameOf(v) := UserPage(d, n)])
  {
    PagesAfterMap(mem, mem', use, d, n, v);
    if use' != use {
      PagesAfterTable(mem', mem', use[FrameOf(v) := UserPage(d, n)], d, n / 0x400, t);
      assert use'[FrameOf(v) := UserPage(d, n)] == NewUse(use[FrameOf(v) := UserPage(d, n)], d, n / 0x400, t);
    }
  }

  lemma TablesAfterMap(mem: Memory, use: map<nat, Use>, d: nat, n: nat, f: nat)
    requires TablesOk(mem, use) && f !in use && 0 < f < |mem| && f < 0x100000
    ensures TablesOk(mem, use[f := UserPage(d, n)])
  {
  }

  /** memcpy of the first n words of the kernel directory into frame d. */
  function Copied(mem: Memory, d: nat, kernel: seq<word>, n: nat): (r: Memory)
    requires n <= |kernel|
    ensures |r| == |mem|
    ensures forall g: nat, j: nat {:trigger Word(r, g, j)} ::
              Word(r, g, j) == if g == d && j < n && d < |mem| && j < |mem[d]| then kernel[j] else Word(mem, g, j)
    ensures forall g: nat {:trigger r[g]} :: g < |mem| ==> |r[g]| == |mem[g]|
  {
    if n == 0 then mem else Store(Copied(mem, d, kernel, n - 1), d, n - 1, kernel[n - 1])
  }

  lemma CopiedNext(mem: Memory, d: nat, kernel: seq<word>, n: nat)
    requires n < |kernel|
    ensures Copied(mem, d, kernel, n + 1) == Store(Copied(mem, d, kernel, n), d, n, kernel[n])
    ensures Copied(mem, d, kernel, 0) == mem
  {
  }

  /** A new directory maps no user page and shares the kernel's entries; the other address spaces are unchanged. */
  lemma NewDirectoryOk(mem: Memory, use: map<nat, Use>, d: nat, kernel: seq<word>)
    requires TablesOk(mem, use) && PagesOk(mem, use) && KernelShared(mem, use, kernel) && Sized(mem, |mem|)
    requires forall m: nat :: m < KERNEL_PDE ==> kernel[m] == 0
    requires d !in use && 0 < d < |mem| && d < 0x100000
    ensures var mem' := Copied(mem, d, kernel, 0x400);
            var use' := use[d := Directory(d)];
            TablesOk(mem', use') && PagesOk(mem', use') && KernelShared(mem', use', kernel)
    ensures forall d': nat, n: nat :: IsDir(use, d') && n < USER_PAGES ==>
              Flat(Copied(mem, d, kernel, 0x400), d', n) == Flat(mem, d', n)
    ensures forall n: nat :: n < USER_PAGES ==> Flat(Copied(mem, d, kernel, 0x400), d, n) == 0
    ensures forall m: nat :: m < KERNEL_PDE ==> Word(Copied(mem, d, kernel, 0x400), d, m) == 0
  {
    hide Copied, SetPage, GetValue, FrameOf;
    var mem' := Copied(mem, d, kernel, 0x400);
    var use' := use[d := Directory(d)];
    assert forall d': nat :: IsDir(use', d') <==> IsDir(use, d') || d' == d;
    assert forall d': nat, n: nat :: IsDir(use, d') && n < USER_PAGES ==> Flat(mem', d', n) == Flat(mem, d', n);
    assert forall n: nat :: n < USER_PAGES ==> Flat(mem', d, n) == 0;
    forall f: nat | f in use' && use'[f].UserPage?
      ensures IsDir(use', use'[f].dir) && use'[f].n < USER_PAGES && FrameOf(Flat(mem', use'[f].dir, use'[f].n)) == f
    {
      assert use[f].UserPage?;
    }
  }

  /** What is left when the address space with directory d is gone. */
  ghost function Without(use: map<nat, Use>, d: nat): map<nat, Use> {
    map f: nat | f in use && use[f].dir != d :: use[f]
  }

  lemma WithoutOk(mem: Memory, use: map<nat, Use>, d: nat, kernel: seq<word>)
    requires TablesOk(mem, use) && PagesOk(mem, use) && KernelShared(mem, use, kernel)
    ensures TablesOk(mem, Without(use, d)) && PagesOk(mem, Without(use, d)) && KernelShared(mem, Without(use, d), kernel)
    ensures forall f: nat :: f in Without(use, d) <==> f in use && f !in FramesOf(use, d)
    ensures FramesOf(use, d) <= use.Keys
  {
    assert forall d': nat :: IsDir(Without(use, d), d') <==> IsDir(use, d') && d' != d;
  }

  /** The frames umm_free has given back when it has dealt with the pages below n and the tables below m. */
  ghost function Freed(use: map<nat, Use>, d: nat, n: nat, m: nat): set<nat> {
    set f: nat | f in use && (
      match use[f]
      case Directory(_) => false
      case Table(d', m') => d' == d && m' < m
      case UserPage(d', n') => d' == d && n' < n)
  }

  /** Every frame in use belongs to a directory in use. */
  lemma DirInUse(mem: Memory, use: map<nat, Use>, f: nat)
    requires TablesOk(mem, use) && PagesOk(mem, use) && f in use
    ensures IsDir(use, use[f].dir)
  {
    if use[f].Directory? {
    } else if use[f].Table? {
    } else {
    }
  }

  /** Every frame in use keeps its use. */
  ghost predicate Kept(use: map<nat, Use>, use': map<nat, Use>) {
    forall f: nat {:trigger f in use} :: f in use ==> f in use' && use'[f] == use[f]
  }

  /** `use` has grown by frames for the address space with directory d, taken from the free frames. */
  ghost predicate Grown(use: map<nat, Use>, use': map<nat, Use>, free: set<nat>, free': set<nat>, d: nat) {
    && Kept(use, use')
    && (forall f: nat {:trigger use'[f]} :: f in use' && f !in use ==> use'[f].dir == d && f in free)
    && free' == free - (use'.Keys - use.Keys)
  }

  lemma GrownByFault(use: map<nat, Use>, use': map<nat, Use>, free: set<nat>, free': set<nat>, d: nat, n: nat, f: nat, t: nat)
    requires f !in use' && f !in free
    requires (use' == use && free' == free) || (t in free && t !in use && use' == NewUse(use, d, n / 0x400, t) && free' == free - {t})
    ensures Grown(use, use'[f := UserPage(d, n)], free + {f}, free', d)
    ensures f in use'[f := UserPage(d, n)].Keys - use.Keys
  {
    var use2 := use'[f := UserPage(d, n)];
    if use' == use {
      assert use2.Keys - use.Keys == {f};
    } else {
      assert use2.Keys - use.Keys == {f, t};
    }
  }

  /** The frames of one address space. */
  ghost function FramesOf(use: map<nat, Use>, d: nat): set<nat> {
    set f: nat | f in use && use[f].dir == d
  }

  lemma FreedStep(mem: Memory, use: map<nat, Use>, d: nat, n: nat, m: nat)
    requires PagesOk(mem, use) && IsDir(use, d) && n < USER_PAGES && 0 !in use
    ensures Freed(use, d, n + 1, m) ==
            Freed(use, d, n, m) + if FrameOf(Flat(mem, d, n)) == 0 then {} else {FrameOf(Flat(mem, d, n))}
    ensures FrameOf(Flat(mem, d, n)) !in Freed(use, d, n, m)
  {
    forall f: nat
      ensures f in use && use[f] == UserPage(d, n) <==> FrameOf(Flat(mem, d, n)) != 0 && f == FrameOf(Flat(mem, d, n))
    {
    }
  }

  lemma FreedTable(mem: Memory, use: map<nat, Use>, d: nat, n: nat, m: nat)
    requires TablesOk(mem, use) && IsDir(use, d) && m < KERNEL_PDE
    ensures Freed(use, d, n, m + 1) ==
            Freed(use, d, n, m) + if Word(mem, d, m) == 0 then {} else {FrameOf(Word(mem, d, m))}
    ensures Word(mem, d, m) != 0 ==> FrameOf(Word(mem, d, m)) !in Freed(use, d, n, m)
  {
    forall f: nat
      ensures f in use && use[f] == Table(d, m) <==> Word(mem, d, m) != 0 && f == FrameOf(Word(mem, d, m))
    {
    }
  }

  lemma FreedAll(mem: Memory, use: map<nat, Use>, d: nat)
    requires TablesOk(mem, use) && PagesOk(mem, use) && IsDir(use, d)
    ensures FramesOf(use, d) == Freed(use, d, USER_PAGES, KERNEL_PDE) + {d}
    ensures d !in Freed(use, d, USER_PAGES, KERNEL_PDE)
  {
    forall f: nat | f in use && use[f].dir == d
      ensures f == d || f in Freed(use, d, USER_PAGES, KERNEL_PDE)
    {
    }
  }

  /** The n-th entry of the m-th table is the entry of page m * 0x400 + n, and its frame is not yet freed. */
  lemma PageAt(mem: Memory, use: map<nat, Use>, d: nat, m: nat, n: nat)
    requires TablesOk(mem, use) && PagesOk(mem, use) && IsDir(use, d) && m < KERNEL_PDE && n < 0x400 && Word(mem, d, m) != 0
    ensures var f := FrameOf(Word(mem, FrameOf(Word(mem, d, m)), n));
            && (f != 0 ==> f in use && f !in Freed(use, d, m * 0x400 + n, m))
            && Freed(use, d, m * 0x400 + n + 1, m) == Freed(use, d, m * 0x400 + n, m) + if f == 0 then {} else {f}
  {
    assert (m * 0x400 + n) / 0x400 == m && (m * 0x400 + n) % 0x400 == n;
    FreedStep(mem, use, d, m * 0x400 + n, m);
  }

  /** Without a table there are no pages to free. */
  lemma NoPages(mem: Memory, use: map<nat, Use>, d: nat, m: nat)
    requires TablesOk(mem, use) && PagesOk(mem, use) && IsDir(use, d) && m < KERNEL_PDE && FrameOf(Word(mem, d, m)) == 0
    ensures Word(mem, d, m) == 0
    ensures Freed(use, d, (m + 1) * 0x400, m) == Freed(use, d, m * 0x400, m)
  {
    forall f: nat | f in use && use[f].UserPage? && use[f].dir == d
      ensures use[f].n / 0x400 != m
    {
    }
  }

  /** What a run of address-space operations may look like at any moment, seen from its start (use0, free0): the
      frames of the start are untouched, every other frame in use belongs to one of the live directories, and it
      came out of free0, which has lost nothing else. */
  ghost predicate Accounted(use0: map<nat, Use>, use: map<nat, Use>, free0: set<nat>, free: set<nat>, live: seq<nat>) {
    && Kept(use0, use)
    && (forall f: nat {:trigger use[f]} :: f in use && f !in use0 ==> use[f].dir in live && f in free0)
    && free == free0 - (use.Keys - use0.Keys)
    && (forall i: nat {:trigger live[i]} :: i < |live| ==> IsDir(use, live[i]) && live[i] !in use0)
    && (forall i: nat, j: nat {:trigger live[i], live[j]} :: i < j < |live| ==> live[i] != live[j])
  }

  lemma AccountedStart(use: map<nat, Use>, free: set<nat>)
    ensures Accounted(use, use, free, free, [])
  {
  }

  /** When no live directory is left, everything is back. */
  lemma AccountedEnd(use0: map<nat, Use>, use: map<nat, Use>, free0: set<nat>, free: set<nat>)
    requires Accounted(use0, use, free0, free, [])
    ensures use == use0 && free == free0
  {
    assert forall f: nat :: f in use ==> f in use0;
    assert use == use0;
  }

  lemma LiveDirs(use0: map<nat, Use>, use: map<nat, Use>, free0: set<nat>, free: set<nat>, live: seq<nat>)
    requires Accounted(use0, use, free0, free, live)
    ensures forall i: nat :: i < |live| ==> IsDir(use, live[i])
  {
  }

  lemma DirsInUse(mem: Memory, use: map<nat, Use>)
    requires TablesOk(mem, use) && PagesOk(mem, use)
    ensures forall f: nat {:trigger use[f]} :: f in use ==> IsDir(use, use[f].dir)
  {
    forall f: nat | f in use
      ensures IsDir(use, use[f].dir)
    {
      DirInUse(mem, use, f);
    }
  }

  lemma AccountedBirth(use0: map<nat, Use>, use: map<nat, Use>, free0: set<nat>, free: set<nat>, live: seq<nat>, d: nat)
    requires Accounted(use0, use, free0, free, live) && d in free && d !in use
    ensures Accounted(use0, use[d := Directory(d)], free0, free - {d}, live + [d])
  {
    var use' := use[d := Directory(d)];
    forall f: nat | f in use' && f !in use0
      ensures use'[f].dir in live + [d] && f in free0
    {
      if f != d {
        assert use'[f] == use[f];
      }
    }
  }

  lemma AccountedGrowth(use0: map<nat, Use>, use: map<nat, Use>, use': map<nat, Use>, free0: set<nat>, free: set<nat>,
                        free': set<nat>, live: seq<nat>, k: nat)
    requires Accounted(use0, use, free0, free, live) && k < |live| && Grown(use, use', free, free', live[k])
    ensures Accounted(use0, use', free0, free', live)
  {
    assert forall f: nat :: f in use' && f !in use0 && f in use ==> use'[f] == use[f];
  }

  lemma AccountedDeath(use0: map<nat, Use>, use: map<nat, Use>, free0: set<nat>, free: set<nat>, live: seq<nat>, k: nat)
    requires Accounted(use0, use, free0, free, live) && k < |live|
    requires forall f: nat {:trigger use0[f]} :: f in use0 ==> IsDir(use0, use0[f].dir)
    ensures Accounted(use0, Without(use, live[k]), free0, free + FramesOf(use, live[k]), live[..k] + live[k + 1..])
  {
    var use', live' := Without(use, live[k]), live[..k] + live[k + 1..];
    LiveWithout(live, k);
    assert forall f: nat :: f in use0 ==> use0[f].dir in use0;
    FramesAfterDeath(use0, use, free0, free, live[k]);
    assert Kept(use0, use');
    forall i: nat | i < |live'|
      ensures IsDir(use', live'[i]) && live'[i] !in use0
    {
      assert live'[i] in live;
    }
  }

  lemma LiveWithout(live: seq<nat>, k: nat)
    requires k < |live| && forall i: nat, j: nat {:trigger live[i], live[j]} :: i < j < |live| ==> live[i] != live[j]
    ensures var live' := live[..k] + live[k + 1..];
            && (forall x: nat :: x in live' <==> x in live && x != live[k])
            && (forall i: nat, j: nat {:trigger live'[i], live'[j]} :: i < j < |live'| ==> live'[i] != live'[j])
  {
    var live' := live[..k] + live[k + 1..];
    forall x: nat | x in live && x != live[k]
      ensures x in live'
    {
      var i: nat :| i < |live| && live[i] == x;
      assert live'[if i < k then i else i - 1] == x;
    }
  }

  lemma FramesAfterDeath(use0: map<nat, Use>, use: map<nat, Use>, free0: set<nat>, free: set<nat>, d: nat)
    requires free == free0 - (use.Keys - use0.Keys) && forall f: nat :: f in use && f !in use0 ==> f in free0
    requires Kept(use0, use) && forall f: nat :: f in use0 ==> use0[f].dir != d
    ensures free + FramesOf(use, d) == free0 - (Without(use, d).Keys - use0.Keys)
  {
  }

  /** Directory entries but entry m of directory d are as they were. */
  ghost predicate SameEntries(mem: Memory, mem': Memory, use: map<nat, Use>, d: nat, m: nat) {
    forall d': nat, k: nat {:trigger Word(mem', d', k)} :: IsDir(use, d') && k < KERNEL_PDE && (d' != d || k != m) ==>
      Word(mem', d', k) == Word(mem, d', k)
  }

  /** The pages among n, ..., n + k - 1 that have no frame yet, and the tables those pages lack. */
  ghost function MissingPages(mem: Memory, d: nat, n: nat, k: nat): set<nat> {
    set p: nat | n <= p < n + k && FrameOf(Flat(mem, d, p)) == 0
  }

  ghost function MissingTables(mem: Memory, d: nat, n: nat, k: nat): set<nat> {
    set m: nat | 0 < k && n / 0x400 <= m <= (n + k) / 0x400 && m * 0x400 < n + k && Word(mem, d, m) == 0
  }

  /** How many frames it takes to map them all. */
  ghost function Need(mem: Memory, d: nat, n: nat, k: nat): nat {
    |MissingPages(mem, d, n, k)| + |MissingTables(mem, d, n, k)|
  }

  ghost function NeedOne(mem: Memory, d: nat, n: nat): nat {
    (if FrameOf(Flat(mem, d, n)) == 0 then 1 else 0) + (if Word(mem, d, n / 0x400) == 0 then 1 else 0)
  }

  /** What is left to find once page n has its frame, and when its table could not be had. */
  lemma NeedStep(mem: Memory, mem': Memory, use: map<nat, Use>, d: nat, n: nat, k: nat)
    requires 0 < k && n + k <= USER_PAGES && IsDir(use, d)
    requires SameEntries(mem, mem', use, d, n / 0x400)
    requires forall p: nat :: p < USER_PAGES && p != n ==> Flat(mem', d, p) == Flat(mem, d, p)
    ensures Need(mem, d, n, k) <= Need(mem', d, n + 1, k - 1) + NeedOne(mem, d, n)
    ensures Word(mem', d, n / 0x400) != 0 ==> Need(mem, d, n, k) == Need(mem', d, n + 1, k - 1) + NeedOne(mem, d, n)
  {
    TablesStep(mem, mem', use, d, n, k);
    assert MissingPages(mem, d, n, k) ==
           MissingPages(mem', d, n + 1, k - 1) + if FrameOf(Flat(mem, d, n)) == 0 then {n} else {};
  }

  lemma NeedOneFits(mem: Memory, d: nat, n: nat, k: nat)
    requires 0 < k
    ensures NeedOne(mem, d, n) <= Need(mem, d, n, k)
  {
    assert n / 0x400 * 0x400 < n + k;
    if FrameOf(Flat(mem, d, n)) == 0 {
      assert n in MissingPages(mem, d, n, k);
    }
    if Word(mem, d, n / 0x400) == 0 {
      assert n / 0x400 in MissingTables(mem, d, n, k);
    }
  }

  lemma OtherTables(mem: Memory, mem': Memory, use: map<nat, Use>, d: nat, n: nat, k: nat)
    requires 0 < k && n + k <= USER_PAGES && IsDir(use, d)
    requires SameEntries(mem, mem', use, d, n / 0x400)
    ensures forall x: nat :: x != n / 0x400 ==> (x in MissingTables(mem, d, n, k) <==> x in MissingTables(mem', d, n + 1, k - 1))
  {
    forall x: nat | x != n / 0x400
      ensures x in MissingTables(mem, d, n, k) <==> x in MissingTables(mem', d, n + 1, k - 1)
    {
      if x in MissingTables(mem, d, n, k) {
        assert x * 0x400 >= n + 1 && x <= (n + 1 + (k - 1)) / 0x400;
      }
    }
  }

  lemma TablesStep(mem: Memory, mem': Memory, use: map<nat, Use>, d: nat, n: nat, k: nat)
    requires 0 < k && n + k <= USER_PAGES && IsDir(use, d)
    requires SameEntries(mem, mem', use, d, n / 0x400)
    ensures var one := if Word(mem, d, n / 0x400) == 0 then 1 else 0;
            && |MissingTables(mem, d, n, k)| <= |MissingTables(mem', d, n + 1, k - 1)| + one
            && (Word(mem', d, n / 0x400) != 0 ==> |MissingTables(mem, d, n, k)| == |MissingTables(mem', d, n + 1, k - 1)| + one)
  {
    var m := n / 0x400;
    var tables, tables' := MissingTables(mem, d, n, k), MissingTables(mem', d, n + 1, k - 1);
    OtherTables(mem, mem', use, d, n, k);
    assert m in tables <==> Word(mem, d, m) == 0;
    assert tables - {m} == tables' - {m};
    assert m !in tables' ==> tables' == tables' - {m};
    SubsetSize(tables' - {m}, tables');
  }

  /** Slots head, ..., head + k - 1 map the frames of pages n, ..., n + k - 1, where those could get one. */
  ghost predicate Windows(slot: seq<nat>, mem: Memory, d: nat, n: nat, head: nat, k: nat) {
    head + k <= |slot| &&
    forall j: nat {:trigger slot[j]} :: head <= j < head + k ==>
      slot[j] != 0 && (FrameOf(Flat(mem, d, n + (j - head))) == 0 || FrameOf(Flat(mem, d, n + (j - head))) == slot[j])
  }

  ghost predicate Full(mem: Memory, d: nat, n: nat, k: nat) {
    forall p: nat {:trigger Flat(mem, d, p)} :: n <= p < n + k ==> FrameOf(Flat(mem, d, p)) != 0
  }

  /** Every page keeps its entry but the ones among n, ..., n + k - 1 that had no frame. */
  ghost predicate KeepsPages(mem: Memory, mem': Memory, use: map<nat, Use>, d: nat, n: nat, k: nat) {
    forall d': nat, p: nat {:trigger Flat(mem', d', p)} ::
      IsDir(use, d') && p < USER_PAGES && !(d' == d && n <= p < n + k && FrameOf(Flat(mem, d, p)) == 0) ==>
        Flat(mem', d', p) == Flat(mem, d', p)
  }

  lemma WindowsNext(slot: seq<nat>, f: nat, mem: Memory, mem': Memory, use: map<nat, Use>, d: nat, n: nat, head: nat, k: nat)
    requires Windows(slot, mem, d, n, head, k) && KeepsPages(mem, mem', use, d, n + k, 1) && IsDir(use, d)
    requires head + k < |slot| && n + k < USER_PAGES && f != 0
    requires FrameOf(Flat(mem', d, n + k)) == 0 || FrameOf(Flat(mem', d, n + k)) == f
    ensures Windows(slot[head + k := f], mem', d, n, head, k + 1)
    ensures Full(mem, d, n, k) && FrameOf(Flat(mem', d, n + k)) != 0 ==> Full(mem', d, n, k + 1)
  {
    hide Flat;
    var slot' := slot[head + k := f];
    forall j: nat | head <= j < head + k
      ensures slot'[j] != 0 && (FrameOf(Flat(mem', d, n + (j - head))) == 0 || FrameOf(Flat(mem', d, n + (j - head))) == slot'[j])
    {
      assert slot[j] != 0 && Flat(mem', d, n + (j - head)) == Flat(mem, d, n + (j - head));
    }
  }

  lemma KeepsNext(mem0: Memory, mem: Memory, mem': Memory, use0: map<nat, Use>, use: map<nat, Use>, d: nat, n: nat, k: nat)
    requires KeepsPages(mem0, mem, use0, d, n, k) && KeepsPages(mem, mem', use, d, n + k, 1) && n + k < USER_PAGES
    requires Kept(use0, use) && IsDir(use0, d)
    ensures KeepsPages(mem0, mem', use0, d, n, k + 1)
    ensures |MissingPages(mem0, d, n, k + 1)| ==
            |MissingPages(mem0, d, n, k)| + if FrameOf(Flat(mem, d, n + k)) == 0 then 1 else 0
  {
    hide Flat;
    assert Flat(mem, d, n + k) == Flat(mem0, d, n + k);
    assert MissingPages(mem0, d, n, k + 1) ==
           MissingPages(mem0, d, n, k) + if FrameOf(Flat(mem, d, n + k)) == 0 then {n + k} else {};
    forall d': nat, p: nat | IsDir(use0, d') && p < USER_PAGES && !(d' == d && n <= p < n + k + 1 && FrameOf(Flat(mem0, d, p)) == 0)
      ensures Flat(mem', d', p) == Flat(mem0, d', p)
    {
      assert Flat(mem, d', p) == Flat(mem0, d', p);
    }
  }

  lemma GrownTwice(use0: map<nat, Use>, use: map<nat, Use>, use': map<nat, Use>, free0: set<nat>, free: set<nat>, free': set<nat>, d: nat)
    requires Grown(use0, use, free0, free, d) && Grown(use, use', free, free', d)
    ensures Grown(use0, use', free0, free', d)
  {
    forall f: nat | f in use' && f !in use0
      ensures use'[f].dir == d && f in free0
    {
      assert f in use ==> use'[f] == use[f];
    }
  }

  /** One address space as an operation found it and as it stands. */
  datatype Stage = Stage(mem: Memory, use: map<nat, Use>, free: set<nat>, slot: seq<nat>)

  /** Two free frames that are no neighbours.  Otherwise, once pmm_alloc_page has taken the highest, the search for a
      table, which stops short of the frame below it, finds none. */
  ghost predicate Spread(free: set<nat>) {
    exists p: nat, q: nat :: p in free && q in free && p + 1 < q
  }

  /** The same with the table's frame in the direct map. */
  ghost predicate SpreadBelow(free: set<nat>, dmmap: nat) {
    exists p: nat, q: nat :: p in free && p < dmmap && q in free && p + 1 < q
  }

  lemma BelowTop(free: set<nat>, top: nat, dmmap: nat)
    requires top in free && forall q: nat :: q in free ==> q <= top
    ensures SpreadBelow(free, dmmap) <==> exists p: nat :: p in free - {top} && p < dmmap && p < top - 1
    ensures (forall q: nat :: q in free - {top} ==> q < dmmap) ==>
              (Spread(free) <==> exists p: nat :: p in free - {top} && p < dmmap && p < top - 1)
  {
    if p: nat :| p in free - {top} && p < dmmap && p < top - 1 {
      assert p in free && top in free && p + 1 < top;
    }
    if p: nat, q: nat :| p in free && q in free && p + 1 < q {
      assert p in free - {top} && p < top - 1;
    }
    if p: nat, q: nat :| p in free && p < dmmap && q in free && p + 1 < q {
      assert p in free - {top} && p < top - 1;
    }
  }

  /** Page n needs a table that cannot be had. */
  ghost predicate Refused(s: Stage, d: nat, n: nat) {
    FrameOf(Flat(s.mem, d, n)) == 0 && Word(s.mem, d, n / 0x400) == 0 && !Spread(s.free)
  }

  /** The frames taken since s0 that no page or table uses. */
  ghost function Leaked(s0: Stage, s: Stage): set<nat> {
    s0.free - s.free - (s.use.Keys - s0.use.Keys)
  }

  lemma LeakedSame(s0: Stage, s: Stage, s': Stage)
    requires s.free == s'.free && s.use == s'.use
    ensures Leaked(s0, s) == Leaked(s0, s')
  {
  }

  /** How far the loop of vmm_mmap_pde_page has come from s0 to s with k of count pages. */
  ghost predicate Opened(s0: Stage, s: Stage, d: nat, n: nat, head: nat, k: nat, count: nat) {
    && k <= count && Windows(s.slot, s.mem, d, n, head, k) && |s.slot| == |s0.slot|
    && (forall j: nat :: j < |s.slot| && !(head <= j < head + k) ==> s.slot[j] == s0.slot[j])
    && KeepsPages(s0.mem, s.mem, s0.use, d, n, k)
    && s.free <= s0.free && Kept(s0.use, s.use) && IsDir(s.use, d)
    && Spent(s0, s, d, n, k, count) && (k == 0 ==> s == s0)
    && (k > 0 ==> (FrameOf(Flat(s.mem, d, n)) == 0 <==> Refused(s0, d, n)))
    && (|s0.free| > Need(s0.mem, d, n, count) ==> Lasts(s0, s, d, n, k, count))
  }

  /** What became of the frames: those no page or table uses are as many as the pages left without one; and as long as
      every page has its frame, so far as many were taken as were needed.  From then on there are at most two. */
  ghost predicate Spent(s0: Stage, s: Stage, d: nat, n: nat, k: nat, count: nat)
    requires k <= count
  {
    && s.use.Keys - s0.use.Keys <= s0.free - s.free
    && |Leaked(s0, s)| == |MissingPages(s.mem, d, n, k)|
    && |s.free| + |MissingPages(s0.mem, d, n, k)| <= |s0.free|
    && Taken(|s0.free| - Need(s0.mem, d, n, count), |s.free|, Need(s.mem, d, n + k, count - k), |MissingPages(s.mem, d, n, k)|)
  }

  ghost predicate Taken(spare: int, free: nat, rest: nat, missing: nat) {
    || free <= spare + rest
    || (free <= 1 && missing >= 1 && free <= spare + rest + 1)
    || (free == 0 && missing >= 1 && free <= spare + rest + 2)
  }

  /** With enough frames at first they last: every page so far has its frame, and the others will. */
  ghost predicate Lasts(s0: Stage, s: Stage, d: nat, n: nat, k: nat, count: nat)
    requires k <= count
  {
    && Grown(s0.use, s.use, s0.free, s.free, d) && Full(s.mem, d, n, k)
    && |s.free| > Need(s.mem, d, n + k, count - k)
  }

  lemma OpenedStart(s: Stage, d: nat, n: nat, head: nat, count: nat)
    requires head <= |s.slot| && IsDir(s.use, d)
    ensures Opened(s, s, d, n, head, 0, count)
  {
    assert MissingPages(s.mem, d, n, 0) == {};
    assert Leaked(s, s) == {};
  }

  /** What one page more does: its frame f was there, or is new, and is entered unless its table cannot be had. */
  ghost predicate Next(s: Stage, s': Stage, d: nat, n: nat, f: nat) {
    && f != 0 && KeepsPages(s.mem, s'.mem, s.use, d, n, 1) && SameEntries(s.mem, s'.mem, s.use, d, n / 0x400)
    && if Refused(s, d, n) then
         f in s.free && s' == Stage(s.mem, s.use, s.free - {f}, s'.slot) && |s'.free| <= 1
       else
         && FrameOf(Flat(s'.mem, d, n)) == f && Grown(s.use, s'.use, s.free, s'.free, d)
         && |s'.free| == |s.free| - NeedOne(s.mem, d, n) && Word(s'.mem, d, n / 0x400) != 0
  }

  lemma OpenedNext(s0: Stage, s: Stage, s': Stage, d: nat, n: nat, head: nat, k: nat, count: nat, f: nat)
    requires Opened(s0, s, d, n, head, k, count) && IsDir(s0.use, d)
    requires k < count && n + count <= USER_PAGES && head + count <= |s.slot|
    requires Next(s, s', d, n + k, f) && s'.slot == s.slot[head + k := f]
    ensures Opened(s0, s', d, n, head, k + 1, count)
  {
    hide Need, NeedOne, SameEntries, Windows, Full, MissingPages, Flat, Word, Spread, Leaked, Spent, Grown, Refused;
    NextKeeps(s, s', d, n + k, f);
    assert k > 0 ==> Flat(s'.mem, d, n) == Flat(s.mem, d, n);
    hide KeepsPages, Next;
    WindowsNext(s.slot, f, s.mem, s'.mem, s.use, d, n, head, k);
    KeepsNext(s0.mem, s.mem, s'.mem, s0.use, s.use, d, n, k);
    SpentNext(s0, s, s', d, n, k, count, f);
    if |s0.free| > Need(s0.mem, d, n, count) {
      LastsNext(s0, s, s', d, n + k, count - k, f);
      assert n + k + 1 == n + (k + 1) && count - k - 1 == count - (k + 1);
    }
  }

  lemma NextKeeps(s: Stage, s': Stage, d: nat, n: nat, f: nat)
    requires Next(s, s', d, n, f)
    ensures Kept(s.use, s'.use) && s'.free <= s.free && f != 0 && KeepsPages(s.mem, s'.mem, s.use, d, n, 1)
    ensures FrameOf(Flat(s'.mem, d, n)) == 0 || FrameOf(Flat(s'.mem, d, n)) == f
    ensures FrameOf(Flat(s'.mem, d, n)) == 0 <==> Refused(s, d, n)
  {
    hide Flat, Word, Spread, KeepsPages, SameEntries, NeedOne;
  }

  lemma SpentNext(s0: Stage, s: Stage, s': Stage, d: nat, n: nat, k: nat, count: nat, f: nat)
    requires k < count && n + count <= USER_PAGES && IsDir(s0.use, d) && IsDir(s.use, d) && s.free <= s0.free && Kept(s0.use, s.use)
    requires Spent(s0, s, d, n, k, count) && KeepsPages(s0.mem, s.mem, s0.use, d, n, k) && Next(s, s', d, n + k, f)
    ensures Spent(s0, s', d, n, k + 1, count)
  {
    hide Need, NeedOne, SameEntries, Flat, Word, Spread, MissingPages, KeepsPages, Leaked;
    KeepsNext(s0.mem, s.mem, s'.mem, s0.use, s.use, d, n, k);
    MissingNext(s.mem, s'.mem, s.use, d, n, k);
    RestNext(s, s', d, n + k, count - k, f);
    assert n + k + 1 == n + (k + 1) && count - k - 1 == count - (k + 1);
    LeakedNext(s0, s, s', d, n + k, f);
    SubsetSize(s'.free, s.free);
    VacantTakes(s, s', d, n + k, f);
    hide Next, Refused;
  }

  lemma VacantTakes(s: Stage, s': Stage, d: nat, n: nat, f: nat)
    requires Next(s, s', d, n, f)
    ensures s'.free <= s.free && (FrameOf(Flat(s.mem, d, n)) == 0 ==> |s'.free| < |s.free|)
    ensures Refused(s, d, n) ==> |s'.free| == |s.free| - 1 <= 1 && NeedOne(s.mem, d, n) == 2
    ensures Refused(s, d, n) ==> s'.use == s.use && s'.free == s.free - {f}
    ensures !Refused(s, d, n) ==> |s'.free| == |s.free| - NeedOne(s.mem, d, n) && Grown(s.use, s'.use, s.free, s'.free, d)
    ensures FrameOf(Flat(s'.mem, d, n)) == 0 <==> Refused(s, d, n)
  {
    hide Flat, Word, Spread, KeepsPages, SameEntries;
  }

  lemma RestNext(s: Stage, s': Stage, d: nat, n: nat, k: nat, f: nat)
    requires 0 < k && n + k <= USER_PAGES && IsDir(s.use, d) && Next(s, s', d, n, f)
    ensures Need(s.mem, d, n, k) <= Need(s'.mem, d, n + 1, k - 1) + NeedOne(s.mem, d, n)
    ensures !Refused(s, d, n) ==> Need(s.mem, d, n, k) == Need(s'.mem, d, n + 1, k - 1) + NeedOne(s.mem, d, n)
  {
    hide Need, NeedOne, SameEntries, Flat, Word, Spread, Grown;
    NeedStep(s.mem, s'.mem, s.use, d, n, k);
  }

  lemma MissingNext(mem: Memory, mem': Memory, use: map<nat, Use>, d: nat, n: nat, k: nat)
    requires KeepsPages(mem, mem', use, d, n + k, 1) && IsDir(use, d) && n + k < USER_PAGES
    ensures |MissingPages(mem', d, n, k + 1)| ==
            |MissingPages(mem, d, n, k)| + if FrameOf(Flat(mem', d, n + k)) == 0 then 1 else 0
  {
    hide Flat;
    assert forall p: nat :: p < n + k ==> Flat(mem', d, p) == Flat(mem, d, p);
    assert MissingPages(mem', d, n, k + 1) ==
           MissingPages(mem, d, n, k) + if FrameOf(Flat(mem', d, n + k)) == 0 then {n + k} else {};
  }

  lemma LeakedNext(s0: Stage, s: Stage, s': Stage, d: nat, n: nat, f: nat)
    requires s.free <= s0.free && Kept(s0.use, s.use) && s.use.Keys - s0.use.Keys <= s0.free - s.free && Next(s, s', d, n, f)
    ensures s'.use.Keys - s0.use.Keys <= s0.free - s'.free
    ensures |Leaked(s0, s')| == |Leaked(s0, s)| + if Refused(s, d, n) then 1 else 0
  {
    hide Flat, Word, Spread, KeepsPages, SameEntries, NeedOne, Refused;
    if Refused(s, d, n) {
      assert f in s.free && s'.use == s.use && s'.free == s.free - {f};
      hide Next, Kept;
      LostTaken(s0.use.Keys, s.use.Keys, s0.free, s.free, f);
    } else {
      assert s.use.Keys <= s'.use.Keys && s'.use.Keys - s.use.Keys <= s.free && s'.free == s.free - (s'.use.Keys - s.use.Keys);
      assert s0.use.Keys <= s.use.Keys;
      hide Next, Grown, Kept;
      UsedTaken(s0.use.Keys, s.use.Keys, s'.use.Keys, s0.free, s.free, s'.free);
    }
  }

  lemma LostTaken(use0: set<nat>, use: set<nat>, free0: set<nat>, free: set<nat>, f: nat)
    requires free <= free0 && use - use0 <= free0 - free && f in free
    ensures use - use0 <= free0 - (free - {f})
    ensures |free0 - (free - {f}) - (use - use0)| == |free0 - free - (use - use0)| + 1
  {
    assert free0 - (free - {f}) - (use - use0) == (free0 - free - (use - use0)) + {f};
  }

  lemma UsedTaken(use0: set<nat>, use: set<nat>, use': set<nat>, free0: set<nat>, free: set<nat>, free': set<nat>)
    requires use0 <= use <= use' && free <= free0 && use - use0 <= free0 - free
    requires use' - use <= free && free' == free - (use' - use)
    ensures use' - use0 <= free0 - free' && free0 - free' - (use' - use0) == free0 - free - (use - use0)
  {
    var l, l' := free0 - free - (use - use0), free0 - free' - (use' - use0);
    forall x: nat | x in use' - use0
      ensures x in free0 - free'
    {
      assert x in use - use0 || x in use' - use;
    }
    assert forall x: nat :: x in l' ==> x in l;
    assert forall x: nat :: x in l ==> x in l';
  }

  lemma LastsNext(s0: Stage, s: Stage, s': Stage, d: nat, n: nat, left: nat, f: nat)
    requires 0 < left && n + left <= USER_PAGES && |s.free| > Need(s.mem, d, n, left) && Grown(s0.use, s.use, s0.free, s.free, d)
    requires Next(s, s', d, n, f) && IsDir(s.use, d)
    ensures FrameOf(Flat(s'.mem, d, n)) != 0
    ensures Grown(s0.use, s'.use, s0.free, s'.free, d) && |s'.free| > Need(s'.mem, d, n + 1, left - 1)
  {
    hide Need, NeedOne, SameEntries, Flat, Word, Grown, Kept, Next, Refused;
    NeedOneFits(s.mem, d, n, left);
    VacantTakes(s, s', d, n, f);
    RestNext(s, s', d, n, left, f);
    GrownTwice(s0.use, s.use, s'.use, s0.free, s.free, s'.free, d);
  }

  /** Where no table is missing, the lower search position stays and every frame above it serves a page. */
  ghost predicate Counted(s0: Stage, head0: nat, s: Stage, head: nat, d: nat, n: nat, k: nat, count: nat) {
    MissingTables(s0.mem, d, n, count) == {} ==>
      && MissingTables(s.mem, d, n, count) == {} && head == head0
      && Available(s.free, head0) + |MissingPages(s0.mem, d, n, k)| == Available(s0.free, head0)
  }

  lemma CountedStart(s: Stage, head: nat, d: nat, n: nat, count: nat)
    ensures Counted(s, head, s, head, d, n, 0, count)
  {
    assert MissingPages(s.mem, d, n, 0) == {};
  }

  lemma CountedNext(s0: Stage, head0: nat, s: Stage, head: nat, s': Stage, head': nat, d: nat, n: nat, k: nat, count: nat, f: nat)
    requires k < count && n + count <= USER_PAGES && IsDir(s0.use, d) && IsDir(s.use, d) && Kept(s0.use, s.use)
    requires Counted(s0, head0, s, head, d, n, k, count) && KeepsPages(s0.mem, s.mem, s0.use, d, n, k) && Next(s, s', d, n + k, f)
    requires Word(s.mem, d, (n + k) / 0x400) != 0 ==>
               head' == head && Available(s'.free, head) == Available(s.free, head) - if FrameOf(Flat(s.mem, d, n + k)) == 0 then 1 else 0
    ensures Counted(s0, head0, s', head', d, n, k + 1, count)
  {
    if MissingTables(s0.mem, d, n, count) == {} {
      TablesStay(s, s', d, n, k, count, f);
      hide Next;
      KeepsNext(s0.mem, s.mem, s.mem, s0.use, s.use, d, n, k);
    }
  }

  lemma TablesStay(s: Stage, s': Stage, d: nat, n: nat, k: nat, count: nat, f: nat)
    requires k < count && n + count <= USER_PAGES && IsDir(s.use, d)
    requires MissingTables(s.mem, d, n, count) == {} && Next(s, s', d, n + k, f)
    ensures MissingTables(s'.mem, d, n, count) == {} && Word(s.mem, d, (n + k) / 0x400) != 0
  {
    hide Word, Flat, KeepsPages, Grown, NeedOne;
    var m := (n + k) / 0x400;
    assert n / 0x400 <= m <= (n + count) / 0x400 && m * 0x400 < n + count;
    assert m !in MissingTables(s.mem, d, n, count);
    assert MissingTables(s'.mem, d, n, count) <= MissingTables(s.mem, d, n, count);
  }

  lemma CountedEnd(s0: Stage, head0: nat, s: Stage, head: nat, d: nat, n: nat, k: nat, count: nat)
    requires k <= count && n + count <= USER_PAGES && IsDir(s0.use, d) && IsDir(s.use, d) && Kept(s0.use, s.use)
    requires Counted(s0, head0, s, head, d, n, k, count) && KeepsPages(s0.mem, s.mem, s0.use, d, n, k)
    requires k < count ==> FrameOf(Flat(s.mem, d, n + k)) == 0 && s.free <= {head}
    ensures MissingTables(s0.mem, d, n, count) == {} ==>
              (k == count <==> Available(s0.free, head0) >= |MissingPages(s0.mem, d, n, count)|)
  {
    hide Flat;
    if k < count {
      KeepsNext(s0.mem, s.mem, s.mem, s0.use, s.use, d, n, k);
      NoneAvailable(s.free, head);
      SubsetSize(MissingPages(s0.mem, d, n, k + 1), MissingPages(s0.mem, d, n, count));
    }
  }

  lemma OpenedSlots(s0: Stage, s: Stage, d: nat, n: nat, head: nat, k: nat, count: nat)
    requires Opened(s0, s, d, n, head, k, count)
    ensures |s.slot| == |s0.slot| && head + k <= |s.slot|
    ensures forall j: nat :: head <= j < head + k ==> s.slot[j] != 0
    ensures forall j: nat :: j < |s.slot| && !(head <= j < head + k) ==> s.slot[j] == s0.slot[j]
    ensures KeepsPages(s0.mem, s.mem, s0.use, d, n, count) && |MissingPages(s0.mem, d, n, k)| <= |s0.free|
  {
    hide Flat, Need;
  }

  /** The pages all have their frames only if there were as many as needed; two less may do for the windows.  Every page
      left without one costs a frame. */
  lemma OpenedAll(s0: Stage, s: Stage, d: nat, n: nat, head: nat, count: nat)
    requires Opened(s0, s, d, n, head, count, count)
    ensures |s0.free| + 2 >= Need(s0.mem, d, n, count)
    ensures Full(s.mem, d, n, count) ==> |s0.free| >= Need(s0.mem, d, n, count)
    ensures |s0.free| > Need(s0.mem, d, n, count) ==> Full(s.mem, d, n, count) && Grown(s0.use, s.use, s0.free, s.free, d)
    ensures |Leaked(s0, s)| == |MissingPages(s.mem, d, n, count)|
    ensures count > 0 ==> (FrameOf(Flat(s.mem, d, n)) == 0 <==> Refused(s0, d, n))
  {
    hide Flat, Windows, KeepsPages, Kept, Grown, Refused, Leaked;
    assert Full(s.mem, d, n, count) ==> MissingPages(s.mem, d, n, count) == {};
    assert MissingPages(s.mem, d, n + count, 0) == {} && MissingTables(s.mem, d, n + count, 0) == {};
  }

  lemma EnteredNext(s: Stage, s': Stage, d: nat, n: nat, f: nat)
    requires IsDir(s.use, d) && n < USER_PAGES && f in s.free && f != 0 && FrameOf(Flat(s'.mem, d, n)) == f
    requires forall d': nat, p: nat :: IsDir(s.use, d') && p < USER_PAGES && (d' != d || p != n) ==>
               Flat(s'.mem, d', p) == Flat(s.mem, d', p)
    requires FrameOf(Flat(s.mem, d, n)) == 0 && !Refused(s, d, n)
    requires SameEntries(s.mem, s'.mem, s.use, d, n / 0x400) && Word(s'.mem, d, n / 0x400) != 0
    requires Grown(s.use, s'.use, s.free, s'.free, d)
    requires |s'.free| == |s.free| - 1 - if Word(s.mem, d, n / 0x400) == 0 then 1 else 0
    ensures Next(s, s', d, n, f)
  {
    hide Flat, Word, SameEntries;
  }

  lemma RefusedNext(s: Stage, s': Stage, d: nat, n: nat, f: nat)
    requires Refused(s, d, n) && f != 0 && f in s.free && s' == Stage(s.mem, s.use, s.free - {f}, s'.slot) && |s'.free| <= 1
    ensures Next(s, s', d, n, f)
  {
    hide Flat, Word;
  }

  lemma NothingNext(s: Stage, d: nat, n: nat)
    requires FrameOf(Flat(s.mem, d, n)) != 0
    ensures Next(s, s, d, n, FrameOf(Flat(s.mem, d, n)))
  {
  }

  lemma NothingKept(use: map<nat, Use>, free: set<nat>, d: nat, mem: Memory, n: nat, k: nat)
    ensures Grown(use, use, free, free, d) && KeepsPages(mem, mem, use, d, n, k)
  {
  }
}
