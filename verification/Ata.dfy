/** Byte-granular disk access over whole sectors: driver/ata.c.

    The device is a register file, a flat byte sequence a drive, and a 16-bit data port. */
module Ata {
  import opened Basics

  const SECTOR: nat := 0x200

  datatype State = NODISK | CHS | LBA28 | LBA48

  // The command registers

  /** A register keeps the value written before the current one. */
  datatype Reg = Reg(prev: byte, cur: byte) {
    function Out(v: byte): Reg {
      Reg(cur, v)
    }
  }

  datatype Regs = Regs(count: Reg, low: Reg, mid: Reg, high: Reg, device: byte) {
    function Drive(): nat {
      device / 0x10 % 2
    }

    function Lba28(): nat {
      low.cur + mid.cur * 0x100 + high.cur * 0x1_0000 + device % 0x10 * 0x100_0000
    }

    function Count28(): nat {
      if count.cur == 0 then 0x100 else count.cur
    }

    function Lba48(): nat {
      low.cur + mid.cur * 0x100 + high.cur * 0x1_0000
        + low.prev * 0x100_0000 + mid.prev * 0x1_0000_0000 + high.prev * 0x100_0000_0000
    }

    function Count48(): nat {
      if count.prev * 0x100 + count.cur == 0 then 0x1_0000 else count.prev * 0x100 + count.cur
    }
  }

  /** The last write of ata_lba28_attr and ata_lba48_attr: the device bytes 0xe0 and 0xa0 or 0xb0, joined. */
  function DeviceByte(drive: nat, nibble: nat): byte
    requires drive < 2 && nibble < 0x10
  {
    0xe0 + 0x10 * drive + nibble
  }

  lemma DeviceByteIsOr(nibble: bv8)
    ensures (nibble & 0x0f) | 0xe0 | 0xa0 == 0xe0 + (nibble & 0x0f)
    ensures (nibble & 0x0f) | 0xe0 | 0xb0 == 0xe0 + 0x10 + (nibble & 0x0f)
  {
  }

  /** ata_lba28_attr; `count` is cut to 8 bits. */
  function Select28(r: Regs, drive: nat, count: nat, lba: nat): Regs
    requires drive < 2
  {
    Regs(r.count.Out(count % 0x100),
         r.low.Out(lba % 0x100), r.mid.Out(lba / 0x100 % 0x100), r.high.Out(lba / 0x1_0000 % 0x100),
         DeviceByte(drive, lba / 0x100_0000 % 0x10))
  }

  /** ata_lba48_attr; `count` is cut to 16 bits. */
  function Select48(r: Regs, drive: nat, count: nat, lba: nat): Regs
    requires drive < 2
  {
    Regs(r.count.Out(count / 0x100 % 0x100).Out(count % 0x100),
         r.low.Out(lba / 0x100_0000 % 0x100).Out(lba % 0x100),
         r.mid.Out(lba / 0x1_0000_0000 % 0x100).Out(lba / 0x100 % 0x100),
         r.high.Out(lba / 0x100_0000_0000 % 0x100).Out(lba / 0x1_0000 % 0x100),
         DeviceByte(drive, 0))
  }

  lemma Halves(x: nat)
    ensures x == x % 0x100 + 0x100 * (x / 0x100)
    ensures x / 0x100 / 0x100 == x / 0x1_0000 && x / 0x1_0000 / 0x100 == x / 0x100_0000
  {
  }

  lemma Quarters(x: nat)
    ensures x == x % 0x100 + x / 0x100 % 0x100 * 0x100 + x / 0x1_0000 % 0x100 * 0x1_0000 + x / 0x100_0000 * 0x100_0000
  {
    Halves(x);
    Halves(x / 0x100);
    Halves(x / 0x1_0000);
  }

  lemma Further(x: nat)
    ensures x / 0x100_0000 / 0x100 == x / 0x1_0000_0000
    ensures x / 0x100_0000 / 0x1_0000 == x / 0x100_0000_0000
    ensures x / 0x100_0000 / 0x100_0000 == x / 0x1_0000_0000_0000
  {
  }

  /** What the drive reads from its registers is what it was asked for: a count of 256 (65536) goes as 0. */
  lemma Selected28(r: Regs, drive: nat, count: nat, lba: nat)
    requires drive < 2 && 0 < count <= 0x100 && lba < 0x1000_0000
    ensures var s := Select28(r, drive, count, lba);
            s.Drive() == drive && s.Lba28() == lba && s.Count28() == count
  {
    Quarters(lba);
    DeviceRead(drive, lba / 0x100_0000 % 0x10);
    assert lba / 0x100_0000 % 0x10 == lba / 0x100_0000;
  }

  lemma DeviceRead(drive: nat, nibble: nat)
    requires drive < 2 && nibble < 0x10
    ensures DeviceByte(drive, nibble) / 0x10 % 2 == drive && DeviceByte(drive, nibble) % 0x10 == nibble
  {
  }

  /** Whatever the count, the command goes to the drive named. */
  lemma SelectedDrive(r: Regs, drive: nat, count: nat, lba: nat)
    requires drive < 2
    ensures Select28(r, drive, count, lba).Drive() == drive && Select48(r, drive, count, lba).Drive() == drive
  {
    DeviceRead(drive, lba / 0x100_0000 % 0x10);
    DeviceRead(drive, 0);
  }

  lemma Selected48(r: Regs, drive: nat, count: nat, lba: nat)
    requires drive < 2 && 0 < count <= 0x1_0000 && lba < 0x1_0000_0000_0000
    ensures var s := Select48(r, drive, count, lba);
            s.Drive() == drive && s.Lba48() == lba && s.Count48() == count
  {
    DeviceRead(drive, 0);
    SixBytes(lba);
    Halves(count);
    assert count / 0x100 % 0x100 == if count == 0x1_0000 then 0 else count / 0x100;
  }

  /** The count arrives exactly when it fits the register; a count of 0 asks for all that fits. */
  lemma CountArrives(r: Regs, drive: nat, count: nat, lba: nat)
    requires drive < 2
    ensures Select28(r, drive, count, lba).Count28() == count <==> 0 < count <= 0x100
    ensures Select48(r, drive, count, lba).Count48() == count <==> 0 < count <= 0x1_0000
    ensures count == 0 ==> Select28(r, drive, count, lba).Count28() == 0x100 && Select48(r, drive, count, lba).Count48() == 0x1_0000
  {
    Halves(count);
    Halves(count / 0x100);
    assert count < 0x1_0000 ==> count / 0x100 % 0x100 == count / 0x100;
  }

  lemma SixBytes(x: nat)
    requires x < 0x1_0000_0000_0000
    ensures x == x % 0x100 + x / 0x100 % 0x100 * 0x100 + x / 0x1_0000 % 0x100 * 0x1_0000
                 + x / 0x100_0000 % 0x100 * 0x100_0000 + x / 0x1_0000_0000 % 0x100 * 0x1_0000_0000
                 + x / 0x100_0000_0000 % 0x100 * 0x100_0000_0000
  {
    Quarters(x);
    Quarters(x / 0x100_0000);
    Further(x);
    assert x / 0x1_0000_0000_0000 == 0;
  }

  // The flat view

  /** The bytes of s replace those of a from `at` on. */
  function Spliced(a: seq<byte>, at: nat, s: seq<byte>): (r: seq<byte>)
    requires at + |s| <= |a|
    ensures |r| == |a|
    ensures forall i: nat {:trigger r[i]} :: i < |a| ==> r[i] == if at <= i < at + |s| then s[i - at] else a[i]
  {
    a[..at] + s + a[at + |s|..]
  }

  /** What a length becomes as a result of 32 bits with a sign. */
  function Signed(n: nat): (r: int)
    ensures n < 0x8000_0000 ==> r == n
    ensures r % 0x1_0000_0000 == n % 0x1_0000_0000
  {
    var low := n % 0x1_0000_0000;
    if low < 0x8000_0000 then low else low - 0x1_0000_0000
  }

  function Word(low: byte, high: byte): (data: nat)
    ensures data < 0x1_0000 && Bytes(data) == [low, high]
  {
    (low as int) + (high as int) * 0x100
  }

  /** A word goes through the data port low byte first. */
  function Bytes(data: nat): seq<byte>
    requires data < 0x1_0000
  {
    [data % 0x100, data / 0x100]
  }

  /** The sector behind the last one a request touches; never beyond the last sector of the drive. */
  function EndSector(sectors: nat, count: nat, offset: nat): int {
    Min((offset + count + 0x1ff) / 0x200, sectors - 1)
  }

  /** How many bytes a request is served. */
  function Served(sectors: nat, count: nat, offset: nat): nat {
    if offset / 0x200 >= sectors then 0 else Max(0, Min(count, EndSector(sectors, count, offset) * 0x200 - offset))
  }

  /** A request is served in full exactly when it stays clear of the last sector. */
  lemma ServedInFull(sectors: nat, count: nat, offset: nat)
    requires count > 0
    ensures Served(sectors, count, offset) == count <==> sectors > 0 && offset + count <= (sectors - 1) * 0x200
  {
  }

  lemma SpliceMore(a: seq<byte>, at: nat, all: seq<byte>, t: nat)
    requires t + 2 <= |all| && at + |all| <= |a|
    ensures Spliced(Spliced(a, at, all[..t]), at + t, [all[t], all[t + 1]]) == Spliced(a, at, all[..t + 2])
  {
  }

  /** How many sectors a request asks the drive for. */
  function SectorCount(sectors: nat, count: nat, offset: nat): int {
    EndSector(sectors, count, offset) - offset / 0x200
  }

  /** No sector at all: exactly an empty request at a sector boundary, or one that starts in the last sector. */
  lemma NoSector(sectors: nat, count: nat, offset: nat)
    requires offset / 0x200 < sectors
    ensures SectorCount(sectors, count, offset) >= 0
    ensures SectorCount(sectors, count, offset) == 0 <==>
            offset / 0x200 == sectors - 1 || (count == 0 && offset % 0x200 == 0)
  {
  }

  /** One byte of a drive of one sector is not served. */
  lemma LastSectorExample()
    ensures Served(1, 1, 0) == 0 && SectorCount(1, 1, 0) == 0
  {
  }

  /** The request in sectors: where it starts in the first, and that it is served inside those asked for. */
  lemma InSectors(sectors: nat, count: nat, offset: nat)
    requires offset / 0x200 < sectors && SectorCount(sectors, count, offset) > 0
    ensures var n := SectorCount(sectors, count, offset);
            && offset / 0x200 + n < sectors
            && Served(sectors, count, offset) == Min(count, n * 0x200 - offset % 0x200)
            && offset % 0x200 + Served(sectors, count, offset) <= n * 0x200
            && (n - 1) * 0x200 < offset % 0x200 + Served(sectors, count, offset)
  {
  }

  /** How many sectors have to be read first because x lies inside one; in the last sector nothing is read. */
  function Margin(sectors: nat, x: nat): nat {
    if x % 0x200 != 0 && x / 0x200 < sectors - 1 then 1 else 0
  }

  /** The two reads around a request: one sector before it, at most one behind it, both within the drive. */
  lemma HeadRead(sectors: nat, offset: nat)
    requires offset / 0x200 < sectors
    ensures var head := offset / 0x200 * 0x200;
            && head / 0x200 == offset / 0x200 && SectorCount(sectors, offset % 0x200, head) <= 1
            && Served(sectors, offset % 0x200, head) <= offset % 0x200
            && (offset / 0x200 < sectors - 1 ==> Served(sectors, offset % 0x200, head) == offset % 0x200)
            && Margin(sectors, offset) == Max(0, SectorCount(sectors, offset % 0x200, head))
  {
    var head := offset / 0x200 * 0x200;
    assert head / 0x200 == offset / 0x200;
    assert (head + offset % 0x200 + 0x1ff) / 0x200 == offset / 0x200 + if offset % 0x200 == 0 then 0 else 1;
  }

  lemma HeadServed(sectors: nat, count: nat, offset: nat)
    requires offset / 0x200 < sectors && SectorCount(sectors, count, offset) > 0
    ensures offset / 0x200 < sectors - 1
  {
  }

  lemma TailRead(sectors: nat, x: nat)
    requires x / 0x200 < sectors
    ensures var end := Min((x + 0x1ff) / 0x200, sectors - 1);
            var tail := (end * 0x200 - x) % 0x1_0000_0000;
            && SectorCount(sectors, tail, x) <= 1
            && Margin(sectors, x) == Max(0, SectorCount(sectors, tail, x))
            && Served(sectors, tail, x) == Max(0, end * 0x200 - x) < 0x200
  {
    var up := (x + 0x1ff) / 0x200;
    assert x <= up * 0x200 < x + 0x200;
    if up <= sectors - 1 {
      assert (x + (up * 0x200 - x) + 0x1ff) / 0x200 == up;
    } else {
      TailPastEnd(sectors, x, ((sectors - 1) * 0x200 - x) % 0x1_0000_0000);
    }
  }

  /** Behind the last sector there is nothing to read first. */
  lemma NoTail(sectors: nat, x: nat)
    requires (Min((x + 0x1ff) / 0x200, sectors - 1) + 1) * 0x200 <= x
    ensures Margin(sectors, x) == 0
  {
  }

  /** When the request is cut short, the length of the second read wraps around, and it reads nothing. */
  lemma TailPastEnd(sectors: nat, x: nat, tail: nat)
    requires x / 0x200 == sectors - 1
    ensures SectorCount(sectors, tail, x) <= 0 && Served(sectors, tail, x) == 0
  {
  }

  /** Does the number of sectors fit the count register? */
  predicate Fits(state: State, n: int) {
    n <= (if state == LBA28 then 0x100 else 0x1_0000)
  }

  function Between(k: int, count: nat): nat {
    Max(0, Min(k, count))
  }

  /** The first n bytes of `now` come from the disk, at `base`; the others are as they were. */
  predicate Copied(disk: seq<byte>, base: nat, now: seq<byte>, was: seq<byte>, n: nat) {
    && n <= |now| == |was| && base + n <= |disk|
    && (forall k: nat {:trigger now[k]} :: k < |now| ==> now[k] == if k < n then disk[base + k] else was[k])
  }

  lemma NoneCopied(disk: seq<byte>, base: nat, was: seq<byte>, count: nat, offset: nat)
    requires base <= |disk|
    ensures Copied(disk, base, was, was, Between(0 - offset, count))
  {
  }

  lemma AllCopied(k: int, count: nat)
    requires count <= k
    ensures Between(k, count) == count
  {
  }

  /** The buffers hold the bytes of the drive around the request. */
  ghost predicate HeadOf(disk: seq<byte>, b1: seq<byte>, offset: nat) {
    && offset <= |disk| && |b1| == 0x200
    && forall t: nat {:trigger b1[t]} :: t < offset % 0x200 ==> b1[t] == disk[offset - offset % 0x200 + t]
  }

  ghost predicate TailOf(sectors: nat, disk: seq<byte>, b2: seq<byte>, count: nat, offset: nat) {
    var end := EndSector(sectors, count, offset) * 0x200;
    && end <= |disk| && |b2| == 0x200 && end - (offset + count) < 0x200
    && forall t: nat {:trigger b2[t]} :: t < end - (offset + count) ==> b2[t] == disk[offset + count + t]
  }

  lemma TailFilled(sectors: nat, disk: seq<byte>, b2: seq<byte>, was: seq<byte>, count: nat, offset: nat)
    requires |disk| == sectors * 0x200 && |b2| == 0x200 && offset / 0x200 < sectors
    requires var rest := EndSector(sectors, count, offset) * 0x200 - (offset + count);
             rest < 0x200 && (rest > 0 ==> Copied(disk, offset + count, b2, was, rest))
    ensures TailOf(sectors, disk, b2, count, offset)
  {
  }

  /** The sectors of a request with the new bytes in place: what has to be written. */
  function Image(disk: seq<byte>, first: nat, n: nat, offset: nat, s: seq<byte>): (r: seq<byte>)
    requires first * 0x200 <= offset && offset + |s| <= (first + n) * 0x200 <= |disk|
    ensures |r| == n * 0x200
  {
    Spliced(disk[first * 0x200..(first + n) * 0x200], offset - first * 0x200, s)
  }

  lemma ImageWritten(disk: seq<byte>, first: nat, n: nat, offset: nat, s: seq<byte>)
    requires first * 0x200 <= offset && offset + |s| <= (first + n) * 0x200 <= |disk|
    ensures Spliced(disk, first * 0x200, Image(disk, first, n, offset, s)) == Spliced(disk, offset, s)
  {
  }

  /** The byte of the sectors written at place t: from the first buffer before the request, from the second behind it,
      from the caller's in it. */
  function ByteAt(b1: seq<byte>, b2: seq<byte>, buf: seq<byte>, count: nat, offset: nat, t: nat): byte
    requires |b1| == |b2| == 0x200 && offset < 0x200 && count <= |buf| && t < offset + count + 0x200
  {
    if t < offset then b1[t] else if t - offset >= count then b2[t - offset - count] else buf[t - offset]
  }

  /** So the bytes around the request are written back as they were. */
  lemma ImageIs(sectors: nat, disk: seq<byte>, b1: seq<byte>, b2: seq<byte>, buf: seq<byte>, count: nat, offset: nat, t: nat)
    requires |disk| == sectors * 0x200 && count <= |buf|
    requires offset / 0x200 < sectors && SectorCount(sectors, count, offset) > 0
    requires HeadOf(disk, b1, offset) && TailOf(sectors, disk, b2, count, offset)
    requires t < SectorCount(sectors, count, offset) * 0x200
    ensures var n, served := SectorCount(sectors, count, offset), Served(sectors, count, offset);
            && offset + served <= (offset / 0x200 + n) * 0x200 <= |disk| && t < offset % 0x200 + served + 0x200
            && Image(disk, offset / 0x200, n, offset, buf[..served])[t] == ByteAt(b1, b2, buf, served, offset % 0x200, t)
  {
    InSectors(sectors, count, offset);
    var n, served := SectorCount(sectors, count, offset), Served(sectors, count, offset);
    if served < count {
      assert offset + served == (offset / 0x200 + n) * 0x200;
    }
  }

  class Controller {
    const buf1: array<byte>
    const buf2: array<byte>
    var sectors: seq<nat>     // ata_sectors
    var state: seq<State>     // ata_state
    // the drives, and the command under way
    var disks: seq<seq<byte>>
    var regs: Regs
    var unit: nat
    var at: nat               // the next byte of the drive to go through the data port
    var words: nat            // how many words are still to go
    // what drive n shows in its status register after command number k, and how many commands were sent
    const status: (nat, nat) -> byte
    var asked: nat

    predicate Valid()
      reads this
    {
      && buf1.Length == SECTOR && buf2.Length == SECTOR && buf1 != buf2
      && |sectors| == |state| == |disks| == 4
      && forall n: nat {:trigger disks[n]} {:trigger sectors[n]} :: n < 4 ==>
           && |disks[n]| == sectors[n] * 0x200
           && sectors[n] <= (if state[n] == LBA28 then 0x1000_0000 else 0x1_0000_0000_0000)
    }

    /** inb(status) & STAT_REG_ERR: the drive may refuse any command. */
    method Status() returns (error: bool)
      modifies this`asked
      ensures error <==> status(unit, old(asked)) % 2 == 1
      ensures asked == old(asked) + 1
    {
      error := status(unit, asked) % 2 != 0;
      asked := asked + 1;
    }

    /** A command starts: the drive decodes its registers. */
    method Command(channel: nat)
      requires Valid() && channel < 2
      modifies this`unit, this`at, this`words
      ensures unit == 2 * channel + regs.Drive()
      ensures state[unit] == LBA28 ==> at == regs.Lba28() * 0x200 && words == regs.Count28() * 0x100
      ensures state[unit] != LBA28 ==> at == regs.Lba48() * 0x200 && words == regs.Count48() * 0x100
    {
      unit := 2 * channel + regs.Drive();
      if state[unit] == LBA28 {
        at, words := regs.Lba28() * 0x200, regs.Count28() * 0x100;
      } else {
        at, words := regs.Lba48() * 0x200, regs.Count48() * 0x100;
      }
    }

    /** ata_read_lba28, ata_write_lba28, ata_read_lba48, ata_write_lba48: registers, then the command. */
    method Start(n: nat, count: nat, lba: nat)
      requires Valid() && n < 4 && (state[n] == LBA28 || state[n] == LBA48)
      requires 0 < count && Fits(state[n], count) && lba + count <= sectors[n]
      modifies this`regs, this`unit, this`at, this`words
      ensures unit == n && at == lba * 0x200 && words == count * 0x100
    {
      if state[n] == LBA28 {
        Selected28(regs, n % 2, count, lba);
        regs := Select28(regs, n % 2, count, lba);
      } else {
        Selected48(regs, n % 2, count, lba);
        regs := Select48(regs, n % 2, count, lba);
      }
      hide Select28, Select48, Regs.Lba28, Regs.Lba48, Regs.Count28, Regs.Count48, Regs.Drive;
      Command(n / 2);
    }

    /** inw(data): low byte first. */
    method InWord() returns (data: nat)
      requires Valid() && unit < 4 && words > 0 && at + 2 <= |disks[unit]|
      modifies this`at, this`words
      ensures data == Word(disks[unit][old(at)], disks[unit][old(at) + 1])
      ensures at == old(at) + 2 && words == old(words) - 1
    {
      data := Word(disks[unit][at], disks[unit][at + 1]);
      at, words := at + 2, words - 1;
    }

    /** outw(data) */
    method OutWord(data: nat)
      requires Valid() && unit < 4 && words > 0 && at + 2 <= |disks[unit]| && data < 0x1_0000
      modifies this`at, this`words, this`disks
      ensures Valid() && disks == old(disks)[unit := Spliced(old(disks[unit]), old(at), Bytes(data))]
      ensures at == old(at) + 2 && words == old(words) - 1
    {
      disks := disks[unit := Spliced(disks[unit], at, Bytes(data))];
      at, words := at + 2, words - 1;
    }

    /** ata_read_data: the wanted bytes of the sectors are stored, the others dropped. */
    method ReadData(buf: array<byte>, sectorCount: nat, count: nat, offset: nat)
      requires Valid() && unit < 4 && words == sectorCount * 0x100 && at + sectorCount * 0x200 <= |disks[unit]|
      requires offset < 0x200 && count <= buf.Length && offset + count <= sectorCount * 0x200
      modifies this`at, this`words, buf
      ensures Valid() && Copied(disks[unit], old(at) + offset, buf[..], old(buf[..]), count)
    {
      hide Copied, Between;
      ghost var start, was := at, buf[..];
      NoneCopied(disks[unit], start + offset, was, count, offset);
      for n := 0 to sectorCount
        invariant Valid() && at == start + n * 0x200 && words == (sectorCount - n) * 0x100
        invariant Copied(disks[unit], start + offset, buf[..], was, Between(n * 0x200 - offset, count))
      {
        ReadSector(buf, n * 0x200 - offset, count, start + offset, was);
      }
      AllCopied(sectorCount * 0x200 - offset, count);
    }

    /** The inner loop, for the sector that starts at byte k of the buffer. */
    method ReadSector(buf: array<byte>, k: int, count: nat, ghost base: nat, ghost was: seq<byte>)
      requires Valid() && unit < 4 && words >= 0x100 && at == base + k && at + 0x200 <= |disks[unit]|
      requires count <= buf.Length && base + count <= |disks[unit]| && |was| == buf.Length
      requires Copied(disks[unit], base, buf[..], was, Between(k, count))
      modifies this`at, this`words, buf
      ensures Valid() && at == old(at) + 0x200 && words == old(words) - 0x100
      ensures Copied(disks[unit], base, buf[..], was, Between(k + 0x200, count))
    {
      hide Copied, Between;
      for i := 0 to 0x100
        invariant Valid() && at == base + k + i * 2 && words == old(words) - i
        invariant Copied(disks[unit], base, buf[..], was, Between(k + i * 2, count))
      {
        var data := InWord();
        StoreByte(buf, k + i * 2, count, data % 0x100, base, was);
        StoreByte(buf, k + i * 2 + 1, count, data / 0x100, base, was);
      }
    }

    /** One byte of a word, if it is wanted. */
    method StoreByte(buf: array<byte>, k: int, count: nat, b: byte, ghost base: nat, ghost was: seq<byte>)
      requires Valid() && unit < 4 && count <= buf.Length && base + count <= |disks[unit]| && |was| == buf.Length
      requires 0 <= k < count ==> b == disks[unit][base + k]
      requires Copied(disks[unit], base, buf[..], was, Between(k, count))
      modifies buf
      ensures Copied(disks[unit], base, buf[..], was, Between(k + 1, count))
    {
      if k >= 0 && k < count {
        buf[k] := b;
      }
    }

    /** ata_write_data */
    method WriteData(buf: array<byte>, sectorCount: nat, count: nat, offset: nat, ghost all: seq<byte>)
      requires Valid() && unit < 4 && words == sectorCount * 0x100 && at + sectorCount * 0x200 <= |disks[unit]|
      requires offset < 0x200 && count <= buf.Length && sectorCount * 0x200 < offset + count + 0x200
      requires |all| == sectorCount * 0x200
      requires forall t: nat {:trigger all[t]} :: t < |all| ==> all[t] == ByteAt(buf1[..], buf2[..], buf[..], count, offset, t)
      modifies this`at, this`words, this`disks
      ensures Valid() && disks == old(disks)[unit := Spliced(old(disks[unit]), old(at), all)]
    {
      ghost var start, was := at, disks;
      assert Spliced(was[unit], start, all[..0]) == was[unit];
      for n := 0 to sectorCount
        invariant Valid() && at == start + n * 0x200 && words == (sectorCount - n) * 0x100
        invariant disks == was[unit := Spliced(was[unit], start, all[..n * 0x200])]
      {
        for i := 0 to 0x100
          invariant Valid() && at == start + n * 0x200 + i * 2 && words == (sectorCount - n) * 0x100 - i
          invariant disks == was[unit := Spliced(was[unit], start, all[..n * 0x200 + i * 2])]
        {
          var t := n * 0x200 + i * 2;
          var data := Word(ByteAt(buf1[..], buf2[..], buf[..], count, offset, t), ByteAt(buf1[..], buf2[..], buf[..], count, offset, t + 1));
          SpliceMore(was[unit], start, all, t);
          OutWord(data);
        }
      }
      assert all[..sectorCount * 0x200] == all;
    }

    /** A request within drive n that covers a sector. */
    predicate Asks(n: nat, count: nat, offset: nat)
      requires Valid() && n < 4
      reads this
      ensures Asks(n, count, offset) <==>
              offset / 0x200 + 1 < sectors[n] && !(count == 0 && offset % 0x200 == 0)
    {
      offset / 0x200 < sectors[n] && SectorCount(sectors[n], count, offset) > 0
    }

    /** ata_read */
    method Read(n: nat, buf: array<byte>, count: nat, offset: nat) returns (r: int)
      requires Valid()
      requires n < 4 && offset / 0x200 < sectors[n] ==>
                 Fits(state[n], SectorCount(sectors[n], count, offset)) && Served(sectors[n], count, offset) <= buf.Length
      modifies this`regs, this`unit, this`at, this`words, this`asked, buf
      ensures Valid()
      ensures r != -1 ==> n < 4 && r == Served(sectors[n], count, offset)
      ensures r == -1 <==> n >= 4 ||
                           (Asks(n, count, offset)
                            && ((state[n] != LBA28 && state[n] != LBA48) || status(n, old(asked)) % 2 == 1))
      ensures asked == old(asked) + if n < 4 && Asks(n, count, offset) && (state[n] == LBA28 || state[n] == LBA48) then 1 else 0
      ensures if r > 0 then Copied(disks[n], offset, buf[..], old(buf[..]), r) else buf[..] == old(buf[..])
    {
      if n >= 4 {
        return -1;
      }
      var startSector := offset / 0x200;
      if startSector >= sectors[n] {
        return 0;
      }
      var sectorCount := Min((offset + count + 0x1ff) / 0x200, sectors[n] - 1) - startSector;
      if sectorCount == 0 {
        return 0;
      }
      InSectors(sectors[n], count, offset);
      if state[n] != LBA28 && state[n] != LBA48 {
        return -1;
      }
      Start(n, sectorCount, startSector);
      var error := Status();
      if error {
        return -1;
      }
      r := Min(count, sectorCount * 0x200 - offset % 0x200);
      ReadData(buf, sectorCount, r, offset % 0x200);
    }

    predicate Lba(n: nat)
      requires Valid() && n < 4
      reads this
    {
      state[n] == LBA28 || state[n] == LBA48
    }

    /** What ata_write reads first: the bytes before the request in its first sector ... */
    method Head(n: nat, count: nat, offset: nat) returns (ok: bool)
      requires Valid() && n < 4 && offset / 0x200 < sectors[n]
      modifies this`regs, this`unit, this`at, this`words, this`asked, buf1
      ensures Valid()
      ensures ok <==> Margin(sectors[n], offset) == 0 || (Lba(n) && status(n, old(asked)) % 2 == 0)
      ensures asked == old(asked) + if Lba(n) then Margin(sectors[n], offset) else 0
      ensures ok && SectorCount(sectors[n], count, offset) > 0 ==> HeadOf(disks[n], buf1[..], offset)
    {
      ok := true;
      if offset % 0x200 != 0 {
        HeadRead(sectors[n], offset);
        if SectorCount(sectors[n], count, offset) > 0 {
          HeadServed(sectors[n], count, offset);
        }
        hide Served, SectorCount;
        var r := Read(n, buf1, offset % 0x200, offset / 0x200 * 0x200);
        ok := r != -1;
      }
    }

    /** ... and those behind it in its last, unless the request was cut short at the end of the drive. */
    method Tail(n: nat, count: nat, offset: nat) returns (ok: bool)
      requires Valid() && n < 4 && offset / 0x200 < sectors[n]
      modifies this`regs, this`unit, this`at, this`words, this`asked, buf2
      ensures Valid() && (ok ==> TailOf(sectors[n], disks[n], buf2[..], count, offset))
      ensures ok <==> Margin(sectors[n], offset + count) == 0 || (Lba(n) && status(n, old(asked)) % 2 == 0)
      ensures asked == old(asked) + if Lba(n) then Margin(sectors[n], offset + count) else 0
    {
      hide TailOf, Copied, Word, Bytes, Between, Fits, Margin, Served;
      var end := Min((offset + count + 0x1ff) / 0x200, sectors[n] - 1);
      assert (count + offset) / 0x200 >= sectors[n] ==> (end + 1) * 0x200 <= count + offset;
      hide EndSector, Min;
      ok := true;
      ghost var was := buf2[..];
      if (end + 1) * 0x200 > count + offset {
        TailRead(sectors[n], count + offset);
        hide Served, SectorCount;
        var r := Read(n, buf2, (end * 0x200 - (count + offset)) % 0x1_0000_0000, count + offset);
        ok := r != -1;
      } else {
        NoTail(sectors[n], count + offset);
      }
      if ok {
        TailFilled(sectors[n], disks[n], buf2[..], was, count, offset);
      }
    }

    /** ata_write.  A request that covers no sector writes nothing; one that starts inside the last sector is then
        reported as written all the same, with a negative result from 2 GiB on. */
    method Write(n: nat, buf: array<byte>, count: nat, offset: nat) returns (r: int)
      requires Valid() && count <= buf.Length && count < 0x1_0000_0000 && buf != buf1 && buf != buf2
      requires n < 4 && offset / 0x200 < sectors[n] ==> Fits(state[n], SectorCount(sectors[n], count, offset))
      modifies this`regs, this`unit, this`at, this`words, this`disks, this`asked, buf1, buf2
      ensures Valid()
      ensures r == -1 ==> disks == old(disks)
      ensures r == -1 <==>
              || n >= 4
              || (offset / 0x200 < sectors[n] && state[n] != LBA28 && state[n] != LBA48)
              || (exists k: nat :: old(asked) <= k < asked && status(n, k) % 2 == 1)
              || (offset / 0x200 + 1 == sectors[n] && offset % 0x200 != 0 && count == 0xffff_ffff)
      ensures forall k: nat :: old(asked) <= k < asked - 1 ==> status(n, k) % 2 == 0
      ensures n < 4 && offset / 0x200 < sectors[n] && r != -1 ==>
                asked == old(asked) + Margin(sectors[n], offset) + Margin(sectors[n], offset + count) + 1
      ensures old(asked) <= asked && (n < 4 && offset / 0x200 >= sectors[n] ==> asked == old(asked))
      ensures n < 4 && offset / 0x200 >= sectors[n] ==> r == 0 && disks == old(disks)
      ensures n < 4 && offset / 0x200 < sectors[n] && SectorCount(sectors[n], count, offset) == 0 ==>
                (r == -1 || r == if offset % 0x200 == 0 then 0 else Signed(count)) && disks == old(disks)
      ensures n < 4 && offset / 0x200 < sectors[n] && SectorCount(sectors[n], count, offset) > 0 && r != -1 ==>
                && r == Served(sectors[n], count, offset)
                && disks == old(disks)[n := Spliced(old(disks[n]), offset, buf[..r])]
    {
      if n >= 4 {
        return -1;
      }
      var startSector := offset / 0x200;
      if startSector >= sectors[n] {
        return 0;
      }
      NoSector(sectors[n], count, offset);
      var sectorCount := Min((offset + count + 0x1ff) / 0x200, sectors[n] - 1) - startSector;
      var ok := Head(n, count, offset);
      if !ok {
        return -1;
      }
      ok := Tail(n, count, offset);
      if !ok || (state[n] != LBA28 && state[n] != LBA48) {
        return -1;
      }
      if sectorCount == 0 {
        r := PutNothing(n, count, offset);
      } else {
        r := Put(n, buf, count, offset, sectorCount);
      }
    }

    /** The length left in no sector behind the offset in it, in 64 bits without a sign. */
    function Left(start: nat): nat {
      (0 - start) % 0x1_0000_0000_0000_0000
    }

    lemma LeftIs(start: nat)
      requires start < 0x200
      ensures Left(start) == if start == 0 then 0 else 0x1_0000_0000_0000_0000 - start
    {
    }

    /** The second half of ata_write when the request covers no sector: the command goes out with a count of 0, no word
        follows it, and the length left in the sectors, 0 minus the offset in the first, wraps around below 0. */
    method PutNothing(n: nat, count: nat, offset: nat) returns (r: int)
      requires Valid() && n < 4 && (state[n] == LBA28 || state[n] == LBA48) && count < 0x1_0000_0000
      modifies this`regs, this`unit, this`at, this`words, this`asked
      ensures Valid() && asked == old(asked) + 1
      ensures r == if status(n, old(asked)) % 2 == 1 then -1 else if offset % 0x200 == 0 then 0 else Signed(count)
    {
      SelectedDrive(regs, n % 2, 0, offset / 0x200);
      LeftIs(offset % 0x200);
      hide Select28, Select48, Regs.Lba28, Regs.Lba48, Regs.Count28, Regs.Count48, Regs.Drive, Signed, Left;
      assert Signed(0) == 0;
      regs := if state[n] == LBA28 then Select28(regs, n % 2, 0, offset / 0x200) else Select48(regs, n % 2, 0, offset / 0x200);
      Command(n / 2);
      var error := Status();
      if error {
        return -1;
      }
      var left := Left(offset % 0x200);
      r := Signed(if count > left then left else count);
    }

    /** The second half of ata_write. */
    method Put(n: nat, buf: array<byte>, count: nat, offset: nat, sectorCount: nat) returns (r: int)
      requires Valid() && count <= buf.Length && n < 4 && offset / 0x200 < sectors[n]
      requires sectorCount == SectorCount(sectors[n], count, offset) > 0 && Fits(state[n], sectorCount)
      requires state[n] == LBA28 || state[n] == LBA48
      requires HeadOf(disks[n], buf1[..], offset) && TailOf(sectors[n], disks[n], buf2[..], count, offset)
      modifies this`regs, this`unit, this`at, this`words, this`disks, this`asked
      ensures Valid() && asked == old(asked) + 1
      ensures r == if status(n, old(asked)) % 2 == 1 then -1 else Served(sectors[n], count, offset)
      ensures r == -1 ==> disks == old(disks)
      ensures r != -1 ==> offset + r <= |old(disks[n])|
      ensures r != -1 ==> disks == old(disks)[n := Spliced(old(disks[n]), offset, buf[..r])]
    {
      InSectors(sectors[n], count, offset);
      Start(n, sectorCount, offset / 0x200);
      var error := Status();
      if error {
        return -1;
      }
      r := Min(count, sectorCount * 0x200 - offset % 0x200);
      ghost var all := Image(disks[n], offset / 0x200, sectorCount, offset, buf[..r]);
      forall t: nat | t < |all|
        ensures all[t] == ByteAt(buf1[..], buf2[..], buf[..], r, offset % 0x200, t)
      {
        ImageIs(sectors[n], disks[n], buf1[..], buf2[..], buf[..], count, offset, t);
      }
      ImageWritten(disks[n], offset / 0x200, sectorCount, offset, buf[..r]);
      hide Spliced, Image;
      WriteData(buf, sectorCount, r, offset % 0x200, all);
    }

    /** What was written is what is read. */
    method WriteThenRead(n: nat, buf: array<byte>, back: array<byte>, count: nat, offset: nat) returns (w: int, r: int)
      requires Valid() && count <= buf.Length && count <= back.Length && count < 0x1_0000_0000 && back != buf
      requires buf != buf1 && buf != buf2 && back != buf1 && back != buf2
      requires n < 4 && offset / 0x200 < sectors[n] ==> Fits(state[n], SectorCount(sectors[n], count, offset))
      modifies this`regs, this`unit, this`at, this`words, this`disks, this`asked, buf1, buf2, back
      ensures n < 4 && (state[n] == LBA28 || state[n] == LBA48) && (forall k: nat :: status(n, k) % 2 == 0) ==>
                r >= 0 && (w >= 0 <==> offset / 0x200 + 1 != sectors[n] || offset % 0x200 == 0 || count < 0x8000_0000)
      ensures w >= 0 && r >= 0 ==> r <= w && r <= count && back[..r] == buf[..r] == old(buf[..r])
      ensures w >= 0 && r >= 0 ==>
                n < 4 && (w == r <==> offset / 0x200 >= sectors[n] || offset / 0x200 < sectors[n] - 1 || offset % 0x200 == 0 || count == 0)
    {
      w := Write(n, buf, count, offset);
      ghost var was := back[..];
      r := Read(n, back, count, offset);
      if w >= 0 && r > 0 {
        assert r <= count && offset + r <= |disks[n]|;
        forall k: nat | k < r
          ensures back[k] == buf[k]
        {
          assert back[..][k] == disks[n][offset + k];
        }
      }
    }
  }
}
