/** The boot code over physical memory: reading sectors, decoding entries, searching the
    root directory and loading a file along its cluster chain. */
module FatLoader {
  import opened MachineWords
  import opened Division
  import opened Wrappers
  import opened Fat12

  /** Where the loader reads a sector before moving it up. */
  const TMP_FILE: nat := 0x7e00
  /** Where directory and table sectors are read. */
  const TMP_SECTOR: nat := 0x8000
  const TMP_END: nat := 0x8400
  /** OffsetOfKernelFile */
  const KERNEL: nat := 0x10_0000
  /** BaseOfLoader * 16 + OffsetOfLoader */
  const LOADER: nat := 0x1_0000

  class Loader {
    const disk: Disk
    const mem: array<Byte>
    var sectorNo: nat
    var rootDirSizeForLoop: nat
    var odd: nat
    /** OffsetOfKernelFileCount */
    var fileEnd: nat

    constructor (disk: Disk, mem: array<Byte>)
      ensures this.disk == disk && this.mem == mem
      ensures sectorNo == 0 && rootDirSizeForLoop == ROOT_DIR_SECTORS && odd == 0 && fileEnd == KERNEL
    {
      this.disk := disk;
      this.mem := mem;
      sectorNo, rootDirSizeForLoop, odd, fileEnd := 0, ROOT_DIR_SECTORS, 0, KERNEL;
    }

    /** Func_ReadOneSector: `count` sectors from `lba` on to address `dest`. */
    method ReadSectors(lba: nat, count: nat, dest: nat)
      requires lba + count <= SECTORS && dest + SECTOR * count <= mem.Length
      requires count > 0
      modifies mem
      ensures forall x :: 0 <= x < mem.Length ==>
        mem[x] == if dest <= x < dest + SECTOR * count then DiskByte(disk, lba, x - dest) else old(mem[x])
    {
      SplitAddressIsExact(lba);
      var chs := SplitAddress(lba);
      forall x | dest <= x < dest + SECTOR * count {
        mem[x] := DiskByte(disk, Address(chs), x - dest);
      }
    }

    /** Func_GetFATEntry: two sectors of the table, the word at the entry, shifted right by
        4 if the entry is odd, and masked to 12 bits. */
    method GetFatEntry(cluster: nat) returns (ax: nat)
      requires OnDisk(cluster) && TMP_END <= mem.Length
      modifies mem, this`odd
      ensures ax == Entry(disk, cluster)
      ensures forall x :: 0 <= x < mem.Length && !(TMP_SECTOR <= x < TMP_END) ==> mem[x] == old(mem[x])
    {
      odd := 0;
      ax := cluster * 3;
      var dx := ax % 2;
      ax := ax / 2;
      if dx != 0 {
        odd := 1;
      }
      dx := ax % SECTOR;
      ax := ax / SECTOR;
      ReadSectors(ax + FAT1, 2, TMP_SECTOR);
      var bx := TMP_SECTOR + dx;
      var low: int, high: int := mem[bx], mem[bx + 1];
      ax := low + 256 * high;
      TableBytes(disk, cluster, low, high);
      if odd == 1 {
        ax := ax / 16;
      }
      ax := ax % 0x1000;
    }

    /** The byte loop that moves a sector up. */
    method MoveSector(edi0: nat) returns (edi: nat)
      requires TMP_SECTOR <= edi0 && edi0 + SECTOR <= mem.Length
      modifies mem
      ensures edi == edi0 + SECTOR
      ensures forall x :: 0 <= x < mem.Length ==>
        mem[x] == if edi0 <= x < edi then old(mem[TMP_FILE + (x - edi0)]) else old(mem[x])
    {
      var esi, cx := TMP_FILE, SECTOR;
      edi := edi0;
      while cx != 0
        invariant 0 <= cx <= SECTOR && esi == TMP_FILE + (SECTOR - cx) && edi == edi0 + (SECTOR - cx)
        invariant forall x :: 0 <= x < mem.Length ==>
          mem[x] == if edi0 <= x < edi then old(mem[TMP_FILE + (x - edi0)]) else old(mem[x])
      {
        mem[edi] := mem[esi];
        esi := esi + 1;
        edi := edi + 1;
        cx := cx - 1;
      }
    }

    /** One turn of the loading loop: the cluster's sector goes to the end of the file. */
    method LoadCluster(cluster: nat)
      requires OnDisk(cluster) && TMP_END <= fileEnd && fileEnd + SECTOR <= mem.Length
      modifies mem, this`fileEnd
      ensures fileEnd == old(fileEnd) + SECTOR
      ensures forall x :: old(fileEnd) <= x < fileEnd ==> mem[x] == ClusterSector(disk, cluster)[x - old(fileEnd)]
      ensures forall x :: 0 <= x < mem.Length && !(TMP_FILE <= x < TMP_END) && !(old(fileEnd) <= x < fileEnd) ==>
        mem[x] == old(mem[x])
    {
      var ax := cluster + ROOT_DIR_SECTORS + SECTOR_BALANCE;
      ReadSectors(ax, 1, TMP_FILE);
      fileEnd := MoveSector(fileEnd);
    }

    /** Label_Go_On_Loading_File: from the first cluster until the table says 0xfff, for any
        chain; the chain is what makes the loop end. Afterwards memory from
        OffsetOfKernelFile on holds the file, and only the buffers below have changed too. */
    method LoadFile(first: nat, ghost clusters: seq<nat>)
      requires Chain(disk, clusters) && clusters[0] == first
      requires fileEnd == KERNEL && KERNEL + SECTOR * |clusters| <= mem.Length
      modifies mem, this`odd, this`fileEnd
      ensures AllOnDisk(clusters)
      ensures fileEnd == KERNEL + SECTOR * |clusters|
      ensures mem[KERNEL..fileEnd] == FileBytes(disk, clusters)
      ensures forall x :: 0 <= x < mem.Length && !(TMP_FILE <= x < TMP_END) && !(KERNEL <= x < fileEnd) ==>
        mem[x] == old(mem[x])
    {
      ChainIsOnDisk(disk, clusters);
      var cluster := first;
      ghost var i := 0;
      while true
        invariant 0 <= i < |clusters| && cluster == clusters[i]
        invariant fileEnd == KERNEL + SECTOR * i
        invariant forall n :: 0 <= n < SECTOR * i ==> mem[KERNEL + n] == FileBytes(disk, clusters)[n]
        invariant forall x :: 0 <= x < mem.Length && !(TMP_FILE <= x < TMP_END) && !(KERNEL <= x < fileEnd) ==>
          mem[x] == old(mem[x])
        decreases |clusters| - i
      {
        LoadCluster(cluster);
        forall n | SECTOR * i <= n < SECTOR * (i + 1)
          ensures FileBytes(disk, clusters)[n] == ClusterSector(disk, cluster)[n - SECTOR * i]
        {
          ByteOfFile(disk, clusters, n);
        }
        assert Links(disk, clusters, i);
        if i + 1 < |clusters| {
          assert Links(disk, clusters, i + 1);
        }
        cluster := GetFatEntry(cluster);
        i := i + 1;
        if cluster == END_OF_CHAIN {
          break;
        }
      }
    }

    // ----- Label_Start_Search

    /** Label_Cmp_FileName: 11 bytes from di on, or up to the first that differs. */
    method CompareName(di0: nat, name: Name) returns (same: bool, di: nat)
      requires di0 + NAME_LENGTH <= mem.Length
      ensures same <==> forall i :: 0 <= i < NAME_LENGTH ==> mem[di0 + i] == name[i]
      ensures di0 <= di <= di0 + NAME_LENGTH && (same <==> di == di0 + NAME_LENGTH)
    {
      var cx, si := NAME_LENGTH, 0;
      di := di0;
      while cx != 0
        invariant 0 <= cx <= NAME_LENGTH && si == NAME_LENGTH - cx && di == di0 + si
        invariant forall i :: 0 <= i < si ==> mem[di0 + i] == name[i]
      {
        cx := cx - 1;
        var al := name[si];
        si := si + 1;
        if al != mem[di] {
          assert mem[di0 + (si - 1)] != name[si - 1];
          return false, di;
        }
        di := di + 1;
      }
      same := true;
    }

    /** A sector of the root directory is in the buffer. */
    ghost predicate Buffered(s: Sector)
      requires TMP_END <= mem.Length
      reads mem
    {
      forall i :: 0 <= i < SECTOR ==> mem[TMP_SECTOR + i] == s[i]
    }

    /** The name at `at` in the buffer is that of directory entry `entry`. */
    lemma BufferedName(sector: nat, entry: nat, at: nat, name: Name)
      requires sector < ROOT_DIR_SECTORS && TMP_END <= mem.Length && Buffered(disk[ROOT_DIR + sector])
      requires entry / 16 == sector && at == TMP_SECTOR + entry % 16 * ENTRY_SIZE
      ensures (forall i :: 0 <= i < NAME_LENGTH ==> mem[at + i] == name[i]) <==> NameMatches(disk, entry, name)
    {}

    /** Label_Search_For_KernelBin: the 16 entries of a sector in turn; `di` ends inside the
        entry that was found. */
    method SearchSector(name: Name, ghost sector: nat) returns (di: Option<nat>, ghost found: nat)
      requires sector < ROOT_DIR_SECTORS && TMP_END <= mem.Length && Buffered(disk[ROOT_DIR + sector])
      ensures di.Some? ==>
        && found / 16 == sector && NameMatches(disk, found, name)
        && di.value == TMP_SECTOR + found % 16 * ENTRY_SIZE + NAME_LENGTH
        && forall e :: 16 * sector <= e < found ==> !NameMatches(disk, e, name)
      ensures di.None? ==> forall e :: 16 * sector <= e < 16 * sector + 16 ==> !NameMatches(disk, e, name)
    {
      var at, dx := TMP_SECTOR, 16;
      found := 16 * sector;
      while dx != 0
        invariant 0 <= dx <= 16 && found == 16 * sector + (16 - dx)
        invariant at == TMP_SECTOR + (16 - dx) * ENTRY_SIZE
        invariant forall e :: 16 * sector <= e < found ==> !NameMatches(disk, e, name)
      {
        dx := dx - 1;
        BufferedName(sector, found, at, name);
        var same, stop := CompareName(at, name);
        if same {
          return Some(stop), found;
        }
        at := stop / ENTRY_SIZE * ENTRY_SIZE + ENTRY_SIZE;
        found := found + 1;
      }
      return None, found;
    }

    method ReadDirSector(sector: nat)
      requires ROOT_DIR <= sector < ROOT_DIR + ROOT_DIR_SECTORS && TMP_END <= mem.Length
      modifies mem
      ensures Buffered(disk[sector])
      ensures forall x :: 0 <= x < mem.Length && !(TMP_SECTOR <= x < TMP_END) ==> mem[x] == old(mem[x])
    {
      ReadSectors(sector, 1, TMP_SECTOR);
    }

    /** Label_FileName_Found: the word at offset 0x1a of the entry di points into. */
    method ReadFirstCluster(di: nat, ghost entry: nat) returns (cluster: nat)
      requires entry < ROOT_ENTRIES && TMP_END <= mem.Length && Buffered(disk[ROOT_DIR + entry / 16])
      requires di == TMP_SECTOR + entry % 16 * ENTRY_SIZE + NAME_LENGTH
      ensures cluster == FirstCluster(disk, entry)
    {
      var at := di / ENTRY_SIZE * ENTRY_SIZE + 0x1a;
      var low: int, high: int := mem[at], mem[at + 1];
      ghost var s := disk[ROOT_DIR + entry / 16];
      assert low == s[entry % 16 * ENTRY_SIZE + 0x1a] && high == s[entry % 16 * ENTRY_SIZE + 0x1b];
      cluster := low + 256 * high;
    }

    /** The search over the 14 sectors of the root directory: the first cluster of the first
        entry with that name, or nothing exactly if there is no such entry. */
    method FindFile(name: Name) returns (cluster: Option<nat>, ghost found: nat)
      requires rootDirSizeForLoop == ROOT_DIR_SECTORS && TMP_END <= mem.Length
      modifies mem, this`sectorNo, this`rootDirSizeForLoop
      ensures cluster.Some? ==>
        && found < ROOT_ENTRIES && NameMatches(disk, found, name)
        && (forall e :: 0 <= e < found ==> !NameMatches(disk, e, name))
        && cluster.value == FirstCluster(disk, found)
      ensures cluster.None? ==> forall e :: 0 <= e < ROOT_ENTRIES ==> !NameMatches(disk, e, name)
      ensures forall x :: 0 <= x < mem.Length && !(TMP_SECTOR <= x < TMP_END) ==> mem[x] == old(mem[x])
    {
      sectorNo := ROOT_DIR;
      while rootDirSizeForLoop != 0
        invariant 0 <= rootDirSizeForLoop <= ROOT_DIR_SECTORS
        invariant sectorNo == ROOT_DIR + (ROOT_DIR_SECTORS - rootDirSizeForLoop)
        invariant forall e :: 0 <= e < 16 * (sectorNo - ROOT_DIR) ==> !NameMatches(disk, e, name)
        invariant forall x :: 0 <= x < mem.Length && !(TMP_SECTOR <= x < TMP_END) ==> mem[x] == old(mem[x])
      {
        rootDirSizeForLoop := rootDirSizeForLoop - 1;
        ReadDirSector(sectorNo);
        var di;
        di, found := SearchSector(name, sectorNo - ROOT_DIR);
        if di.Some? {
          var c := ReadFirstCluster(di.value, found);
          return Some(c), found;
        }
        sectorNo := sectorNo + 1;
      }
      return None, 0;
    }

    // ----- both together

    /** The boot code from Label_Start_Search to Label_File_Loaded: it fails exactly if no entry
        has the name, and otherwise leaves the file of the first such entry, whatever chain that
        entry starts, from OffsetOfKernelFile on. */
    method FindAndLoad(name: Name, ghost clusters: seq<nat>) returns (ok: bool, ghost found: nat)
      requires rootDirSizeForLoop == ROOT_DIR_SECTORS && fileEnd == KERNEL && TMP_END <= mem.Length
      requires forall e :: FirstMatch(disk, e, name) ==>
        Chain(disk, clusters) && clusters[0] == FirstCluster(disk, e) && KERNEL + SECTOR * |clusters| <= mem.Length
      modifies mem, this
      ensures !ok ==> forall e :: 0 <= e < ROOT_ENTRIES ==> !NameMatches(disk, e, name)
      ensures ok ==>
        && FirstMatch(disk, found, name) && AllOnDisk(clusters)
        && KERNEL <= fileEnd <= mem.Length && mem[KERNEL..fileEnd] == FileBytes(disk, clusters)
      ensures forall x :: 0 <= x < mem.Length && !(TMP_FILE <= x < TMP_END) && !(KERNEL <= x < fileEnd) ==>
        mem[x] == old(mem[x])
    {
      var cluster;
      cluster, found := FindFile(name);
      ok := cluster.Some?;
      if ok {
        assert FirstMatch(disk, found, name);
        LoadFile(cluster.value, clusters);
      }
    }

    // ----- the boot sector's loop, which bumps bx

    /** The loader's segment after `turns` turns. */
    ghost predicate Laps(clusters: seq<nat>, turns: nat, before: seq<Byte>)
      reads mem
      requires turns <= |clusters| && AllOnDisk(clusters)
      requires |before| == mem.Length && SEGMENT_END <= mem.Length
    {
      forall x :: LOADER <= x < SEGMENT_END ==> mem[x] == LapByte(disk, clusters, turns, before, x)
    }

    method ReadCluster(cluster: nat, dest: nat)
      requires OnDisk(cluster) && dest + SECTOR <= mem.Length
      modifies mem
      ensures forall x :: 0 <= x < mem.Length ==>
        mem[x] == if dest <= x < dest + SECTOR then ClusterSector(disk, cluster)[x - dest] else old(mem[x])
    {
      ReadSectors(cluster + ROOT_DIR_SECTORS + SECTOR_BALANCE, 1, dest);
    }

    method OverwriteSlot(cluster: nat, bx: nat, ghost clusters: seq<nat>, ghost i: nat, ghost before: seq<Byte>)
      requires AllOnDisk(clusters) && i < |clusters| && cluster == clusters[i] && bx == i % 128 * SECTOR
      requires |before| == mem.Length && SEGMENT_END <= mem.Length
      requires Laps(clusters, i, before)
      modifies mem
      ensures Laps(clusters, i + 1, before)
      ensures forall x :: 0 <= x < mem.Length && !(LOADER <= x < SEGMENT_END) ==> mem[x] == old(mem[x])
    {
      ReadCluster(cluster, LOADER + bx);
      forall x | LOADER <= x < SEGMENT_END
        ensures mem[x] == LapByte(disk, clusters, i + 1, before, x)
      {
        NextLap(i, x - LOADER);
        assert old(mem[x]) == LapByte(disk, clusters, i, before, x);
      }
    }

    /** Memory besides the table buffer and the loader's segment is as before. */
    ghost predicate Kept(before: seq<Byte>)
      reads mem
      requires |before| == mem.Length
    {
      forall x :: 0 <= x < mem.Length && !(TMP_SECTOR <= x < TMP_END) && !(LOADER <= x < SEGMENT_END) ==>
        mem[x] == before[x]
    }

    method LoaderTurn(cluster: nat, bx: nat, ghost clusters: seq<nat>, ghost i: nat, ghost before: seq<Byte>)
        returns (next: nat)
      requires Chain(disk, clusters) && AllOnDisk(clusters)
      requires i < |clusters| && cluster == clusters[i] && bx == i % 128 * SECTOR
      requires |before| == mem.Length && SEGMENT_END <= mem.Length
      requires Laps(clusters, i, before) && Kept(before)
      modifies mem, this`odd
      ensures Laps(clusters, i + 1, before) && Kept(before)
      ensures next == (if i + 1 < |clusters| then clusters[i + 1] else END_OF_CHAIN)
      ensures next == END_OF_CHAIN <==> i + 1 == |clusters|
    {
      OverwriteSlot(cluster, bx, clusters, i, before);
      assert Links(disk, clusters, i);
      if i + 1 < |clusters| {
        assert Links(disk, clusters, i + 1);
      }
      next := GetFatEntry(cluster);
    }

    /** The boot sector's loading loop: bx is 16 bits wide, so the 129th cluster goes where
        the first one went. */
    method LoadLoader(first: nat, ghost clusters: seq<nat>)
      requires Chain(disk, clusters) && clusters[0] == first
      requires SEGMENT_END <= mem.Length
      modifies mem, this`odd
      ensures AllOnDisk(clusters) && Laps(clusters, |clusters|, old(mem[..]))
      ensures Kept(old(mem[..]))
    {
      ChainIsOnDisk(disk, clusters);
      ghost var before := mem[..];
      var cluster, bx := first, 0;
      ghost var i := 0;
      while true
        invariant 0 <= i < |clusters| && cluster == clusters[i] && bx == i % 128 * SECTOR
        invariant Laps(clusters, i, before) && Kept(before)
        decreases |clusters| - i
      {
        cluster := LoaderTurn(cluster, bx, clusters, i, before);
        i := i + 1;
        if cluster == END_OF_CHAIN {
          break;
        }
        NextOffset(i - 1);
        bx := (bx + SECTOR) % SEGMENT;
      }
    }
  }

  /** The bytes bx can address. */
  const SEGMENT: nat := 0x1_0000
  const SEGMENT_END: nat := LOADER + SEGMENT

  /** The last of `turns` turns that reads to the slot-th sector of the segment. */
  function LastTurn(turns: nat, slot: nat): (turn: nat)
    requires slot < turns && slot < 128
    ensures turn < turns && turn % 128 == slot && turns <= turn + 128
  {
    slot + 128 * ((turns - 1 - slot) / 128)
  }

  /** What is at address x after `turns` turns: the last sector read to its place. */
  ghost function LapByte(disk: Disk, clusters: seq<nat>, turns: nat, before: seq<Byte>, x: nat): Byte
    requires turns <= |clusters| && AllOnDisk(clusters)
    requires LOADER <= x < SEGMENT_END <= |before|
  {
    var slot := (x - LOADER) / SECTOR;
    if slot < turns then ClusterSector(disk, clusters[LastTurn(turns, slot)])[(x - LOADER) % SECTOR] else before[x]
  }

  lemma LastTurnIsUnique(turns: nat, slot: nat, turn: nat)
    requires slot < turns && slot < 128
    requires turn < turns && turn % 128 == slot && turns <= turn + 128
    ensures turn == LastTurn(turns, slot)
  {}

  /** add bx, 512 goes round after 128 steps. */
  lemma NextOffset(i: nat)
    ensures (i % 128 * SECTOR + SECTOR) % SEGMENT == (i + 1) % 128 * SECTOR
  {
    var r := i % 128;
    if r == 127 {
      Divides(i + 1, 128, i / 128 + 1, 0);
    } else {
      Divides(i + 1, 128, i / 128, r + 1);
      Divides(r * SECTOR + SECTOR, SEGMENT, 0, r * SECTOR + SECTOR);
    }
  }

  lemma NextLap(i: nat, y: nat)
    requires y < SEGMENT
    ensures i % 128 * SECTOR <= y < i % 128 * SECTOR + SECTOR <==> y / SECTOR == i % 128
    ensures y / SECTOR < 128
    ensures y / SECTOR == i % 128 ==>
      && y / SECTOR < i + 1 && LastTurn(i + 1, y / SECTOR) == i
      && y - i % 128 * SECTOR == y % SECTOR
    ensures y / SECTOR != i % 128 ==>
      && (y / SECTOR < i + 1 <==> y / SECTOR < i)
      && (y / SECTOR < i ==> LastTurn(i + 1, y / SECTOR) == LastTurn(i, y / SECTOR))
  {}

  /** The boot sector's image of a file is the file itself exactly if it fits: up to 128
      clusters every sector keeps its place; from the 129th on the first one has lost it,
      to another cluster. */
  lemma FileIsIntactIff(disk: Disk, clusters: seq<nat>)
    requires Chain(disk, clusters)
    ensures (forall slot :: 0 <= slot < |clusters| && slot < 128 ==>
               clusters[LastTurn(|clusters|, slot)] == clusters[slot])
        <==> |clusters| <= 128
  {
    if |clusters| > 128 {
      ChainVisitsOnce(disk, clusters, 0, LastTurn(|clusters|, 0));
    }
  }

  /** And there is a file that does not fit: on some disk a chain of 129 clusters leaves its
      last cluster where its first one was read to. */
  lemma LongFileExample()
    ensures exists disk: Disk, clusters ::
      && Chain(disk, clusters) && |clusters| == 129
      && clusters[LastTurn(129, 0)] != clusters[0]
  {
    ChainOfLength(129);
    assert Row(129)[128] != Row(129)[0] && LastTurn(129, 0) == 128;
  }

  lemma ShortFileIsLoaded(disk: Disk, clusters: seq<nat>, before: seq<Byte>, n: nat)
    requires AllOnDisk(clusters) && |clusters| <= 128
    requires n < SECTOR * |clusters| && SEGMENT_END <= |before|
    ensures LapByte(disk, clusters, |clusters|, before, LOADER + n) == FileBytes(disk, clusters)[n]
  {}

  // ----- the bytes of a table entry

  /** The word read from the two sectors gives the entry, shifted if it is odd. */
  lemma TableBytes(disk: Disk, c: nat, low: Byte, high: Byte)
    requires OnDisk(c)
    requires low == DiskByte(disk, FAT1 + c * 3 / 2 / SECTOR, c * 3 / 2 % SECTOR)
    requires high == DiskByte(disk, FAT1 + c * 3 / 2 / SECTOR, c * 3 / 2 % SECTOR + 1)
    ensures Entry(disk, c) == (low as int + 256 * high as int) / (if c * 3 % 2 == 0 then 1 else 16) % 0x1000
  {
    NextByte(disk, c * 3 / 2);
    Parity(c);
    EntryOfWord(low, high, c);
  }

  lemma Parity(c: nat)
    ensures c * 3 % 2 == c % 2
  {}

  lemma NextByte(disk: Disk, at: nat)
    requires FAT1 + at / SECTOR + 1 < SECTORS
    ensures FatByte(disk, at) == DiskByte(disk, FAT1 + at / SECTOR, at % SECTOR)
    ensures FatByte(disk, at + 1) == DiskByte(disk, FAT1 + at / SECTOR, at % SECTOR + 1)
  {}

  lemma EntryOfWord(low: Byte, high: Byte, c: nat)
    ensures EntryOf(low, high, c) == (low as int + 256 * high as int) / (if c % 2 == 0 then 1 else 16) % 0x1000
  {
    var l: int, h: int := low, high;
    if c % 2 == 0 {
      Divides(l + 256 * h, 0x1000, h / 16, l + 256 * (h % 16));
    } else {
      Divides(l + 256 * h, 16, l / 16 + 16 * h, l % 16);
      Divides(l / 16 + 16 * h, 0x1000, 0, l / 16 + 16 * h);
    }
  }
}
