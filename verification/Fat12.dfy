/** The FAT12 floppy the boot sector and the loader read: sectors, packed 12-bit entries,
    root directory and cluster chains. */
module Fat12 {
  import opened MachineWords
  import opened Division
  const SECTOR: nat := 512
  const SECTORS: nat := 2880
  const FAT1: nat := 1
  const ROOT_DIR: nat := 19
  const ROOT_DIR_SECTORS: nat := 14
  const SECTOR_BALANCE: nat := 17
  /** RootDirSectors + SectorBalance: the sector of cluster c is c + 31. */
  const DATA: nat := 31
  const END_OF_CHAIN: nat := 0xfff

  function Blank<T>(n: nat, t: T): (s: seq<T>)
    ensures |s| == n
  {
    seq(n, _ => t)
  }

  type Sector = s: seq<Byte> | |s| == 512 witness Blank(512, 0)

  const BLANK_SECTOR: Sector := Blank(512, 0)

  type Disk = d: seq<Sector> | |d| == 2880 witness Blank(2880, BLANK_SECTOR)

  /** Byte i after the start of sector s, running on across sectors. */
  function DiskByte(disk: Disk, s: nat, i: nat): Byte
    requires s + i / SECTOR < SECTORS
  {
    disk[s + i / SECTOR][i % SECTOR]
  }

  // ----- sector addresses

  /** Track, head and sector as the BIOS takes them. */
  datatype Chs = Chs(cylinder: nat, head: nat, sector: nat)

  /** The divisions of Func_ReadOneSector: al = ax / 18 and ah = ax % 18, in 8 bits. */
  function SplitAddress(lba: nat): Chs
    requires lba / 18 < 256
  {
    var al, ah := lba / 18, lba % 18;
    Chs(al / 2, al % 2, ah + 1)
  }

  function Address(chs: Chs): int { (2 * chs.cylinder + chs.head) * 18 + chs.sector - 1 }

  /** The split names the sector that was meant, on a track and head the floppy has. */
  lemma SplitAddressIsExact(lba: nat)
    requires lba < SECTORS
    ensures lba / 18 < 256
    ensures var chs := SplitAddress(lba);
      && Address(chs) == lba && chs.cylinder < 80 && chs.head < 2 && 1 <= chs.sector <= 18
      && lba == 36 * chs.cylinder + 18 * chs.head + chs.sector - 1
  {}

  // ----- the file allocation table

  function FatByte(disk: Disk, i: nat): Byte
    requires FAT1 + i / SECTOR < SECTORS
  {
    DiskByte(disk, FAT1, i)
  }

  /** Clusters whose sector is on the disk. */
  predicate OnDisk(c: nat) { c + DATA < SECTORS }

  /** Entry c: the low 12 bits of the two bytes from 3c/2 on, or the high 12 if c is odd. */
  function Entry(disk: Disk, c: nat): int
    requires OnDisk(c)
  {
    EntryOf(FatByte(disk, c * 3 / 2), FatByte(disk, c * 3 / 2 + 1), c)
  }

  function EntryOf(low: Byte, high: Byte, c: nat): int {
    if c % 2 == 0 then low as int + 256 * (high as int % 16) else low as int / 16 + 16 * high as int
  }

  type Entry12 = e: nat | e < 0x1000

  /** Two entries to three bytes. */
  function Pack(entries: seq<Entry12>): seq<Byte> {
    if entries == [] then []
    else if |entries| == 1 then [entries[0] % 256, entries[0] / 256]
    else
      var a, b := entries[0], entries[1];
      [a % 256, a / 256 + 16 * (b % 16), b / 16] + Pack(entries[2..])
  }

  /** Entry c read from a packed table. */
  function Unpack(bytes: seq<Byte>, c: nat): int
    requires c * 3 / 2 + 1 < |bytes|
  {
    EntryOf(bytes[c * 3 / 2], bytes[c * 3 / 2 + 1], c)
  }

  /** The high bytes of an even entry and of an odd one. */
  lemma NibblesDecode(l: int, h: int, r: int)
    requires 0 <= l < 16 && 0 <= h < 16
    ensures (l + 16 * h) % 16 == l && (l + 16 * h) / 16 == h
  {
    Divides(l + 16 * h, 16, h, l);
  }

  lemma PairDecodes(a: Entry12, b: Entry12)
    ensures EntryOf(a % 256, a / 256 + 16 * (b % 16), 0) == a
    ensures EntryOf(a % 256, a / 256, 0) == a
    ensures EntryOf(a / 256 + 16 * (b % 16), b / 16, 1) == b
  {
    NibblesDecode(a / 256, b % 16, 0);
    NibblesDecode(a / 256, 0, 0);
  }

  /** Entries two further on start three bytes further on, and are of the same kind. */
  lemma PairStride(c: nat)
    requires c >= 2
    ensures c * 3 / 2 == (c - 2) * 3 / 2 + 3 && c % 2 == (c - 2) % 2
  {
    assert c * 3 == (c - 2) * 3 + 6;
  }

  lemma {:induction false} UnpackInvertsPack(entries: seq<Entry12>, c: nat)
    requires c < |entries|
    ensures c * 3 / 2 + 1 < |Pack(entries)| && Unpack(Pack(entries), c) == entries[c]
    decreases |entries|
  {
    if c >= 2 {
      var bytes, rest, at := Pack(entries), Pack(entries[2..]), (c - 2) * 3 / 2;
      UnpackInvertsPack(entries[2..], c - 2);
      PairStride(c);
      assert bytes[3..] == rest;
      assert bytes[at + 3] == rest[at] && bytes[at + 4] == rest[at + 1];
    } else {
      PairDecodes(entries[0], if |entries| > 1 then entries[1] else 0);
    }
  }

  /** The disk's first file allocation table holds these entries. */
  ghost predicate HoldsFat(disk: Disk, entries: seq<Entry12>) {
    forall i :: 0 <= i < |Pack(entries)| && FAT1 + i / SECTOR < SECTORS ==>
      FatByte(disk, i) == Pack(entries)[i]
  }

  /** Every entry of a packed table is recovered, those that straddle two sectors included. */
  lemma EntriesAreRecovered(disk: Disk, entries: seq<Entry12>, c: nat)
    requires HoldsFat(disk, entries) && c < |entries| && OnDisk(c)
    ensures Entry(disk, c) == entries[c]
  {
    UnpackInvertsPack(entries, c);
    assert FatByte(disk, c * 3 / 2) == Pack(entries)[c * 3 / 2];
    assert FatByte(disk, c * 3 / 2 + 1) == Pack(entries)[c * 3 / 2 + 1];
  }

  // ----- cluster chains

  ghost predicate Links(disk: Disk, clusters: seq<nat>, i: nat)
    requires i < |clusters|
  {
    OnDisk(clusters[i])
    && Entry(disk, clusters[i]) == if i + 1 < |clusters| then clusters[i + 1] else END_OF_CHAIN
  }

  /** The clusters of a file: each leads to the next, the last to the end mark 0xfff. */
  ghost predicate Chain(disk: Disk, clusters: seq<nat>) {
    clusters != [] && forall i :: 0 <= i < |clusters| ==> Links(disk, clusters, i)
  }

  /** A chain visits no cluster twice: from equal clusters on it would go the same way, and
      reach the end mark from the first of them too early. */
  lemma {:induction false} ChainVisitsOnce(disk: Disk, clusters: seq<nat>, i: nat, j: nat)
    requires Chain(disk, clusters) && i < j < |clusters|
    ensures clusters[i] != clusters[j]
    decreases |clusters| - j
  {
    assert Links(disk, clusters, i) && Links(disk, clusters, j) && Links(disk, clusters, i + 1);
    if j + 1 < |clusters| {
      ChainVisitsOnce(disk, clusters, i + 1, j + 1);
    }
  }

  /** A first cluster leads to the end mark along one chain only. */
  lemma {:induction false} ChainIsUnique(disk: Disk, clusters: seq<nat>, others: seq<nat>)
    requires Chain(disk, clusters) && Chain(disk, others) && clusters[0] == others[0]
    ensures clusters == others
  {
    assert Links(disk, clusters, 0) && Links(disk, others, 0);
    if |clusters| > 1 { assert Links(disk, clusters, 1); }
    if |others| > 1 { assert Links(disk, others, 1); }
    if |clusters| > 1 && |others| > 1 {
      ChainTail(disk, clusters);
      ChainTail(disk, others);
      ChainIsUnique(disk, clusters[1..], others[1..]);
    }
  }

  lemma ChainTail(disk: Disk, clusters: seq<nat>)
    requires Chain(disk, clusters) && |clusters| > 1
    ensures Chain(disk, clusters[1..])
  {
    forall i | 0 <= i < |clusters[1..]|
      ensures Links(disk, clusters[1..], i)
    {
      assert Links(disk, clusters, i + 1);
    }
  }

  /** So the loading loop takes at most one turn for every cluster the floppy has. */
  lemma ChainIsShort(disk: Disk, clusters: seq<nat>)
    requires Chain(disk, clusters)
    ensures |clusters| <= SECTORS - DATA
  {
    forall i, j | 0 <= i < j < |clusters|
      ensures clusters[i] != clusters[j]
    {
      ChainVisitsOnce(disk, clusters, i, j);
    }
    ChainIsOnDisk(disk, clusters);
    DistinctBelow(clusters, SECTORS - DATA);
  }

  lemma {:induction false} DistinctBelow(s: seq<nat>, bound: nat)
    requires forall i, j :: 0 <= i < j < |s| ==> s[i] != s[j]
    requires forall i :: 0 <= i < |s| ==> s[i] < bound
    ensures |s| <= bound
    decreases bound
  {
    if s != [] {
      assert s[0] < bound;
      if i :| 0 <= i < |s| && s[i] == bound - 1 {
        DistinctBelow(s[..i] + s[i + 1..], bound - 1);
      } else {
        DistinctBelow(s, bound - 1);
      }
    }
  }

  // ----- long chains exist

  /** Clusters 2, 3, .. in a row. */
  function Row(n: nat): (clusters: seq<nat>)
    ensures |clusters| == n && forall i :: 0 <= i < n ==> clusters[i] == i + 2
  {
    seq(n, i => i + 2)
  }

  function RowTable(n: nat): seq<Entry12>
    requires n + 2 < END_OF_CHAIN
  {
    seq(n + 2, c requires 0 <= c < n + 2 => if c == n + 1 then END_OF_CHAIN else c + 1)
  }

  /** A disk that is this table and otherwise blank. */
  function TableDisk(table: seq<Byte>): Disk {
    seq(2880, s requires 0 <= s < 2880 =>
      seq(512, i requires 0 <= i < 512 =>
        if s >= FAT1 && 512 * (s - FAT1) + i < |table| then table[512 * (s - FAT1) + i] else 0))
  }

  /** For any length there is room for, some disk has a file of that many clusters. */
  lemma ChainOfLength(n: nat)
    requires 1 <= n && OnDisk(n + 1)
    ensures Chain(TableDisk(Pack(RowTable(n))), Row(n))
  {
    var disk := TableDisk(Pack(RowTable(n)));
    forall i | 0 <= i < |Pack(RowTable(n))| && FAT1 + i / SECTOR < SECTORS
      ensures FatByte(disk, i) == Pack(RowTable(n))[i]
    {
      assert 512 * (i / SECTOR) + i % SECTOR == i;
    }
    forall i | 0 <= i < n
      ensures Links(disk, Row(n), i)
    {
      EntriesAreRecovered(disk, RowTable(n), i + 2);
    }
  }

  function ClusterSector(disk: Disk, c: nat): Sector
    requires OnDisk(c)
  {
    disk[c + DATA]
  }

  ghost predicate AllOnDisk(clusters: seq<nat>) {
    forall i :: 0 <= i < |clusters| ==> OnDisk(clusters[i])
  }

  /** The sectors of the clusters, one after the other. */
  ghost function FileBytes(disk: Disk, clusters: seq<nat>): (bytes: seq<Byte>)
    requires AllOnDisk(clusters)
    ensures |bytes| == SECTOR * |clusters|
  {
    if clusters == [] then []
    else FileBytes(disk, clusters[..|clusters| - 1]) + ClusterSector(disk, clusters[|clusters| - 1])
  }

  lemma {:induction false} ByteOfFile(disk: Disk, clusters: seq<nat>, n: nat)
    requires AllOnDisk(clusters) && n < SECTOR * |clusters|
    ensures FileBytes(disk, clusters)[n] == ClusterSector(disk, clusters[n / SECTOR])[n % SECTOR]
  {
    var last := |clusters| - 1;
    if n < SECTOR * last {
      ByteOfFile(disk, clusters[..last], n);
    }
  }

  lemma ChainIsOnDisk(disk: Disk, clusters: seq<nat>)
    requires Chain(disk, clusters)
    ensures AllOnDisk(clusters)
  {
    forall i | 0 <= i < |clusters|
      ensures OnDisk(clusters[i])
    {
      assert Links(disk, clusters, i);
    }
  }

  // ----- the root directory

  const ENTRY_SIZE: nat := 32
  const NAME_LENGTH: nat := 11
  const ROOT_ENTRIES: nat := 224

  type Name = n: seq<Byte> | |n| == 11 witness Blank(11, 0)

  function DirByte(disk: Disk, entry: nat, i: nat): Byte
    requires entry < ROOT_ENTRIES && i < ENTRY_SIZE
  {
    disk[ROOT_DIR + entry / 16][entry % 16 * ENTRY_SIZE + i]
  }

  predicate NameMatches(disk: Disk, entry: nat, name: Name)
    requires entry < ROOT_ENTRIES
  {
    forall i :: 0 <= i < NAME_LENGTH ==> DirByte(disk, entry, i) == name[i]
  }

  ghost predicate FirstMatch(disk: Disk, entry: nat, name: Name) {
    && entry < ROOT_ENTRIES && NameMatches(disk, entry, name)
    && forall e :: 0 <= e < entry ==> !NameMatches(disk, e, name)
  }

  /** The 16-bit word at offset 0x1a of the entry. */
  function FirstCluster(disk: Disk, entry: nat): nat
    requires entry < ROOT_ENTRIES
  {
    DirByte(disk, entry, 0x1a) + 256 * DirByte(disk, entry, 0x1b)
  }
}
