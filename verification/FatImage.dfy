/** The floppy as one run of bytes, and a disk written with one file, which the boot code then
    finds and loads. Offsets are those of the 1.44 MB layout: the table at 0x200, the root
    directory at 0x2600 and cluster 2 at 0x4200. */
module FatImage {
  import opened MachineWords
  import opened Wrappers
  import opened Fat12
  import opened FatLoader

  function ImageByte(disk: Disk, offset: nat): Byte
    requires offset < 0x16_8000
  {
    disk[offset / 512][offset % 512]
  }

  /** A name in the root directory is the first 11 bytes of its 32. */
  lemma NameInImage(disk: Disk, entry: nat, name: Name)
    requires entry < 224
    ensures NameMatches(disk, entry, name)
        <==> forall i :: 0 <= i < 11 ==> ImageByte(disk, 0x2600 + 32 * entry + i) == name[i]
  {
    forall i | 0 <= i < 11
      ensures DirByte(disk, entry, i) == ImageByte(disk, 0x2600 + 32 * entry + i)
    {
      DirByteInImage(disk, entry, i);
    }
  }

  lemma DirByteInImage(disk: Disk, entry: nat, i: nat)
    requires entry < 224 && i < 32
    ensures DirByte(disk, entry, i) == ImageByte(disk, 0x2600 + 32 * entry + i)
  {
    assert (0x2600 + 32 * entry + i) / 512 == 19 + entry / 16;
  }

  /** The first cluster is the little-endian word at offset 26 of the entry. */
  lemma FirstClusterInImage(disk: Disk, entry: nat)
    requires entry < 224
    ensures FirstCluster(disk, entry)
         == ImageByte(disk, 0x2600 + 32 * entry + 26) + 256 * ImageByte(disk, 0x2600 + 32 * entry + 27)
  {
    DirByteInImage(disk, entry, 26);
    DirByteInImage(disk, entry, 27);
  }

  /** Cluster c has the 512 bytes from 0x4200 + 512 * (c - 2) on. */
  lemma ClusterInImage(disk: Disk, c: nat, i: nat)
    requires 2 <= c && OnDisk(c) && i < 512
    ensures 0x4200 + 512 * (c - 2) + i < 0x16_8000
    ensures ClusterSector(disk, c)[i] == ImageByte(disk, 0x4200 + 512 * (c - 2) + i)
  {}

  // ----- a disk with one file

  /** The bytes of a disk with one file, whose clusters are 2, 3, .. in a row. */
  function FloppyByte(name: Name, contents: seq<Byte>, table: seq<Byte>, offset: nat): Byte {
    if 0x200 <= offset < 0x2600 && offset - 0x200 < |table| then table[offset - 0x200]
    else if 0x2600 <= offset < 0x260b then name[offset - 0x2600]
    else if offset == 0x261a then 2
    else if 0x4200 <= offset < 0x4200 + |contents| then contents[offset - 0x4200]
    else 0
  }

  function ImageOf(byte: nat -> Byte): Disk {
    seq(2880, s requires 0 <= s < 2880 => seq(512, i requires 0 <= i < 512 => byte(512 * s + i)))
  }

  lemma ImageOfByte(byte: nat -> Byte, offset: nat)
    requires offset < 0x16_8000
    ensures ImageByte(ImageOf(byte), offset) == byte(offset)
  {}

  function Floppy(name: Name, contents: seq<Byte>, n: nat): Disk
    requires n + 2 < END_OF_CHAIN
  {
    ImageOf(offset => FloppyByte(name, contents, Pack(RowTable(n)), offset))
  }

  lemma FloppyIs(name: Name, contents: seq<Byte>, n: nat, offset: nat)
    requires n + 2 < END_OF_CHAIN && offset < 0x16_8000
    ensures ImageByte(Floppy(name, contents, n), offset)
         == FloppyByte(name, contents, Pack(RowTable(n)), offset)
  {
    ImageOfByte(o => FloppyByte(name, contents, Pack(RowTable(n)), o), offset);
  }

  lemma {:induction false} PackLength(entries: seq<Entry12>)
    ensures 2 * |Pack(entries)| <= 3 * |entries| + 1
    decreases |entries|
  {
    if |entries| >= 2 {
      PackLength(entries[2..]);
    }
  }

  /** The directory has the file as its first entry. */
  lemma FileIsListed(name: Name, contents: seq<Byte>, n: nat)
    requires n + 2 < END_OF_CHAIN
    ensures FirstMatch(Floppy(name, contents, n), 0, name) && FirstCluster(Floppy(name, contents, n), 0) == 2
  {
    var disk := Floppy(name, contents, n);
    NameInImage(disk, 0, name);
    forall i | 0 <= i < 11
      ensures ImageByte(disk, 0x2600 + i) == name[i]
    {
      FloppyIs(name, contents, n, 0x2600 + i);
    }
    FirstClusterInImage(disk, 0);
    FloppyIs(name, contents, n, 0x261a);
    FloppyIs(name, contents, n, 0x261b);
  }

  /** The table is on the disk. */
  lemma TableIsStored(name: Name, contents: seq<Byte>, n: nat)
    requires n + 2 < END_OF_CHAIN
    ensures HoldsFat(Floppy(name, contents, n), RowTable(n))
  {
    var disk, table := Floppy(name, contents, n), Pack(RowTable(n));
    PackLength(RowTable(n));
    forall i | 0 <= i < |table| && FAT1 + i / SECTOR < SECTORS
      ensures FatByte(disk, i) == table[i]
    {
      FloppyIs(name, contents, n, 0x200 + i);
      assert FatByte(disk, i) == ImageByte(disk, 0x200 + i);
    }
  }

  /** It has the file's chain. */
  lemma FileIsChained(name: Name, contents: seq<Byte>, n: nat)
    requires 1 <= n && OnDisk(n + 1)
    ensures Chain(Floppy(name, contents, n), Row(n))
  {
    var disk := Floppy(name, contents, n);
    TableIsStored(name, contents, n);
    forall i | 0 <= i < n
      ensures Links(disk, Row(n), i)
    {
      EntriesAreRecovered(disk, RowTable(n), i + 2);
    }
  }

  /** The clusters of the chain hold its contents. */
  lemma FileIsStored(name: Name, contents: seq<Byte>, n: nat)
    requires 1 <= n && OnDisk(n + 1) && |contents| == 512 * n
    ensures AllOnDisk(Row(n)) && FileBytes(Floppy(name, contents, n), Row(n)) == contents
  {
    var disk := Floppy(name, contents, n);
    forall k | 0 <= k < |contents|
      ensures FileBytes(disk, Row(n))[k] == contents[k]
    {
      ByteOfFile(disk, Row(n), k);
      ClusterInImage(disk, k / 512 + 2, k % 512);
      FloppyIs(name, contents, n, 0x4200 + k);
    }
  }

  /** Whatever file is written to a floppy, of any number of clusters that fit, the boot code
      finds it by its name and loads its bytes to 1 MiB. */
  method LoadsWhatWasWritten(name: Name, contents: seq<Byte>, n: nat, mem: array<Byte>)
    requires 1 <= n <= 2847 && |contents| == 512 * n && mem.Length >= 0x10_0000 + |contents|
    modifies mem
    ensures mem[0x10_0000..0x10_0000 + |contents|] == contents
  {
    var loader := new Loader(Floppy(name, contents, n), mem);
    FileIsListed(name, contents, n);
    FileIsChained(name, contents, n);
    FileIsStored(name, contents, n);
    FirstMatchIsFirst(loader.disk, name);
    var ok, found := loader.FindAndLoad(name, Row(n));
  }

  /** The boot sector loads it to 0x10000, as long as it has at most 128 clusters. */
  method LoadsLoaderThatWasWritten(name: Name, contents: seq<Byte>, n: nat, mem: array<Byte>)
    requires 1 <= n <= 128 && |contents| == 512 * n && mem.Length >= 0x2_0000
    modifies mem
    ensures mem[0x1_0000..0x1_0000 + |contents|] == contents
  {
    var loader := new Loader(Floppy(name, contents, n), mem);
    FileIsListed(name, contents, n);
    FileIsChained(name, contents, n);
    FileIsStored(name, contents, n);
    var cluster, found := loader.FindFile(name);
    assert cluster.Some? && found == 0;
    ghost var before := mem[..];
    loader.LoadLoader(cluster.value, Row(n));
    forall k | 0 <= k < |contents|
      ensures mem[0x1_0000 + k] == contents[k]
    {
      ShortFileIsLoaded(loader.disk, Row(n), before, k);
    }
  }

  lemma FirstMatchIsFirst(disk: Disk, name: Name)
    requires FirstMatch(disk, 0, name)
    ensures forall e :: FirstMatch(disk, e, name) ==> e == 0
  {}
}
