/**
 The volume in plain sectors: which bytes of the device make up a directory slot,
   a link of a cluster chain and a byte of
 a file, told without the driver's own terms.
 */
module FatFormat {
  import opened Common
  import opened Bytes
  import opened FatLayout
  import opened FatChains
  import opened FatDirectory
  import opened FatState
  import opened FatVolume

  /** Slot `j` of the root directory is a file: not free, not deleted, no long name, volume label or subdirectory. */
  ghost predicate RawFile(g: Geometry, disk: Disk, j: nat, name: Name, start: nat, size: nat) {
    && j < 16 * g.rootDirSectors && g.rootDirStart + j / 16 < |disk|
    && var s, o := disk[g.rootDirStart + j / 16], j % 16 * 32;
       && o + 32 <= 512
       && s[o] != 0x00 && s[o] != 0xE5 && s[o..o + 11] == name
       && s[o + 11] % 16 != 15 && s[o + 11] / 8 % 2 == 0 && s[o + 11] / 16 % 2 == 0
       && start == Two(s, o + 26) && size == Four(s, o + 28)
  }

  /** Two bytes of the first table tell which cluster comes after a cluster. */
  ghost function RawNext(g: Geometry, disk: Disk, c: nat): nat
    requires g.fatStart + c / 256 < |disk|
  {
    Two(disk[g.fatStart + c / 256], 2 * (c % 256))
  }

  /** The clusters of a file, as the table links them, to one that is marked as the last. */
  ghost predicate RawChain(g: Geometry, disk: Disk, chain: seq<nat>) {
    && chain != []
    && (forall i :: 0 <= i < |chain| ==> 2 <= chain[i] < g.clusterCount + 2 && g.fatStart + chain[i] / 256 < |disk|)
    && (forall i :: 0 < i < |chain| ==> RawNext(g, disk, chain[i - 1]) == chain[i])
    && RawNext(g, disk, chain[|chain| - 1]) >= 0xFFF8
  }

  /** Byte `r` of cluster `i` of a file, if the file is as long as that. */
  ghost predicate RawByte(g: Geometry, disk: Disk, chain: seq<nat>, bytes: seq<byte>, i: nat, r: nat) {
    var p := i * (512 * g.sectorsPerCluster) + r;
    p < |bytes| ==>
      && i < |chain|
      && var l := g.dataStart + (chain[i] - 2) * g.sectorsPerCluster + r / 512;
         0 <= l < |disk| && bytes[p] == disk[l][r % 512]
  }

  /** These are the bytes of the file: sector for sector, cluster for cluster. */
  ghost predicate RawBytes(g: Geometry, disk: Disk, chain: seq<nat>, bytes: seq<byte>) {
    forall i: nat, r: nat :: r < 512 * g.sectorsPerCluster ==> RawByte(g, disk, chain, bytes, i, r)
  }

  lemma SlotIs(g: Geometry, disk: Disk, j: nat, name: Name, start: nat, size: nat)
    requires g.Valid() && Fits(g, disk)
    ensures RawFile(g, disk, j, name, start, size) <==>
              && j < |RootDirectory(g, disk)|
              && var e := RootDirectory(g, disk)[j]; e.Regular() && e.name == name && e.start == start && e.size == size
  {
    if j < |RootDirectory(g, disk)| {
      assert RootDirectory(g, disk)[j] == SlotEntry(g, disk, j);
      var s, o := disk[g.rootDirStart + j / 16], j % 16 * 32;
      assert s[o..o + 11][0] == s[o];
    }
  }

  /** The slots that are files are the files of the directory. */
  lemma RawFilesListed(g: Geometry, disk: Disk, name: Name, start: nat, size: nat)
    requires g.Valid() && Fits(g, disk) && WellFormed(RootDirectory(g, disk))
    ensures name in Files(RootDirectory(g, disk)) && Files(RootDirectory(g, disk))[name] == (start, size) <==>
              exists j: nat :: RawFile(g, disk, j, name, start, size)
  {
    hide RootDirectory, RawFile;
    var dir := RootDirectory(g, disk);
    FilesOnly(dir, name);
    forall j: nat
      ensures RawFile(g, disk, j, name, start, size) <==>
                j < |dir| && dir[j].Regular() && dir[j].name == name && dir[j].start == start && dir[j].size == size
    {
      SlotIs(g, disk, j, name, start, size);
    }
    if name in Files(dir) {
      var j :| Holds(dir, j, name);
      FilesAt(dir, j);
      SlotIs(g, disk, j, name, dir[j].start, dir[j].size);
    }
    if exists j: nat :: RawFile(g, disk, j, name, start, size) {
      var j: nat :| RawFile(g, disk, j, name, start, size);
      FilesAt(dir, j);
    }
  }

  lemma EntryIs(g: Geometry, disk: Disk, c: nat)
    requires g.Valid() && Fits(g, disk) && c < g.clusterCount + 2
    ensures g.fatStart + c / 256 < |disk| && FatTable(g, disk)[c] == RawNext(g, disk, c)
  {
    FatEntryAt(g, disk, c);
    assert c * 2 / 512 == c / 256 && c * 2 % 512 == 2 * (c % 256);
  }

  /** A cluster is free when the table has zero for it. */
  lemma FreeIs(g: Geometry, disk: Disk, c: nat)
    requires g.Valid() && Fits(g, disk)
    ensures c in FreeClusters(FatTable(g, disk)) <==>
              2 <= c < g.clusterCount + 2 && g.fatStart + c / 256 < |disk| && RawNext(g, disk, c) == 0
  {
    hide FatTable, RawNext;
    assert |FatTable(g, disk)| == g.clusterCount + 2;
    if c < g.clusterCount + 2 {
      EntryIs(g, disk, c);
    }
  }

  /** The chains of the table are the runs of different clusters that the sectors link up to an end mark. */
  lemma ChainIs(g: Geometry, disk: Disk, chain: seq<nat>)
    requires g.Valid() && Fits(g, disk)
    ensures IsChain(FatTable(g, disk), chain) <==> RawChain(g, disk, chain) && Distinct(chain)
  {
    hide FatTable, RawNext;
    var fat := FatTable(g, disk);
    assert |fat| == g.clusterCount + 2;
    forall c: nat | c < |fat|
      ensures g.fatStart + c / 256 < |disk| && RawNext(g, disk, c) == fat[c]
    {
      EntryIs(g, disk, c);
    }
    if IsChain(fat, chain) {
      forall i: nat | 0 < i < |chain|
        ensures RawNext(g, disk, chain[i - 1]) == chain[i]
      {
        assert Linked(fat, chain, i - 1);
      }
    } else if RawChain(g, disk, chain) && Distinct(chain) {
      forall i: nat | i + 1 < |chain|
        ensures Linked(fat, chain, i)
      {
        assert RawNext(g, disk, chain[i + 1 - 1]) == chain[i + 1];
      }
    }
  }

  lemma ByteIs(g: Geometry, disk: Disk, chain: seq<nat>, size: nat, i: nat, r: nat)
    requires g.Valid() && Fits(g, disk) && InVolume(g, chain) && size <= Capacity(g, chain)
             && r < 512 * g.sectorsPerCluster
    ensures RawByte(g, disk, chain, Content(g, disk, chain, size), i, r)
  {
    var p := i * (512 * g.sectorsPerCluster) + r;
    if p < size {
      hide InVolume, Fits, Geometry.Valid;
      PlaceOf(g, i, r);
      ClusterIndexInRange(g, chain, p);
      FileLbaInRange(g, disk, chain, p);
      LbaOf(g, chain, p, i, r);
    }
  }

  lemma {:induction false} PlaceOf(g: Geometry, i: nat, r: nat)
    requires g.Valid() && r < 512 * g.sectorsPerCluster
    ensures var p := i * (512 * g.sectorsPerCluster) + r;
            p >= 0 && ClusterIndex(g, p) == i && ClusterOffset(g, p) == r && p % 512 == r % 512
  {
    SpanIs(g, i);
    var p := i * (512 * g.sectorsPerCluster) + r;
    assert g.Span(i + 1) == g.Span(i) + g.ClusterSize();
    ClusterIndexIs(g, p, i);
    ByteInSector(g, p);
  }

  lemma {:induction false} LbaOf(g: Geometry, chain: seq<nat>, p: nat, i: nat, r: nat)
    requires g.Valid() && InVolume(g, chain) && p < Capacity(g, chain) && i < |chain|
    requires ClusterIndex(g, p) == i && ClusterOffset(g, p) == r
    ensures FileLba(g, chain, p) == g.dataStart + (chain[i] - 2) * g.sectorsPerCluster + r / 512
  {
    SpanIs(g, chain[i] - 2);
  }

  /**
   The volume is what the sectors say: a file of it stands in a slot of the root directory, its bytes are as many as the
   slot says, and they lie in the clusters that the table links from the first cluster of the slot on.
   */
  lemma VolumeInSectors(g: Geometry, disk: Disk, handles: seq<Handle>, chains: Chains, name: Name)
    returns (j: nat, start: nat, size: nat, chain: seq<nat>)
    requires ValidState(g, disk, handles, chains) && name in Volume(g, disk, chains)
    ensures RawFile(g, disk, j, name, start, size) && |Volume(g, disk, chains)[name]| == size
    ensures size > 0 ==> RawChain(g, disk, chain) && chain[0] == start
    ensures RawBytes(g, disk, chain, Volume(g, disk, chains)[name])
  {
    hide RootDirectory, Files, RawFile, RawChain, RawByte, InVolume, IsChain, Fits, StartsOwned, HandlesOk, ByteAt,
         FatTable, WellFormed, Capacity;
    var file := Files(RootDirectory(g, disk))[name];
    start, size, chain := file.0, file.1, ChainFrom(chains, file.0);
    RawFilesListed(g, disk, name, start, size);
    j :| RawFile(g, disk, j, name, start, size);
    var bytes := Volume(g, disk, chains)[name];
    assert bytes == Content(g, disk, chain, size);
    if start >= 2 {
      ChainIs(g, disk, chain);
    } else {
      NoCapacity(g);
    }
    forall i: nat, r: nat | r < 512 * g.sectorsPerCluster
      ensures RawByte(g, disk, chain, bytes, i, r)
    {
      ByteIs(g, disk, chain, size, i, r);
    }
  }

  lemma NoCapacity(g: Geometry)
    ensures Capacity(g, []) == 0
  {
  }

  /** A fresh slot: the name, the archive bit, and zero for first cluster, size and times. */
  lemma NewSlotIs(name: Name, k: nat)
    requires k < 32
    ensures NewSlot(name)[k] == if k < 11 then name[k] else if k == 11 then 0x20 else 0
  {
  }
}
