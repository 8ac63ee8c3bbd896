/**
 The on-disk layout of a FAT16 volume: where the FAT copies, the root directory
 and the data clusters lie, and how a file's bytes are found through its cluster chain.
 */
module FatLayout {
  import opened Arithmetic
  import opened Bytes

  const SECTOR_SIZE := 512

  const CLUSTER_FREE := 0
  const CLUSTER_MIN := 2
  const CLUSTER_BAD := 0xFFF7
  const CLUSTER_EOC := 0xFFF8

  type Sector = s: seq<byte> | |s| == 512 witness seq(512, _ => 0)
  type Disk = seq<Sector>

  /** The fields of `fat16_fs_t` that the file operations read. */
  datatype Geometry = Geometry(
    bytesPerSector: nat,
    sectorsPerCluster: nat,
    numFats: nat,
    sectorsPerFat: nat,
    rootDirSectors: nat,
    fatStart: nat,
    rootDirStart: nat,
    dataStart: nat,
    clusterCount: nat
  ) {
    /**
     The volumes the driver is written for: 512-byte sectors, FATs wide enough for every
     cluster, and the FAT copies, the root directory and the data region in this order.
     */
    ghost predicate Valid() {
      && bytesPerSector == 512
      && 1 <= sectorsPerCluster
      && 1 <= numFats
      && fatStart <= rootDirStart
      && (forall k: nat, s: nat :: k < numFats && s < sectorsPerFat ==> FatLba(k, s) < rootDirStart)
      && dataStart == rootDirStart + rootDirSectors
      && clusterCount < 65525
      && 2 * (clusterCount + 2) <= 512 * sectorsPerFat
    }

    /** Bytes in a cluster, sectors being 512 bytes. */
    function ClusterSize(): nat {
      512 * sectorsPerCluster
    }

    /** Bytes in a number of clusters. */
    ghost function Span(clusters: nat): nat {
      if clusters == 0 then 0 else Span(clusters - 1) + ClusterSize()
    }

    /** Sectors in a number of clusters. */
    ghost function SectorSpan(clusters: nat): nat {
      if clusters == 0 then 0 else SectorSpan(clusters - 1) + sectorsPerCluster
    }

    /** One past the largest cluster number. */
    function Limit(): nat {
      clusterCount + 2
    }

    function ClusterToLba(cluster: nat): nat
      requires cluster >= CLUSTER_MIN
    {
      dataStart + (cluster - 2) * sectorsPerCluster
    }

    /** Sector `k` of a cluster. */
    ghost function DataLba(cluster: nat, k: nat): nat
      requires cluster >= CLUSTER_MIN
    {
      dataStart + SectorSpan(cluster - 2) + k
    }

    /** Sector `s` of FAT copy `k`. */
    ghost function FatLba(k: nat, s: nat): nat {
      fatStart + FatSpan(k) + s
    }

    /** Sectors in a number of FAT copies. */
    ghost function FatSpan(copies: nat): nat {
      if copies == 0 then 0 else FatSpan(copies - 1) + sectorsPerFat
    }
  }

  /** The device is long enough for every data cluster. */
  ghost predicate Fits(g: Geometry, disk: Disk) {
    && g.dataStart <= |disk|
    && forall c: nat, k: nat :: CLUSTER_MIN <= c < g.Limit() && k < g.sectorsPerCluster ==> g.DataLba(c, k) < |disk|
  }

  lemma {:induction false} SpanIs(g: Geometry, n: nat)
    ensures g.Span(n) == n * g.ClusterSize()
    ensures g.SectorSpan(n) == n * g.sectorsPerCluster
    ensures g.FatSpan(n) == n * g.sectorsPerFat
  {
    if n > 0 {
      SpanIs(g, n - 1);
      assert n * g.sectorsPerFat == (n - 1) * g.sectorsPerFat + g.sectorsPerFat;
      assert n * g.ClusterSize() == (n - 1) * g.ClusterSize() + g.ClusterSize();
      assert n * g.sectorsPerCluster == (n - 1) * g.sectorsPerCluster + g.sectorsPerCluster;
    }
  }

  lemma {:induction false} SpanMonotone(g: Geometry, m: nat, n: nat)
    requires m <= n
    ensures g.Span(m) <= g.Span(n)
    ensures g.SectorSpan(m) <= g.SectorSpan(n)
    ensures g.FatSpan(m) <= g.FatSpan(n)
  {
    if m < n {
      SpanMonotone(g, m, n - 1);
    }
  }

  /** The sector the driver computes for a cluster is the sector the layout says. */
  lemma ClusterLba(g: Geometry, cluster: nat, k: nat)
    requires cluster >= CLUSTER_MIN
    ensures g.ClusterToLba(cluster) + k == g.DataLba(cluster, k)
  {
    SpanIs(g, cluster - 2);
  }

  /** Both hold when the regions are laid out back to back, as mounting computes them. */
  lemma BackToBack(g: Geometry, disk: Disk)
    requires g.bytesPerSector == 512 && 1 <= g.sectorsPerCluster && 1 <= g.numFats
    requires g.clusterCount < 65525 && 2 * (g.clusterCount + 2) <= 512 * g.sectorsPerFat
    requires g.rootDirStart == g.fatStart + g.numFats * g.sectorsPerFat
    requires g.dataStart == g.rootDirStart + g.rootDirSectors
    requires g.dataStart + g.clusterCount * g.sectorsPerCluster <= |disk|
    ensures g.Valid() && Fits(g, disk)
  {
    forall k: nat, s: nat | k < g.numFats && s < g.sectorsPerFat
      ensures g.FatLba(k, s) < g.rootDirStart
    {
      SpanMonotone(g, k + 1, g.numFats);
      SpanIs(g, g.numFats);
    }
    forall c: nat, k: nat | CLUSTER_MIN <= c < g.Limit() && k < g.sectorsPerCluster
      ensures g.DataLba(c, k) < |disk|
    {
      SpanMonotone(g, c - 1, g.clusterCount);
      SpanIs(g, g.clusterCount);
    }
  }

  lemma FatLbaInjective(g: Geometry, k: nat, s: nat, k': nat, s': nat)
    requires s < g.sectorsPerFat && s' < g.sectorsPerFat
    requires g.FatLba(k, s) == g.FatLba(k', s')
    ensures k == k' && s == s'
  {
    if k < k' {
      SpanMonotone(g, k + 1, k');
    } else if k' < k {
      SpanMonotone(g, k' + 1, k);
    }
  }

  /** A FAT entry, read from the first copy. */
  ghost function FatEntry(g: Geometry, disk: Disk, cluster: nat): (value: nat)
    requires g.Valid() && Fits(g, disk) && cluster < g.Limit()
    ensures value < 0x1_0000
  {
    ReadLe16(disk[g.FatLba(0, 2 * cluster / 512)], 2 * cluster % 512)
  }

  /** The whole table, indexed by cluster number. */
  ghost function FatTable(g: Geometry, disk: Disk): (fat: seq<nat>)
    requires g.Valid() && Fits(g, disk)
    ensures |fat| == g.Limit()
    ensures forall c :: 0 <= c < g.Limit() ==> fat[c] == FatEntry(g, disk, c)
  {
    seq(g.Limit(), c requires 0 <= c < g.Limit() => FatEntry(g, disk, c))
  }

  /** Where the driver finds an entry. */
  lemma FatEntryAt(g: Geometry, disk: Disk, cluster: nat)
    requires g.Valid() && Fits(g, disk) && cluster < g.Limit()
    ensures g.fatStart + cluster * 2 / 512 < |disk|
    ensures FatTable(g, disk)[cluster] == ReadLe16(disk[g.fatStart + cluster * 2 / 512], cluster * 2 % 512)
  {
    assert g.FatLba(0, 2 * cluster / 512) == g.fatStart + 2 * cluster / 512;
  }

  lemma EntryInSector(cluster: nat)
    ensures cluster * 2 % 512 + 2 <= 512
  {
  }

  /** Every FAT copy holds the same sectors as the first. */
  ghost predicate Mirrored(g: Geometry, disk: Disk)
    requires g.Valid() && Fits(g, disk)
  {
    forall k: nat, s: nat :: k < g.numFats && s < g.sectorsPerFat ==>
      disk[g.FatLba(k, s)] == disk[g.FatLba(0, s)]
  }

  ghost predicate SameFats(g: Geometry, disk: Disk, disk': Disk)
  {
    |disk| == |disk'| && forall l :: 0 <= l < |disk| && g.fatStart <= l < g.rootDirStart ==> disk[l] == disk'[l]
  }

  lemma SameFatsKeeps(g: Geometry, disk: Disk, disk': Disk)
    requires g.Valid() && Fits(g, disk) && SameFats(g, disk, disk')
    ensures FatTable(g, disk') == FatTable(g, disk)
    ensures Mirrored(g, disk) ==> Mirrored(g, disk')
  {
  }

  ghost predicate OnlyFatsChanged(g: Geometry, disk: Disk, disk': Disk) {
    |disk'| == |disk| && forall l :: 0 <= l < |disk| && !(g.fatStart <= l < g.rootDirStart) ==> disk'[l] == disk[l]
  }

  /** `disk'` is `disk` with one entry stored in the given sector of every FAT copy. */
  ghost predicate FatStored(g: Geometry, disk: Disk, disk': Disk, copies: nat, cluster: nat, value: nat)
    requires g.Valid() && Fits(g, disk) && cluster < g.Limit()
  {
    && OnlyFatsChanged(g, disk, disk')
    && (forall k: nat, s: nat :: k < g.numFats && s < g.sectorsPerFat ==>
          disk'[g.FatLba(k, s)] ==
            if k < copies && s == 2 * cluster / 512
            then WriteLe16(disk[g.FatLba(k, s)], 2 * cluster % 512, value)
            else disk[g.FatLba(k, s)])
  }

  /** The sector of an entry in a copy of the table. */
  lemma CopyLba(g: Geometry, copy: nat, cluster: nat)
    ensures g.fatStart + cluster * 2 / 512 + copy * g.sectorsPerFat == g.FatLba(copy, 2 * cluster / 512)
  {
    SpanIs(g, copy);
  }

  /** One copy more. */
  lemma FatStoredStep(g: Geometry, disk: Disk, disk': Disk, copy: nat, cluster: nat, value: nat)
    requires g.Valid() && Fits(g, disk) && cluster < g.Limit() && value < 0x1_0000 && copy < g.numFats
    requires FatStored(g, disk, disk', copy, cluster, value)
    ensures var lba := g.FatLba(copy, 2 * cluster / 512);
            && lba < |disk'|
            && FatStored(g, disk, disk'[lba := WriteLe16(disk'[lba], 2 * cluster % 512, value)], copy + 1, cluster,
                         value)
  {
    hide WriteLe16;
    var sector := 2 * cluster / 512;
    forall k: nat, s: nat | k < g.numFats && s < g.sectorsPerFat && (k != copy || s != sector)
      ensures g.FatLba(k, s) != g.FatLba(copy, sector)
    {
      if g.FatLba(k, s) == g.FatLba(copy, sector) {
        FatLbaInjective(g, k, s, copy, sector);
      }
    }
  }

  lemma FatStoredEffect(g: Geometry, disk: Disk, disk': Disk, cluster: nat, value: nat)
    requires g.Valid() && Fits(g, disk) && cluster < g.Limit() && value < 0x1_0000
    requires FatStored(g, disk, disk', g.numFats, cluster, value)
    ensures FatTable(g, disk') == FatTable(g, disk)[cluster := value]
    ensures Mirrored(g, disk) ==> Mirrored(g, disk')
  {
    var at := 2 * cluster % 512;
    forall c | 0 <= c < g.Limit()
      ensures FatEntry(g, disk', c) == if c == cluster then value else FatEntry(g, disk, c)
    {
      var sector := disk[g.FatLba(0, 2 * c / 512)];
      Le16RoundTrip(sector, at, value);
    }
    if Mirrored(g, disk) {
      forall k: nat, s: nat | k < g.numFats && s < g.sectorsPerFat
        ensures disk'[g.FatLba(k, s)] == disk'[g.FatLba(0, s)]
      {
      }
    }
  }

  // ---- data clusters ----

  lemma ClusterSectorInjective(g: Geometry, c: nat, k: nat, c': nat, k': nat)
    requires c >= CLUSTER_MIN && c' >= CLUSTER_MIN && k < g.sectorsPerCluster && k' < g.sectorsPerCluster
    requires g.DataLba(c, k) == g.DataLba(c', k')
    ensures c == c' && k == k'
  {
    if c < c' {
      SpanMonotone(g, c - 1, c' - 2);
    } else if c' < c {
      SpanMonotone(g, c' - 1, c - 2);
    }
  }

  /** All clusters of the chain are data clusters of the volume. */
  predicate InVolume(g: Geometry, chain: seq<nat>) {
    forall i :: 0 <= i < |chain| ==> CLUSTER_MIN <= chain[i] < g.Limit()
  }

  /** The number of bytes the clusters of a chain hold. */
  ghost function Capacity(g: Geometry, chain: seq<nat>): nat {
    g.Span(|chain|)
  }

  /** Which cluster of its file holds byte `p`. */
  ghost function ClusterIndex(g: Geometry, p: nat): (i: nat)
    requires g.Valid()
    ensures g.Span(i) <= p < g.Span(i + 1)
    decreases p
  {
    if p < g.ClusterSize() then
      assert g.Span(1) == g.Span(0) + g.ClusterSize();
      0
    else
      var i := ClusterIndex(g, p - g.ClusterSize());
      assert g.Span(i + 1 + 1) == g.Span(i + 1) + g.ClusterSize();
      1 + i
  }

  /** The offset of byte `p` in that cluster. */
  ghost function ClusterOffset(g: Geometry, p: nat): (offset: nat)
    requires g.Valid()
    ensures offset < g.ClusterSize()
  {
    p - g.Span(ClusterIndex(g, p))
  }

  /** Which sector of that cluster holds byte `p`. */
  ghost function SectorInCluster(g: Geometry, p: nat): (k: nat)
    requires g.Valid()
    ensures k < g.sectorsPerCluster
  {
    ClusterOffset(g, p) / 512
  }

  /** A byte between the ends of a cluster lies in that cluster. */
  lemma ClusterIndexIs(g: Geometry, p: nat, i: nat)
    requires g.Valid() && g.Span(i) <= p < g.Span(i + 1)
    ensures ClusterIndex(g, p) == i
  {
    var j := ClusterIndex(g, p);
    if j < i {
      SpanMonotone(g, j + 1, i);
    } else if i < j {
      SpanMonotone(g, i + 1, j);
    }
  }

  lemma {:induction false} SpanIsSectors(g: Geometry, n: nat)
    ensures g.Span(n) == 512 * g.SectorSpan(n)
  {
    if n > 0 {
      SpanIsSectors(g, n - 1);
    }
  }

  lemma {:induction false} ByteInSector(g: Geometry, p: nat)
    requires g.Valid()
    ensures p % 512 == ClusterOffset(g, p) % 512
    ensures p / 512 == g.SectorSpan(ClusterIndex(g, p)) + SectorInCluster(g, p)
  {
    hide Geometry.SectorSpan;
    SpanIsSectors(g, ClusterIndex(g, p));
    WholeSectors(g.SectorSpan(ClusterIndex(g, p)), ClusterOffset(g, p));
  }

  lemma WholeSectors(sectors: nat, rest: nat)
    ensures (512 * sectors + rest) % 512 == rest % 512 && (512 * sectors + rest) / 512 == sectors + rest / 512
  {
  }

  /** The driver's division by the cluster size finds cluster and offset. */
  lemma {:induction false} PositionSplit(g: Geometry, p: nat)
    requires g.Valid()
    ensures g.ClusterSize() > 0
    ensures p / g.ClusterSize() == ClusterIndex(g, p)
    ensures p % g.ClusterSize() == ClusterOffset(g, p)
  {
    SpanIs(g, ClusterIndex(g, p));
    DivModUnique(p, g.ClusterSize(), ClusterIndex(g, p), ClusterOffset(g, p));
  }

  lemma {:induction false} ClusterIndexInRange(g: Geometry, chain: seq<nat>, p: nat)
    requires g.Valid() && p < Capacity(g, chain)
    ensures ClusterIndex(g, p) < |chain|
  {
    if |chain| <= ClusterIndex(g, p) {
      SpanMonotone(g, |chain|, ClusterIndex(g, p));
    }
  }

  /** Sector `k` of cluster `i` of a file. */
  ghost function SectorLba(g: Geometry, chain: seq<nat>, i: nat, k: nat): (lba: nat)
    requires g.Valid() && InVolume(g, chain) && i < |chain| && k < g.sectorsPerCluster
    ensures g.dataStart <= lba
  {
    g.DataLba(chain[i], k)
  }

  lemma SectorLbaInjective(g: Geometry, chain: seq<nat>, i: nat, k: nat, chain': seq<nat>, i': nat, k': nat)
    requires g.Valid() && InVolume(g, chain) && InVolume(g, chain')
    requires i < |chain| && k < g.sectorsPerCluster && i' < |chain'| && k' < g.sectorsPerCluster
    requires SectorLba(g, chain, i, k) == SectorLba(g, chain', i', k')
    ensures chain[i] == chain'[i'] && k == k'
  {
    ClusterSectorInjective(g, chain[i], k, chain'[i'], k');
  }

  /** The sector that holds byte `p` of a file. */
  ghost function FileLba(g: Geometry, chain: seq<nat>, p: nat): (lba: nat)
    requires g.Valid() && InVolume(g, chain) && p < Capacity(g, chain)
    ensures g.dataStart <= lba
  {
    ClusterIndexInRange(g, chain, p);
    SectorLba(g, chain, ClusterIndex(g, p), SectorInCluster(g, p))
  }

  lemma FileLbaInRange(g: Geometry, disk: Disk, chain: seq<nat>, p: nat)
    requires g.Valid() && Fits(g, disk) && InVolume(g, chain) && p < Capacity(g, chain)
    ensures FileLba(g, chain, p) < |disk|
  {
    ClusterIndexInRange(g, chain, p);
  }

  /** Byte `p` of the file whose clusters are `chain`. */
  ghost function ByteAt(g: Geometry, disk: Disk, chain: seq<nat>, p: nat): byte
    requires g.Valid() && Fits(g, disk) && InVolume(g, chain) && p < Capacity(g, chain)
  {
    FileLbaInRange(g, disk, chain, p);
    disk[FileLba(g, chain, p)][p % 512]
  }

  /** The first `size` bytes of the file whose clusters are `chain`. */
  ghost function Content(g: Geometry, disk: Disk, chain: seq<nat>, size: nat): (bytes: seq<byte>)
    requires g.Valid() && Fits(g, disk) && InVolume(g, chain) && size <= Capacity(g, chain)
    ensures |bytes| == size
    ensures forall p :: 0 <= p < size ==> bytes[p] == ByteAt(g, disk, chain, p)
  {
    seq(size, p requires 0 <= p < size => ByteAt(g, disk, chain, p))
  }
}
