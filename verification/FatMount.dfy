/** Reading the geometry of a volume from its boot sector. */
module FatMount {
  import opened Common
  import opened Arithmetic
  import opened Bytes
  import opened FatLayout
  import FatDirectory

  const BOOT_SIGNATURE := 0xAA55

  /** The fields of the boot sector that the geometry is computed from. */
  datatype BootSector = BootSector(
    signature: nat,
    bytesPerSector: nat,
    sectorsPerCluster: nat,
    reservedSectors: nat,
    numFats: nat,
    rootEntries: nat,
    totalSectors16: nat,
    sectorsPerFat: nat,
    totalSectors32: nat
  ) {
    predicate Shaped() {
      && signature < 0x1_0000 && bytesPerSector < 0x1_0000 && sectorsPerCluster < 256 && reservedSectors < 0x1_0000
      && numFats < 256 && rootEntries < 0x1_0000 && totalSectors16 < 0x1_0000 && sectorsPerFat < 0x1_0000
      && totalSectors32 < 0x1_0000_0000
    }

    function TotalSectors(): nat {
      if totalSectors16 != 0 then totalSectors16 else totalSectors32
    }

    predicate Supported() {
      && signature == BOOT_SIGNATURE
      && bytesPerSector != 0 && sectorsPerCluster != 0 && reservedSectors != 0
      && numFats != 0 && rootEntries != 0 && sectorsPerFat != 0
      && TotalSectors() != 0
    }

    function RootSectors(): nat
      requires bytesPerSector != 0
    {
      (rootEntries * 32 + (bytesPerSector - 1)) / bytesPerSector
    }

    function FatSectors(): nat {
      numFats * sectorsPerFat
    }

    /** Sectors before the data region. */
    function Overhead(): nat
      requires bytesPerSector != 0
    {
      reservedSectors + FatSectors() + RootSectors()
    }
  }

  function DecodeBoot(sector: Sector): (b: BootSector)
    ensures b.Shaped()
  {
    BootSector(ReadLe16(sector, 510), ReadLe16(sector, 0x0B), sector[0x0D], ReadLe16(sector, 0x0E), sector[0x10],
               ReadLe16(sector, 0x11), ReadLe16(sector, 0x13), ReadLe16(sector, 0x16), ReadLe32(sector, 0x20))
  }

  function ClusterCount(dataSectors: nat, sectorsPerCluster: nat): nat
    requires sectorsPerCluster != 0
  {
    dataSectors / sectorsPerCluster
  }

  /** The geometry `fat16_mount` stores, if it accepts the boot sector. */
  function MountedGeometry(sector: Sector, volumeLba: nat): Option<Geometry> {
    var b := DecodeBoot(sector);
    if !b.Supported() then None
    else
      var fatStart := Wrap32(volumeLba + b.reservedSectors);
      var rootDirStart := Wrap32(fatStart + b.FatSectors());
      var dataSectors := Wrap32(b.TotalSectors() - b.Overhead());
      Some(Geometry(b.bytesPerSector, b.sectorsPerCluster, b.numFats, b.sectorsPerFat, b.RootSectors(),
                    fatStart, rootDirStart, Wrap32(rootDirStart + b.RootSectors()),
                      ClusterCount(dataSectors, b.sectorsPerCluster)))
  }

  lemma OverheadBounded(b: BootSector)
    requires b.Shaped() && b.bytesPerSector != 0
    ensures b.FatSectors() <= 255 * 0xFFFF && b.RootSectors() <= 0x20_0000 + 1
    ensures b.Overhead() < 0x200_0000
  {
    MulMonotone(b.numFats, 255, b.sectorsPerFat);
    var n := b.rootEntries * 32 + (b.bytesPerSector - 1);
    var q := b.RootSectors();
    assert q * b.bytesPerSector <= n by { assert n == q * b.bytesPerSector + n % b.bytesPerSector; }
    if q > b.rootEntries * 32 {
      MulMonotone(b.rootEntries * 32 + 1, q, b.bytesPerSector);
      assert (b.rootEntries * 32 + 1) * b.bytesPerSector == b.rootEntries * 32 * b.bytesPerSector + b.bytesPerSector;
      MulMonotone(1, b.bytesPerSector, b.rootEntries * 32);
      assert false;
    }
  }

  lemma WholeClusters(sectors: nat, perCluster: nat)
    requires perCluster > 0
    ensures var n := ClusterCount(sectors, perCluster); n * perCluster <= sectors < n * perCluster + perCluster
  {
    assert sectors == sectors / perCluster * perCluster + sectors % perCluster;
  }

  /** The root directory gets the fewest sectors that hold its entries of 32 bytes. */
  lemma RootSectorsHold(b: BootSector)
    requires b.bytesPerSector > 0 && b.rootEntries > 0
    ensures b.bytesPerSector * b.RootSectors() - b.bytesPerSector < 32 * b.rootEntries
                                                                    <= b.bytesPerSector * b.RootSectors()
  {
    var n, q := b.rootEntries * 32 + (b.bytesPerSector - 1), b.RootSectors();
    assert n == q * b.bytesPerSector + n % b.bytesPerSector;
    assert q * b.bytesPerSector == b.bytesPerSector * q;
  }

  lemma FatSectorsIs(b: BootSector)
    ensures b.FatSectors() == b.numFats * b.sectorsPerFat
  {
  }

  /** The geometry in terms of the fields, the sums being small enough not to wrap around. */
  lemma MountedFields(sector: Sector, volumeLba: nat)
    requires MountedGeometry(sector, volumeLba).Some? && volumeLba + 0x200_0000 < 0x1_0000_0000
    ensures var g, b := MountedGeometry(sector, volumeLba).value, DecodeBoot(sector);
            && b.bytesPerSector > 0 && b.sectorsPerCluster > 0
            && g.bytesPerSector == b.bytesPerSector && g.sectorsPerCluster == b.sectorsPerCluster
            && g.numFats == b.numFats && g.sectorsPerFat == b.sectorsPerFat && g.rootDirSectors == b.RootSectors()
            && g.fatStart == volumeLba + b.reservedSectors && g.rootDirStart == g.fatStart + b.FatSectors()
            && g.dataStart == g.rootDirStart + b.RootSectors() == volumeLba + b.Overhead()
            && g.clusterCount == ClusterCount(Wrap32(b.TotalSectors() - b.Overhead()), b.sectorsPerCluster)
            && b.Overhead() < 0x200_0000
  {
    hide DecodeBoot, ClusterCount, BootSector.FatSectors, BootSector.RootSectors;
    OverheadBounded(DecodeBoot(sector));
  }

  /**
   The clusters a mounted volume counts lie inside the volume exactly when the boot sector's FATs, root
   directory and reserved sectors leave room for data; otherwise the sector count has wrapped around.
   */
  lemma ClustersInsideVolume(sector: Sector, volumeLba: nat)
    requires MountedGeometry(sector, volumeLba).Some?
    requires volumeLba + 0x200_0000 + DecodeBoot(sector).TotalSectors() < 0x1_0000_0000
    ensures var g, b := MountedGeometry(sector, volumeLba).value, DecodeBoot(sector);
            && g.fatStart == volumeLba + b.reservedSectors
            && g.rootDirStart == g.fatStart + g.numFats * g.sectorsPerFat
            && g.dataStart == g.rootDirStart + g.rootDirSectors == volumeLba + b.Overhead()
            && (g.dataStart + g.clusterCount * g.sectorsPerCluster <= volumeLba + b.TotalSectors() <==>
                b.Overhead() <= b.TotalSectors())
  {
    hide MountedGeometry, DecodeBoot, ClusterCount, BootSector.FatSectors, BootSector.RootSectors, BootSector.Overhead,
         BootSector.TotalSectors;
    MountedFields(sector, volumeLba);
    var b := DecodeBoot(sector);
    FatSectorsIs(b);
    WholeClusters(Wrap32(b.TotalSectors() - b.Overhead()), b.sectorsPerCluster);
  }

  /** A volume of the supported kind that leaves room for data is laid out as the driver's other operations need. */
  lemma MountedVolumeUsable(sector: Sector, volumeLba: nat, disk: Disk)
    requires MountedGeometry(sector, volumeLba).Some?
    requires volumeLba + 0x200_0000 + DecodeBoot(sector).TotalSectors() < 0x1_0000_0000
    requires var g, b := MountedGeometry(sector, volumeLba).value, DecodeBoot(sector);
             && b.Overhead() <= b.TotalSectors() && volumeLba + b.TotalSectors() <= |disk|
             && g.bytesPerSector == SECTOR_SIZE && g.clusterCount < 65525
             && 2 * (g.clusterCount + 2) <= SECTOR_SIZE * g.sectorsPerFat
    ensures var g, entries := MountedGeometry(sector, volumeLba).value, DecodeBoot(sector).rootEntries;
            && g.Valid() && Fits(g, disk)
            && entries <= |FatDirectory.RootDirectory(g, disk)| < entries + 16
  {
    ClustersInsideVolume(sector, volumeLba);
    RootEntries(sector, volumeLba);
    RootSectorsHold(DecodeBoot(sector));
    hide MountedGeometry, DecodeBoot, BootSector.RootSectors, FatDirectory.RootDirectory;
    MountedFields(sector, volumeLba);
    BackToBack(MountedGeometry(sector, volumeLba).value, disk);
  }

  lemma RootEntries(sector: Sector, volumeLba: nat)
    requires MountedGeometry(sector, volumeLba).Some?
    ensures DecodeBoot(sector).rootEntries > 0 && DecodeBoot(sector).bytesPerSector > 0
  {
  }

  // ---- the same in bytes ----

  /** The sectors of the volume: the 32-bit field counts where the 16-bit one is zero. */
  ghost function VolumeSectors(sector: Sector): nat {
    if Two(sector, 19) == 0 then Four(sector, 32) else Two(sector, 19)
  }

  /**
   A sector is accepted exactly when it is signed and none of the counts that mounting divides or lays out by is 0.
   */
  lemma MountAccepts(sector: Sector, volumeLba: nat)
    ensures MountedGeometry(sector, volumeLba).Some? <==>
              && sector[510] == 0x55 && sector[511] == 0xAA
              && Two(sector, 11) != 0 && sector[13] != 0 && Two(sector, 14) != 0 && sector[16] != 0
              && Two(sector, 17) != 0 && Two(sector, 22) != 0 && VolumeSectors(sector) != 0
  {
  }

  /** And this is what it is taken for; the count of data sectors wraps around 2^32. */
  lemma MountedIs(sector: Sector, volumeLba: nat)
    requires MountedGeometry(sector, volumeLba).Some? && volumeLba + 0x200_0000 < 0x1_0000_0000
    ensures var g := MountedGeometry(sector, volumeLba).value;
            && g.bytesPerSector == Two(sector, 11) && g.sectorsPerCluster == sector[13]
            && g.numFats == sector[16] && g.sectorsPerFat == Two(sector, 22)
            && g.fatStart == volumeLba + Two(sector, 14)
            && g.rootDirStart == g.fatStart + sector[16] * Two(sector, 22)
            && g.dataStart == g.rootDirStart + g.rootDirSectors
            && var data := (VolumeSectors(sector) + volumeLba - g.dataStart) % 0x1_0000_0000;
               g.clusterCount * g.sectorsPerCluster <= data < g.clusterCount * g.sectorsPerCluster + g.sectorsPerCluster
  {
    hide MountedGeometry, DecodeBoot, ClusterCount, BootSector.FatSectors, BootSector.RootSectors, BootSector.Overhead,
         BootSector.TotalSectors, VolumeSectors, Two;
    BootIs(sector);
    MountedFields(sector, volumeLba);
    var b := DecodeBoot(sector);
    FatSectorsIs(b);
    WholeClusters(Wrap32(b.TotalSectors() - b.Overhead()), b.sectorsPerCluster);
  }

  lemma BootIs(sector: Sector)
    ensures var b := DecodeBoot(sector);
            && b.bytesPerSector == Two(sector, 11) && b.sectorsPerCluster == sector[13]
            && b.reservedSectors == Two(sector, 14) && b.numFats == sector[16] && b.rootEntries == Two(sector, 17)
            && b.sectorsPerFat == Two(sector, 22) && b.TotalSectors() == VolumeSectors(sector)
  {
  }

  /** A boot sector of a volume of one sector whose first FAT and root directory alone would take two. */
  function CrampedSector(): Sector {
    seq(512, i requires 0 <= i < 512 =>
      if i == 0x0C then 2                                       // 512 bytes in a sector
      else if i == 0x0D || i == 0x0E || i == 0x10 || i == 0x13 || i == 0x16 then 1  // one of each of the rest
      else if i == 0x11 then 16                                 // root entries
      else if i == 510 then 0x55 else if i == 511 then 0xAA else 0)
  }

  /** It is accepted, and counts four thousand million clusters. */
  lemma CrampedVolumeMounts(volumeLba: nat)
    ensures var b := DecodeBoot(CrampedSector()); b.Supported() && b.Overhead() == 3 > b.TotalSectors() == 1
    ensures MountedGeometry(CrampedSector(), volumeLba).Some?
    ensures MountedGeometry(CrampedSector(), volumeLba).value.clusterCount == 0xFFFF_FFFE
  {
    var b := DecodeBoot(CrampedSector());
    assert b == BootSector(0xAA55, 512, 1, 1, 1, 16, 1, 1, 0);
  }
}
