/**
 The FAT16 driver: files in the root directory of one mounted volume, read and written
 through a table of open handles. The block device is an array of sectors that never fails
 inside its bounds. Sectors have SECTOR_SIZE bytes: the driver's sector buffers have that size,
 and volumes that declare another one are outside the model.
 */
module Fat16 {
  import opened Common
  import opened Bytes
  import opened FatLayout
  import opened FatChains
  import opened FatDirectory
  import opened FatState
  import opened FatWrite
  import opened FatRead
  import opened FatVolume
  import opened ShortNames

  class FileSystem {
    const g: Geometry
    const files: array<Handle>
    var disk: Disk
    ghost var chains: Chains

    ghost predicate Valid()
      reads this, files
    {
      ValidState(g, disk, files[..], chains)
    }

    /** The driver over a mounted, well-formed volume with no file open. */
    constructor (g: Geometry, disk: Disk, ghost chains: Chains)
      requires g.Valid() && Fits(g, disk) && Mirrored(g, disk) && Owned(FatTable(g, disk), chains)
      requires WellFormed(RootDirectory(g, disk)) && StartsOwned(g, RootDirectory(g, disk), [], chains)
      ensures Valid() && this.g == g && this.disk == disk && this.chains == chains
      ensures forall i :: 0 <= i < files.Length ==> files[i] == CLOSED
      ensures fresh(files)
    {
      this.g := g;
      this.disk := disk;
      this.chains := chains;
      files := new Handle[MAX_OPEN_FILES](_ => CLOSED);
      new;
      hide ValidState, Fits, Geometry.Valid, Mirrored, Owned, WellFormed, StartsOwned, FatTable, RootDirectory;
      AllClosed(g, disk, files[..], chains);
    }

    /** What validity says about one slot of the handle table. */
    lemma HandleAt(index: nat)
      requires Valid()
      ensures files.Length == MAX_OPEN_FILES && g.Valid() && Fits(g, disk) && Owned(FatTable(g, disk), chains)
      ensures WellFormed(RootDirectory(g, disk))
      ensures index < files.Length && files[index].active ==>
                && HandleShape(g, files[index]) && HandleOwned(files[index], chains)
                && files[index].position <= files[index].size
                && (files[index].start < CLUSTER_MIN <==> files[index].current < CLUSTER_MIN)
                && (files[index].start < CLUSTER_MIN ==> files[index].position == 0)
    {
      assert |files[..]| == MAX_OPEN_FILES;
    }

    lemma StateOf()
      requires Valid()
      ensures ValidState(g, disk, files[..], chains)
    {
    }

    // ---- the file allocation table ----

    method ReadFatEntry(cluster: nat) returns (value: nat)
      ensures g.Valid() && Fits(g, disk) && cluster < g.Limit() ==> value == FatTable(g, disk)[cluster]
      ensures value < 0x1_0000
    {
      hide FatTable, FatEntry, ReadLe16, Geometry.Valid, Fits;
      if g.Valid() && Fits(g, disk) && cluster < g.Limit() {
        FatEntryAt(g, disk, cluster);
      }
      EntryInSector(cluster);
      var fatOffset := cluster * 2;
      var sector := g.fatStart + fatOffset / SECTOR_SIZE;
      if sector >= |disk| {
        return CLUSTER_BAD;
      }
      value := ReadLe16(disk[sector], fatOffset % SECTOR_SIZE);
    }

    /** Stores an entry in every FAT copy. */
    method WriteFatEntry(cluster: nat, value: nat)
      requires g.Valid() && Fits(g, disk) && Mirrored(g, disk) && cluster < g.Limit() && value < 0x1_0000
      modifies this`disk
      ensures Fits(g, disk) && Mirrored(g, disk)
      ensures FatTable(g, disk) == FatTable(g, old(disk))[cluster := value]
      ensures OnlyFatsChanged(g, old(disk), disk)
    {
      hide FatTable, Mirrored, WriteLe16;
      var fatOffset := cluster * 2;
      var sectorIndex := fatOffset / SECTOR_SIZE;
      var sectorOffset := fatOffset % SECTOR_SIZE;
      for fatIndex := 0 to g.numFats
        invariant FatStored(g, old(disk), disk, fatIndex, cluster, value)
      {
        CopyLba(g, fatIndex, cluster);
        var lba := g.fatStart + sectorIndex + fatIndex * g.sectorsPerFat;
        FatStoredStep(g, old(disk), disk, fatIndex, cluster, value);
        disk := disk[lba := WriteLe16(disk[lba], sectorOffset, value)];
      }
      FatStoredEffect(g, old(disk), disk, cluster, value);
    }

    /** The lowest free cluster. */
    method FindFreeCluster() returns (ok: bool, cluster: nat)
      requires g.Valid() && Fits(g, disk)
      ensures ok ==> cluster in FreeClusters(FatTable(g, disk))
      ensures ok ==> forall c :: c in FreeClusters(FatTable(g, disk)) ==> cluster <= c
      ensures !ok ==> FreeClusters(FatTable(g, disk)) == {}
    {
      cluster := CLUSTER_MIN;
      while cluster < g.clusterCount + 2
        invariant CLUSTER_MIN <= cluster <= g.Limit()
        invariant forall c :: c in FreeClusters(FatTable(g, disk)) ==> cluster <= c
      {
        var entry := ReadFatEntry(cluster);
        if entry == CLUSTER_FREE {
          return true, cluster;
        }
        cluster := cluster + 1;
      }
      ok := false;
    }

    /**
     Takes a free cluster, marks it end-of-chain and links it behind `previous`, the last cluster of a chain, if there
     is one.
     */
    method AllocateCluster(previous: nat, ghost start: nat) returns (ok: bool, cluster: nat)
      requires g.Valid() && Fits(g, disk) && Mirrored(g, disk) && Owned(FatTable(g, disk), chains)
      requires previous >= CLUSTER_MIN ==> start in chains && previous == chains[start][|chains[start]| - 1]
      modifies this`disk, this`chains
      ensures ok <==> FreeClusters(FatTable(g, old(disk))) != {}
      ensures !ok ==> disk == old(disk) && chains == old(chains)
      ensures ok ==> Fits(g, disk) && Mirrored(g, disk) && Owned(FatTable(g, disk), chains)
                     && OnlyFatsChanged(g, old(disk), disk)
      ensures ok ==> cluster in FreeClusters(FatTable(g, old(disk)))
                     && forall c :: c in FreeClusters(FatTable(g, old(disk))) ==> cluster <= c
      ensures ok ==> FreeClusters(FatTable(g, disk)) == FreeClusters(FatTable(g, old(disk))) - {cluster}
      ensures ok ==> forall s :: s in old(chains) ==> s != cluster && cluster !in old(chains)[s]
      ensures ok && previous >= CLUSTER_MIN ==> chains == old(chains)[start := old(chains)[start] + [cluster]]
      ensures ok && previous < CLUSTER_MIN ==> chains == old(chains)[cluster := [cluster]]
    {
      hide Mirrored, Fits, Owned, FatTable, FatEntry;
      if previous >= CLUSTER_MIN {
        LastOf(FatTable(g, disk), chains, start);
      }
      ok, cluster := FindFreeCluster();
      if !ok {
        return;
      }
      ghost var fat := FatTable(g, disk);
      FreeIsUnowned(fat, chains, cluster);
      WriteFatEntry(cluster, CLUSTER_EOC);
      if previous >= CLUSTER_MIN {
        ExtendChain(fat, chains, start, cluster);
        WriteFatEntry(previous, cluster);
        assert FatTable(g, disk) == TakenAfter(fat, cluster, previous);
        chains := chains[start := chains[start] + [cluster]];
      } else {
        StartChain(fat, chains, cluster);
        chains := chains[cluster := [cluster]];
      }
    }

    // ---- writing ----

    /** Rewrites part of a sector, or all of it. */
    method StoreChunk(lba: nat, sectorOffset: nat, chunk: seq<byte>)
      requires lba < |disk| && sectorOffset + |chunk| <= 512
      modifies this`disk
      ensures disk == old(disk)[lba := Splice(old(disk)[lba], sectorOffset, chunk)]
    {
      if sectorOffset != 0 || |chunk| < SECTOR_SIZE {
        disk := disk[lba := Splice(disk[lba], sectorOffset, chunk)];
      } else {
        assert chunk == Splice(disk[lba], sectorOffset, chunk);
        disk := disk[lba := chunk];
      }
    }

    /** One round of the write loop up to the check for a cluster boundary. */
    method WriteSector(index: nat, data: seq<byte>, totalWritten: nat, remaining: nat, ghost job: WriteJob,
                       ghost i: nat)
      returns (chunk: nat, clusterFull: bool)
      requires index < files.Length && remaining > 0 && totalWritten + remaining == |data|
      requires job.g == g && job.data == data
      requires WriteProgress(job, disk, chains, files[index], totalWritten, i) && WithinCluster(job, totalWritten, i)
      modifies this`disk, files
      ensures 0 < chunk <= remaining
      ensures files[..] == old(files[..])[index := files[index]]
      ensures WriteProgress(job, disk, chains, files[index], totalWritten + chunk, i)
      ensures PastStart(job, totalWritten + chunk, i)
      ensures clusterFull <==> !WithinCluster(job, totalWritten + chunk, i)
    {
      hide Geometry.ClusterToLba, Owned, Mirrored, Written, SameDirectory, Fits, ClusterOffset, WriteProgress,
           WithinCluster, PastStart;
      ghost var before := disk;
      var file := files[index];
      WriteLocates(job, disk, chains, file, totalWritten, i);
      PositionSplit(g, file.position);
      assert file.current >= CLUSTER_MIN;  // so the driver's guard against a missing cluster never fires
      var clusterSize := g.ClusterSize();
      var clusterOffset := file.position % clusterSize;
      var sectorInCluster := clusterOffset / SECTOR_SIZE;
      var sectorOffset := clusterOffset % SECTOR_SIZE;
      var lba := g.ClusterToLba(file.current) + sectorInCluster;
      chunk := SECTOR_SIZE - sectorOffset;
      if chunk > remaining {
        chunk := remaining;
      }
      StoreChunk(lba, sectorOffset, data[totalWritten..totalWritten + chunk]);
      WriteChunk(job, before, disk, chains, file, totalWritten, i, chunk);
      file := file.(position := file.position + chunk);
      if file.position > file.size {
        file := file.(size := file.position);
      }
      files[index] := file;
      clusterFull := sectorInCluster == g.sectorsPerCluster - 1 && sectorOffset + chunk == SECTOR_SIZE;
    }

    /** The step of the write loop from a full cluster to the next one, which is taken if the chain ends. */
    method NextForWrite(index: nat, ghost job: WriteJob, ghost w: nat, ghost i: nat) returns (ok: bool)
      requires index < files.Length && job.g == g && 0 < w < |job.data|
      requires WriteProgress(job, disk, chains, files[index], w, i) && PastStart(job, w, i) && !WithinCluster(job, w, i)
      modifies this`disk, this`chains, files
      ensures files[..] == old(files[..])[index := files[index]]
      ensures ok ==> WriteProgress(job, disk, chains, files[index], w, i + 1) && WithinCluster(job, w, i + 1)
      ensures !ok ==> WriteProgress(job, disk, chains, files[index], w, i)
                      && WriteDone(job, disk, chains, files[index], -1)
    {
      hide WriteProgress, WriteDone, WithinCluster, PastStart, Mirrored, Owned, Fits;
      var file := files[index];
      ghost var start := file.start;
      WriteLooksUp(job, disk, chains, file, w, i);
      var nextCluster := ReadFatEntry(file.current);
      if nextCluster < CLUSTER_MIN || nextCluster >= CLUSTER_EOC {
        ghost var disk1, chains1 := disk, chains;
        ok, nextCluster := AllocateCluster(file.current, start);
        if !ok {
          WriteStops(job, disk, chains, file, w, i);
          return;
        }
        WriteAllocates(job, disk1, chains1, disk, chains, file, w, i, nextCluster);
      } else {
        WriteFollows(job, disk, chains, file, w, i);
      }
      files[index] := file.(current := nextCluster);
      ok := true;
    }

    /** The loop of `fat16_write`, for a handle that has a first cluster. */
    method WriteChain(index: nat, data: seq<byte>) returns (r: int)
      requires Valid() && index < MAX_OPEN_FILES && files[index].active && files[index].start >= CLUSTER_MIN
      requires |data| > 0 && files[index].position + |data| < 0x1_0000_0000
      modifies this`disk, this`chains, files
      ensures Valid()
      ensures files[..] == old(files[..])[index := files[index]]
      ensures SameDirectory(g, old(disk), disk)
      ensures WriteDone(WriteJob(g, old(disk), old(chains), old(files[index]), data), disk, chains, files[index], r)
    {
      hide WriteProgress, WriteDone, WithinCluster, PastStart, ValidState, SameDirectory;
      ghost var handles0 := files[..];
      assert |handles0| == MAX_OPEN_FILES by { HandleCount(g, disk, handles0, chains); }
      ghost var job := WriteJob(g, disk, chains, files[index], data);
      WriteCanBegin(job, handles0, index);
      ghost var i := IndexOf(job.Chain(), files[index].current);

      var remaining: nat := |data|;
      var totalWritten := 0;
      while remaining > 0
        invariant totalWritten + remaining == |data|
        invariant files[..] == handles0[index := files[index]]
        invariant WriteProgress(job, disk, chains, files[index], totalWritten, i)
        invariant if remaining > 0 then WithinCluster(job, totalWritten, i) else PastStart(job, totalWritten, i)
      {
        var chunk, clusterFull := WriteSector(index, data, totalWritten, remaining, job, i);
        remaining := remaining - chunk;
        totalWritten := totalWritten + chunk;
        if remaining == 0 {
          break;
        }
        if clusterFull {
          var ok := NextForWrite(index, job, totalWritten, i);
          if !ok {
            assert files[..] == handles0[index := files[index]];
            WriteKeepsValid(job, disk, chains, handles0, index, files[index], files[index], totalWritten, i, -1);
            return -1;
          }
          i := i + 1;
        }
      }
      WriteFinishes(job, disk, chains, files[index], i);
      WriteKeepsValid(job, disk, chains, handles0, index, files[index], files[index].(modified := true), |data|, i,
                      |data|);
      files[index] := files[index].(modified := true);
      assert files[..] == handles0[index := files[index]];
      r := totalWritten;
    }

    /** The part of `fat16_write` that gives an empty file its first cluster. */
    method TakeFirstCluster(index: nat) returns (ok: bool)
      requires Valid() && index < MAX_OPEN_FILES && files[index].active && files[index].start < CLUSTER_MIN
      modifies this`disk, this`chains, files
      ensures Valid()
      ensures files[..] == old(files[..])[index := files[index]]
      ensures SameDirectory(g, old(disk), disk)
      ensures ok <==> FreeClusters(FatTable(g, old(disk))) != {}
      ensures !ok ==> disk == old(disk) && chains == old(chains) && files[index] == old(files[index])
      ensures ok ==> FirstTaken(g, old(disk), old(chains), old(files[index]), disk, chains, files[index])
    {
      ghost var handles0, chains0, disk0 := files[..], chains, disk;
      var cluster;
      ok, cluster := AllocateCluster(CLUSTER_FREE, 0);
      if !ok {
        return;
      }
      files[index] := files[index].(start := cluster, current := cluster);
      FirstKeepsValid(g, disk0, chains0, handles0, index, disk, chains, cluster);
      assert files[..] == handles0[index := files[index]];
    }

    /** `fat16_write` on a file without a cluster. */
    method WriteFirst(index: nat, data: seq<byte>) returns (r: int)
      requires Valid() && index < MAX_OPEN_FILES && files[index].active && files[index].start < CLUSTER_MIN
      requires |data| > 0 && files[index].position + |data| < 0x1_0000_0000
      modifies this`disk, this`chains, files
      ensures Valid()
      ensures files[..] == old(files[..])[index := files[index]]
      ensures SameDirectory(g, old(disk), disk)
      ensures WriteOutcome(g, old(disk), old(chains), old(files[index]), data, disk, chains, files[index], r)
    {
      hide *;
      HandleAt(index);
      StateOf();
      ghost var h, disk0, chains0, handles0 := files[index], disk, chains, files[..];
      var ok := TakeFirstCluster(index);
      if !ok {
        OutcomeOfNone(g, disk0, chains0, h, data);
        SameDirectoryAlways(g, disk0);
        return -1;
      }
      ghost var h1, disk1, chains1 := files[index], disk, chains;
      FirstStart(g, disk0, chains0, h, disk1, chains1, h1);
      r := WriteChain(index, data);
      OutcomeOfFirst(g, disk0, chains0, h, data, disk1, chains1, h1, disk, chains, files[index], r);
      SameDirectoryTwice(g, disk0, disk1, disk);
      assert files[..] == handles0[index := files[index]];
    }

    /** `fat16_write` once its arguments are checked. */
    method WriteThrough(index: nat, data: seq<byte>) returns (r: int)
      requires Valid() && index < MAX_OPEN_FILES && files[index].active
      requires |data| > 0 && files[index].position + |data| < 0x1_0000_0000
      modifies this`disk, this`chains, files
      ensures Valid()
      ensures files[..] == old(files[..])[index := files[index]]
      ensures SameDirectory(g, old(disk), disk)
      ensures WriteOutcome(g, old(disk), old(chains), old(files[index]), data, disk, chains, files[index], r)
      ensures WriteFrame(g, old(disk), old(files[..]), old(chains), index, disk, files[..], chains)
    {
      hide *;
      HandleAt(index);
      StateOf();
      ghost var h, disk0, chains0, handles0 := files[index], disk, chains, files[..];
      // a cursor below the first cluster number means the file has no cluster at all
      assert files[index].current < CLUSTER_MIN ==> files[index].start < CLUSTER_MIN;
      if files[index].position == 0 && files[index].start < CLUSTER_MIN {
        r := WriteFirst(index, data);
      } else {
        r := WriteChain(index, data);
        OutcomeOfLater(g, disk0, chains0, h, data, disk, chains, files[index], r);
      }
      StateOf();
      WriteFramed(g, disk0, handles0, chains0, index, data, disk, chains, files[index], r);
    }

    /** `fat16_write`: -1 for a bad descriptor, no bytes or a full volume, otherwise the number of bytes. */
    method Write(fd: int, data: seq<byte>) returns (r: int)
      requires Valid()
      requires IsOpen(fd) ==> files[fd - FD_BASE].position + |data| < 0x1_0000_0000
      modifies this`disk, this`chains, files
      ensures Valid()
      ensures !old(IsOpen(fd)) || |data| == 0 ==>
                r == -1 && disk == old(disk) && chains == old(chains) && files[..] == old(files[..])
      ensures old(IsOpen(fd)) && |data| > 0 ==>
                && files[..] == old(files[..])[fd - FD_BASE := files[fd - FD_BASE]]
                && SameDirectory(g, old(disk), disk)
                && WriteOutcome(g, old(disk), old(chains), old(files[fd - FD_BASE]), data, disk, chains,
                                files[fd - FD_BASE], r)
                && WriteFrame(g, old(disk), old(files[..]), old(chains), fd - FD_BASE, disk, files[..], chains)
    {
      hide WriteOutcome, SameDirectory, Valid, WriteFrame;
      HandleAt(0);
      if |data| == 0 {
        return -1;
      }
      var index := fd - FD_BASE;
      if index < 0 || index >= MAX_OPEN_FILES {
        return -1;
      }
      if !files[index].active {
        return -1;
      }
      r := WriteThrough(index, data);
    }

    // ---- reading ----

    /** Copies into a caller's buffer. */
    method CopyOut(buffer: array<byte>, at: nat, piece: seq<byte>)
      requires at + |piece| <= buffer.Length
      modifies buffer
      ensures buffer[..] == old(buffer[..at]) + piece + old(buffer[at + |piece|..])
    {
      for k := 0 to |piece|
        invariant forall j :: 0 <= j < buffer.Length ==>
                    buffer[j] == if at <= j < at + k then piece[j - at] else old(buffer[j])
      {
        buffer[at + k] := piece[k];
      }
    }

    /**
     One round of the read loop up to the check for a cluster boundary; `sound` says that `job` describes the handle.
     */
    method ReadSector(index: nat, buffer: array<byte>, totalRead: nat, remaining: nat, ghost sound: bool,
                      ghost job: ReadJob, ghost i: nat)
      returns (ok: bool, chunk: nat, clusterFull: bool)
      requires 1 <= g.sectorsPerCluster && index < files.Length && remaining > 0
               && totalRead + remaining <= buffer.Length
      requires files[index].current >= CLUSTER_MIN && files[index].position + remaining <= files[index].size
      requires sound ==> job.g == g && job.disk == disk && job.Proper() && ReadProgress(job, files[index], totalRead, i)
      requires sound ==> ReadWithin(job, totalRead, i) && Delivered(g, disk, job.chain, job.From(), buffer[..totalRead])
      modifies files, buffer
      ensures ok ==> 0 < chunk <= remaining
      ensures files[..] == old(files[..])[index := files[index]]
      ensures files[index] == if ok then old(files[index]).(position := old(files[index]).position + chunk)
                else old(files[index])
      ensures forall k :: 0 <= k < buffer.Length && !(totalRead <= k < totalRead + remaining) ==>
                buffer[k] == old(buffer[k])
      ensures sound ==> ok && ReadProgress(job, files[index], totalRead + chunk, i)
      ensures sound ==> Delivered(g, disk, job.chain, job.From(), buffer[..totalRead + chunk])
      ensures sound ==> job.g.Span(i) < job.From() + totalRead + chunk <= Capacity(job.g, job.chain)
      ensures sound ==>
                (clusterFull <==> !ReadWithin(job, totalRead + chunk, i) && files[index].position < files[index].size)
    {
      hide Geometry.ClusterToLba, ReadProgress, ReadWithin, Delivered, ClusterOffset, Fits;
      var file := files[index];
      var clusterSize := g.ClusterSize();
      if sound {
        ReadLocates(job, file, totalRead, i);
        PositionSplit(g, file.position);
      }
      var clusterOffset := file.position % clusterSize;
      var sectorInCluster := clusterOffset / SECTOR_SIZE;
      var sectorOffset := clusterOffset % SECTOR_SIZE;
      var lba := g.ClusterToLba(file.current) + sectorInCluster;
      if lba >= |disk| {
        return false, 0, false;
      }
      var sector := disk[lba];
      chunk := SECTOR_SIZE - sectorOffset;
      if chunk > remaining {
        chunk := remaining;
      }
      if sound {
        ReadChunk(job, file, totalRead, i, chunk);
        PieceDelivered(g, disk, job.chain, job.From(), buffer[..totalRead], sector[sectorOffset..sectorOffset + chunk]);
      }
      ghost var before := buffer[..totalRead];
      CopyOut(buffer, totalRead, sector[sectorOffset..sectorOffset + chunk]);
      assert buffer[..totalRead + chunk] == before + sector[sectorOffset..sectorOffset + chunk];
      file := file.(position := file.position + chunk);
      files[index] := file;
      ok := true;
      clusterFull := file.position < file.size && sectorInCluster == g.sectorsPerCluster - 1
      && sectorOffset + chunk == SECTOR_SIZE;
    }

    /** The step of the read loop from a full cluster to the next one; false when the chain ends. */
    method NextForRead(index: nat, ghost sound: bool, ghost job: ReadJob, ghost w: nat, ghost i: nat) returns (ok: bool)
      requires index < files.Length && files[index].current >= CLUSTER_MIN
      requires sound ==> job.g == g && job.disk == disk && job.Proper() && ReadProgress(job, files[index], w, i)
                         && !ReadWithin(job, w, i)
      modifies files
      ensures files[..] == old(files[..])[index := files[index]]
      ensures files[index] == old(files[index]).(current := files[index].current) && files[index].current >= CLUSTER_MIN
      ensures !ok ==> files[index] == old(files[index])
      ensures sound && ok ==> i + 1 < |job.chain| && ReadProgress(job, files[index], w, i + 1)
                              && ReadWithin(job, w, i + 1)
      ensures sound && ok ==> job.g.Span(i + 1) == job.From() + w
      ensures sound && !ok ==> i == |job.chain| - 1
    {
      hide Geometry.Valid, Fits, ReadProgress, ReadWithin, ReadJob.Proper, ReadJob.From;
      if sound {
        ReadLooksUp(job, files[index], w, i);
      }
      var nextCluster := ReadFatEntry(files[index].current);
      if nextCluster < CLUSTER_MIN || nextCluster >= CLUSTER_EOC {
        return false;
      }
      if sound {
        ReadFollows(job, files[index], w, i);
      }
      files[index] := files[index].(current := nextCluster);
      ok := true;
    }

    /** The loop of `fat16_read`; nothing is assumed of the FAT unless `sound`. */
    method ReadLoop(index: nat, buffer: array<byte>, want: nat, ghost sound: bool, ghost job: ReadJob) returns (r: int)
      requires 1 <= g.sectorsPerCluster && index < files.Length && 0 < want <= buffer.Length
      requires files[index].position + want <= files[index].size
      requires sound ==> job.g == g && job.disk == disk && job.h == files[index] && job.Proper()
      modifies files, buffer
      ensures -1 <= r <= want
      ensures files[..] == old(files[..])[index := files[index]]
      ensures forall k :: want <= k < buffer.Length ==> buffer[k] == old(buffer[k])
      ensures sound ==> r >= 0 && ReadDone(job, want, files[index], buffer[..r])
    {
      hide *;
      ghost var handles0 := files[..];
      ghost var h := files[index];
      ghost var i := 0;
      if sound {
        i := ReadBegins(job);
        assert buffer[..0] == [];
      }
      var remaining: nat := want;
      var totalRead := 0;
      while remaining > 0
        invariant totalRead + remaining == want
        invariant files[..] == handles0[index := files[index]]
        invariant files[index] == h.(current := files[index].current, position := h.position + totalRead)
        invariant forall k :: want <= k < buffer.Length ==> buffer[k] == old(buffer[k])
        invariant sound ==> ReadProgress(job, files[index], totalRead, i)
        invariant sound ==> Delivered(g, disk, job.chain, job.From(), buffer[..totalRead])
        invariant sound && remaining > 0 ==> ReadWithin(job, totalRead, i)
        invariant sound && remaining == 0 ==> ReadEnd(job, want, files[index], totalRead, i)
      {
        if files[index].current < CLUSTER_MIN {
          if sound {
            ReadLocates(job, files[index], totalRead, i);
          }
          break;
        }
        var ok, chunk, clusterFull := ReadSector(index, buffer, totalRead, remaining, sound, job, i);
        if !ok {
          return -1;
        }
        remaining := remaining - chunk;
        totalRead := totalRead + chunk;
        if clusterFull {
          ok := NextForRead(index, sound, job, totalRead, i);
          if !ok {
            if sound {
              ReadEndsWithChain(job, want, files[index], totalRead, i);
            }
            break;
          }
          i := i + 1;
        }
        if sound && remaining == 0 {
          ReadEndsWithCount(job, want, files[index], totalRead, i);
        }
      }
      if sound {
        ReadFinishes(job, want, files[index], buffer[..totalRead], i);
      }
      r := totalRead;
    }

    /** `fat16_read`: -1 for a bad descriptor or no bytes wanted, 0 at the end of the file. */
    method Read(fd: int, buffer: array<byte>, count: nat) returns (r: int)
      requires files.Length == MAX_OPEN_FILES && 1 <= g.sectorsPerCluster && count <= buffer.Length
      modifies files, buffer
      ensures -1 <= r <= count
      ensures forall k :: count <= k < buffer.Length ==> buffer[k] == old(buffer[k])
      ensures !old(IsOpen(fd)) || count == 0 ==> r == -1 && files[..] == old(files[..]) && buffer[..] == old(buffer[..])
      ensures old(IsOpen(fd)) && count > 0 ==> files[..] == old(files[..])[fd - FD_BASE := files[fd - FD_BASE]]
      ensures old(Valid() && IsOpen(fd)) && count > 0 ==>
                && Valid() && r >= 0
                && ReadOutcome(g, disk, chains, old(files[fd - FD_BASE]), count, files[fd - FD_BASE], buffer[..r])
    {
      if count == 0 {
        return -1;
      }
      var index := fd - FD_BASE;
      if index < 0 || index >= MAX_OPEN_FILES {
        return -1;
      }
      if !files[index].active {
        return -1;
      }
      r := ReadThrough(index, buffer, count, Valid());
    }

    /** `fat16_read` once its arguments are checked. */
    method ReadThrough(index: nat, buffer: array<byte>, count: nat, ghost sound: bool) returns (r: int)
      requires files.Length == MAX_OPEN_FILES && 1 <= g.sectorsPerCluster && 0 < count <= buffer.Length
      requires index < files.Length && files[index].active && (sound ==> Valid())
      modifies files, buffer
      ensures -1 <= r <= count
      ensures forall k :: count <= k < buffer.Length ==> buffer[k] == old(buffer[k])
      ensures files[..] == old(files[..])[index := files[index]]
      ensures sound ==> Valid() && r >= 0
      ensures sound ==> ReadOutcome(g, disk, chains, old(files[index]), count, files[index], buffer[..r])
    {
      hide ValidState, ReadOutcome, ReadDone, Owned, Fits, HandleOwned, Geometry.Valid, ReadJob.Proper;
      ghost var h, handles0 := files[index], files[..];
      if sound {
        HandleAt(index);
      }
      if files[index].position >= files[index].size {
        if sound {
          ReadNothing(g, disk, chains, h, count);
          assert buffer[..0] == [];
        }
        return 0;
      }
      var remaining := files[index].size - files[index].position;
      if remaining > count {
        remaining := count;
      }
      ghost var job := ReadJob(g, disk, [], h);
      if sound {
        job := ReadThroughChain(g, disk, chains, h, handles0, index);
      }
      r := ReadLoop(index, buffer, remaining, sound, job);
      if sound {
        ReadConcludes(job, chains, count, remaining, handles0, index, files[index], buffer[..r]);
        assert files[..] == handles0[index := files[index]];
      }
    }

    // ---- the root directory ----

    /** Scans the directory for a regular file of that name. */
    method FindRootEntry(name: Name) returns (found: bool, start: nat, size: nat, dirLba: nat, dirOffset: nat)
      requires g.Valid() && Fits(g, disk)
      ensures found <==> Lookup(RootDirectory(g, disk), name, 0) >= 0
      ensures found ==>
                var dir := RootDirectory(g, disk);
                var j := Lookup(dir, name, 0);
                dirLba == SlotLba(g, j) && dirOffset == SlotOffset(j) && start == dir[j].start && size == dir[j].size
    {
      hide RootDirectory, Geometry.Valid, Fits, ReadLe16, ReadLe32, SlotLba, SlotOffset, Lookup;
      ghost var dir := RootDirectory(g, disk);
      ScanEnds(g, disk, name);
      for sectorIndex := 0 to g.rootDirSectors
        invariant Lookup(dir, name, 16 * sectorIndex) == Lookup(dir, name, 0)
      {
        var lba := g.rootDirStart + sectorIndex;
        LookupStep(g, disk, sectorIndex, 0, name);
        var sector := disk[lba];
        var offset := 0;
        while offset < SECTOR_SIZE
          invariant offset <= SECTOR_SIZE && offset % ENTRY_SIZE == 0
          invariant Lookup(dir, name, 16 * sectorIndex + offset / ENTRY_SIZE) == Lookup(dir, name, 0)
        {
          LookupStep(g, disk, sectorIndex, offset, name);
          var firstByte := sector[offset];
          if firstByte == 0x00 {
            return false, 0, 0, 0, 0;
          }
          var attributes := sector[offset + 0x0B];
          if firstByte != DELETED && attributes % 16 != 15 && attributes / 8 % 2 == 0 && attributes / 16 % 2 == 0
             && sector[offset..offset + NAME_SIZE] == name
          {
            return true, ReadLe16(sector, offset + 0x1A), ReadLe32(sector, offset + 0x1C), lba, offset;
          }
          offset := offset + ENTRY_SIZE;
        }
      }
      return false, 0, 0, 0, 0;
    }

    /** Scans the directory for a slot that was never used or whose file was deleted. */
    method FindFreeRootEntry() returns (found: bool, dirLba: nat, dirOffset: nat)
      requires g.Valid() && Fits(g, disk)
      ensures found <==> FirstFree(RootDirectory(g, disk), 0) >= 0
      ensures found ==> var j := FirstFree(RootDirectory(g, disk), 0);
                dirLba == SlotLba(g, j) && dirOffset == SlotOffset(j)
    {
      hide RootDirectory, Geometry.Valid, Fits, SlotLba, SlotOffset, FirstFree;
      ghost var dir := RootDirectory(g, disk);
      ScanEnds(g, disk, seq(NAME_SIZE, _ => 0));
      for sectorIndex := 0 to g.rootDirSectors
        invariant FirstFree(dir, 16 * sectorIndex) == FirstFree(dir, 0)
      {
        var lba := g.rootDirStart + sectorIndex;
        FirstFreeStep(g, disk, sectorIndex, 0);
        var sector := disk[lba];
        var offset := 0;
        while offset < SECTOR_SIZE
          invariant offset <= SECTOR_SIZE && offset % ENTRY_SIZE == 0
          invariant FirstFree(dir, 16 * sectorIndex + offset / ENTRY_SIZE) == FirstFree(dir, 0)
        {
          FirstFreeStep(g, disk, sectorIndex, offset);
          if sector[offset] == 0x00 || sector[offset] == DELETED {
            return true, lba, offset;
          }
          offset := offset + ENTRY_SIZE;
        }
      }
      return false, 0, 0;
    }

    /** Rewrites the slot at `dirLba`, `dirOffset`, which is slot `j`. */
    method StoreSlot(dirLba: nat, dirOffset: nat, sector: Sector, ghost j: nat)
      requires g.Valid() && Fits(g, disk) && j < 16 * g.rootDirSectors
      requires dirLba == SlotLba(g, j) && dirOffset == SlotOffset(j)
      requires OnlySlotChanged(disk[dirLba], sector, dirOffset)
      modifies this`disk
      ensures Fits(g, disk) && SameOutsideDirectory(g, old(disk), disk)
      ensures RootDirectory(g, disk) == RootDirectory(g, old(disk))[j := DecodeEntry(sector, dirOffset)]
    {
      SlotWritten(g, disk, disk[dirLba := sector], j, sector);
      disk := disk[dirLba := sector];
    }

    /** The 8.3 name of a path, if it has one. */
    method NameOf(path: seq<byte>) returns (name: Option<Name>)
      ensures name == ShortName(path)
    {
      hide ShortName;
      var normalized := new byte[NAME_SIZE];
      var ok := NormalizeShortName(path, normalized);
      name := if ok then Some(normalized[..]) else None;
    }

    /** `fat16_create`: 0 when the path has a name, the name is new and there is a slot for it, otherwise -1. */
    method Create(path: seq<byte>) returns (r: int)
      requires Valid() && IsPath(path)
      modifies this`disk
      ensures Valid() && SameOutsideDirectory(g, old(disk), disk)
      ensures r == 0 || (r == -1 && disk == old(disk))
      ensures var dir := RootDirectory(g, old(disk));
              r == 0 <==> ShortName(path).Some? && ShortName(path).value !in Files(dir) && HasRoom(dir)
      ensures r == 0 ==>
                && Adds(RootDirectory(g, old(disk)), ShortName(path).value, RootDirectory(g, disk))
                && Files(RootDirectory(g, disk)) == AddedFile(Files(RootDirectory(g, old(disk))), ShortName(path).value)
      ensures r == 0 ==> Volume(g, disk, chains) == AddedTo(old(Volume(g, disk, chains)), ShortName(path).value)
    {
      hide *;
      ghost var disk0 := disk;
      HandleAt(0);
      SameOutsideAlways(g, disk);
      var name := NameOf(path);
      if name.None? {
        return -1;
      }
      FirstByteNotZero(path);
      r := CreateNamed(name.value);
      HandleAt(0);
      if r == 0 {
        CreateShows(g, disk0, disk, chains, name.value);
      }
    }

    method CreateNamed(name: Name) returns (r: int)
      requires Valid() && name[0] != 0
      modifies this`disk
      ensures Valid() && SameOutsideDirectory(g, old(disk), disk)
      ensures r == 0 || (r == -1 && disk == old(disk))
      ensures r == 0 <==> name !in Files(RootDirectory(g, old(disk))) && HasRoom(RootDirectory(g, old(disk)))
      ensures r == 0 ==>
                && Adds(RootDirectory(g, old(disk)), name, RootDirectory(g, disk))
                && Files(RootDirectory(g, disk)) == AddedFile(Files(RootDirectory(g, old(disk))), name)
    {
      hide ValidState, RootDirectory, Fits, Geometry.Valid, WellFormed, Owned, HandleShape, HandleOwned, Files,
           SlotLba, SlotOffset, DecodeEntry;
      HandleAt(0);
      ghost var dir, disk0 := RootDirectory(g, disk), disk;
      var found, _, _, _, _ := FindRootEntry(name);
      LookupAgrees(dir, name);
      if found {
        return -1;
      }
      var dirLba, dirOffset;
      found, dirLba, dirOffset := FindFreeRootEntry();
      RoomIsFirstFree(dir);
      if !found {
        return -1;
      }
      ghost var j := FirstFree(dir, 0);
      SlotInDirectory(g, disk, j);
      CreatedSlot(disk[dirLba], dirOffset, name);
      StoreSlot(dirLba, dirOffset, Splice(disk[dirLba], dirOffset, NewSlot(name)), j);
      CreateAdds(dir, name);
      DirectoryStep(g, disk0, disk, files[..], chains, j, NewEntry(name));
      r := 0;
    }

    /** `fat16_delete`: 0 when there is a regular file of that name, otherwise -1. */
    method Delete(path: seq<byte>) returns (r: int)
      requires Valid()
      modifies this`disk
      ensures Valid() && SameOutsideDirectory(g, old(disk), disk)
      ensures r == 0 || (r == -1 && disk == old(disk))
      ensures r == 0 <==> ShortName(path).Some? && ShortName(path).value in Files(RootDirectory(g, old(disk)))
      ensures r == 0 ==> Files(RootDirectory(g, disk)) == Files(RootDirectory(g, old(disk))) - {ShortName(path).value}
      ensures r == 0 ==> Volume(g, disk, chains) == old(Volume(g, disk, chains)) - {ShortName(path).value}
    {
      hide *;
      ghost var disk0 := disk;
      HandleAt(0);
      SameOutsideAlways(g, disk);
      var name := NameOf(path);
      if name.None? {
        return -1;
      }
      r := DeleteNamed(name.value);
      HandleAt(0);
      if r == 0 {
        DeleteShows(g, disk0, disk, chains, name.value);
      }
    }

    method DeleteNamed(name: Name) returns (r: int)
      requires Valid()
      modifies this`disk
      ensures Valid() && SameOutsideDirectory(g, old(disk), disk)
      ensures r == 0 || (r == -1 && disk == old(disk))
      ensures r == 0 <==> name in Files(RootDirectory(g, old(disk)))
      ensures r == 0 ==> Files(RootDirectory(g, disk)) == Files(RootDirectory(g, old(disk))) - {name}
    {
      hide ValidState, RootDirectory, Fits, Geometry.Valid, WellFormed, Owned, HandleShape, HandleOwned, Files,
           SlotLba, SlotOffset, DecodeEntry;
      HandleAt(0);
      ghost var dir, disk0 := RootDirectory(g, disk), disk;
      var found, _, _, dirLba, dirOffset := FindRootEntry(name);
      LookupAgrees(dir, name);
      if !found {
        return -1;
      }
      ghost var j := Lookup(dir, name, 0);
      SlotInDirectory(g, disk, j);
      DeletedSlot(disk[dirLba], dirOffset);
      StoreSlot(dirLba, dirOffset, disk[dirLba][dirOffset := DELETED], j);
      DeleteRemoves(dir, name);
      DirectoryStep(g, disk0, disk, files[..], chains, j, Erased(dir[j]));
      r := 0;
    }

    /** `fat16_open`: a descriptor on the regular file of that name, or -1. */
    method Open(path: seq<byte>) returns (fd: int)
      requires Valid()
      modifies files
      ensures Valid()
      ensures fd != -1 <==>
                && ShortName(path).Some? && CanOpen(RootDirectory(g, disk), ShortName(path).value)
                && exists i :: 0 <= i < MAX_OPEN_FILES && !old(files[..])[i].active
      ensures fd == -1 ==> files[..] == old(files[..])
      ensures fd != -1 ==>
                && 3 <= fd < 19 && !old(files[..])[fd - FD_BASE].active
                && files[..] == old(files[..])[fd - FD_BASE := files[fd - FD_BASE]]
                && OpenedOn(g, RootDirectory(g, disk), ShortName(path).value, files[fd - FD_BASE])
    {
      hide *;
      var name := NameOf(path);
      if name.None? {
        return -1;
      }
      fd := OpenNamed(name.value);
    }

    method OpenNamed(name: Name) returns (fd: int)
      requires Valid()
      modifies files
      ensures Valid()
      ensures fd != -1 <==> CanOpen(RootDirectory(g, disk), name) && exists i ::
                0 <= i < MAX_OPEN_FILES && !old(files[..])[i].active
      ensures fd == -1 ==> files[..] == old(files[..])
      ensures fd != -1 ==>
                && 3 <= fd < 19 && !old(files[..])[fd - FD_BASE].active
                && files[..] == old(files[..])[fd - FD_BASE := files[fd - FD_BASE]]
                && OpenedOn(g, RootDirectory(g, disk), name, files[fd - FD_BASE])
    {
      hide ValidState, RootDirectory, Fits, Geometry.Valid, WellFormed, Owned, HandleShape, HandleOwned, Files,
           SlotLba, SlotOffset;
      HandleAt(0);
      ghost var dir, handles0 := RootDirectory(g, disk), files[..];
      var found, start, size, dirLba, dirOffset := FindRootEntry(name);
      LookupAgrees(dir, name);
      if !found {
        return -1;
      }
      if size > 0 && start < CLUSTER_MIN {
        return -1;
      }
      ghost var j := Lookup(dir, name, 0);
      for index := 0 to MAX_OPEN_FILES
        invariant forall i :: 0 <= i < index ==> files[i].active
        invariant files[..] == handles0
      {
        if !files[index].active {
          var h := Handle(true, start, start, size, 0, dirLba, dirOffset, false);
          OpenKeepsValid(g, disk, handles0, chains, index, j, h);
          files[index] := h;
          assert files[..] == handles0[index := h];
          return index + FD_BASE;
        }
      }
      fd := -1;
    }

    /** `fat16_close`: writes start cluster and size back if the file was written, and frees the handle. */
    method Close(fd: int) returns (r: int)
      requires Valid()
      modifies this`disk, files
      ensures Valid() && SameOutsideDirectory(g, old(disk), disk)
      ensures r == if old(IsOpen(fd)) then 0 else -1
      ensures !old(IsOpen(fd)) ==> disk == old(disk) && files[..] == old(files[..])
      ensures old(IsOpen(fd)) ==>
                && files[..] == old(files[..])[fd - FD_BASE := CLOSED]
                && ClosedInto(g, RootDirectory(g, old(disk)), old(files[fd - FD_BASE]), RootDirectory(g, disk))
                && CloseFrame(g, old(disk), chains, old(files[fd - FD_BASE]), disk)
    {
      hide ValidState, RootDirectory, Fits, Geometry.Valid, WellFormed, Owned, HandleOwned, Files, SlotLba, SlotOffset,
           DecodeEntry, HandleShape, WriteLe16, WriteLe32, CloseFrame, SameOutsideDirectory;
      HandleAt(0);
      SameOutsideAlways(g, disk);
      var index := fd - FD_BASE;
      if index < 0 || index >= MAX_OPEN_FILES {
        return -1;
      }
      if !files[index].active {
        return -1;
      }
      HandleAt(index);
      var file := files[index];
      ghost var dir, disk0, handles0 := RootDirectory(g, disk), disk, files[..];
      ghost var j := HandleSlot(g, disk, file);
      if file.modified {
        UpdatedSlot(disk[file.dirLba], file.dirOffset, file.start, file.size);
        StoreSlot(file.dirLba, file.dirOffset,
                  WriteLe32(WriteLe16(disk[file.dirLba], file.dirOffset + 0x1A, file.start), file.dirOffset + 0x1C,
                            file.size), j);
        UpdateStores(dir, j, file.start, file.size);
        CloseKeepsValid(g, disk0, disk, handles0, chains, index, j);
      }
      CloseFramed(g, disk0, disk, chains, file);
      ClosedKeepsValid(g, disk, handles0, chains, index);
      files[index] := CLOSED;
      assert files[..] == handles0[index := CLOSED];
      r := 0;
    }

    ghost predicate IsOpen(fd: int)
      reads files
    {
      FD_BASE <= fd < FD_BASE + files.Length && files[fd - FD_BASE].active
    }
  }
}
