/**
 What one call of the driver's write does, step by step, on values: the state of the loop,
 and how storing a chunk, taking a further cluster and stopping preserve or conclude it.
 */
module FatWrite {
  import opened Common
  import opened Bytes
  import opened FatLayout
  import opened FatChains
  import opened FatDirectory
  import opened FatState

  /** The byte of its chain that a handle's cursor is really at: the cached cluster decides, not the position. */
  ghost function Cursor(g: Geometry, chain: seq<nat>, h: Handle): nat
    requires g.Valid() && h.current in chain
  {
    g.Span(IndexOf(chain, h.current)) + ClusterOffset(g, h.position)
  }

  /** A call of write: the state it starts from, the handle it writes through and the bytes to write. */
  datatype WriteJob = WriteJob(g: Geometry, disk: Disk, chains: Chains, h: Handle, data: seq<byte>) {
    ghost predicate Proper() {
      && g.Valid() && Fits(g, disk) && Owned(FatTable(g, disk), chains) && |data| > 0
      && h.position <= h.size && h.position + |data| < 0x1_0000_0000
      && h.start >= CLUSTER_MIN && HandleOwned(h, chains)
    }

    /** The clusters the file has before the write. */
    ghost function Chain(): seq<nat>
      requires Proper()
    {
      chains[h.start]
    }

    /** Where in the chain the bytes go. */
    ghost function From(): nat
      requires Proper()
    {
      Cursor(g, Chain(), h)
    }

    ghost function Free(): nat
      requires Proper()
    {
      |FreeClusters(FatTable(g, disk))|
    }
  }

  /** `w` bytes are written, the last of them (or none yet) through the cluster with index `i`. */
  ghost predicate WriteProgress(job: WriteJob, disk: Disk, chains: Chains, h: Handle, w: nat, i: nat) {
    && job.Proper() && w <= |job.data|
    && Fits(job.g, disk) && SameDirectory(job.g, job.disk, disk)
    && Mirrored(job.g, disk) && Owned(FatTable(job.g, disk), chains)
    && job.h.start in chains && chains == job.chains[job.h.start := chains[job.h.start]]
    && var chain := chains[job.h.start];
    && job.Chain() <= chain
    && i < |chain|
    && h == job.h.(current := chain[i], position := job.h.position + w, size := Max(job.h.size, job.h.position + w))
    && job.g.Span(i) <= job.From() + w <= job.g.Span(i + 1)
    && ClusterOffset(job.g, h.position) == ClusterOffset(job.g, job.From() + w)
    && Written(job.g, job.disk, disk, chain, job.From(), job.data[..w])
    && |FreeClusters(FatTable(job.g, disk))| + |chain| == job.Free() + |job.Chain()|
    && (|chain| > |job.Chain()| ==> i == |chain| - 1)
  }

  ghost predicate WithinCluster(job: WriteJob, w: nat, i: nat)
    requires job.Proper()
  {
    job.From() + w < job.g.Span(i + 1)
  }

  ghost predicate PastStart(job: WriteJob, w: nat, i: nat)
    requires job.Proper()
  {
    job.g.Span(i) < job.From() + w
  }

  /**
   What `fat16_write` has done when it returns `r`: some bytes have gone over the chain from the cursor on,
   the chain has grown only as far as they need, and all of the data has gone in exactly when the free clusters suffice.
   */
  ghost predicate WriteDone(job: WriteJob, disk: Disk, chains: Chains, h: Handle, r: int) {
    && job.Proper() && Fits(job.g, disk)
    && job.h.start in chains && chains == job.chains[job.h.start := chains[job.h.start]]
    && job.h.position < h.position <= job.h.position + |job.data|
    && var g, chain, q, w := job.g, chains[job.h.start], job.From(), h.position - job.h.position;
    && r == (if w == |job.data| then |job.data| else -1)
    && (w == |job.data| <==> q + |job.data| <= g.Span(|job.Chain()| + job.Free()))
    && job.Chain() <= chain
    && (|chain| > |job.Chain()| ==> g.Span(|chain| - 1) < q + w)
    && |FreeClusters(FatTable(g, disk))| + |chain| == job.Free() + |job.Chain()|
    && Written(g, job.disk, disk, chain, q, job.data[..w])
    && h.current in chain
    && g.Span(IndexOf(chain, h.current)) < q + w <= g.Span(IndexOf(chain, h.current) + 1)
    && h == job.h.(current := h.current, position := h.position, size := Max(job.h.size, h.position),
                   modified := job.h.modified || r >= 0)
  }

  lemma {:induction false} CursorAt(g: Geometry, chain: seq<nat>, h: Handle)
    requires g.Valid() && h.current in chain
    ensures var i := IndexOf(chain, h.current);
            && g.Span(i) <= Cursor(g, chain, h) < g.Span(i + 1) <= Capacity(g, chain)
            && ClusterOffset(g, Cursor(g, chain, h)) == ClusterOffset(g, h.position)
  {
    var i := IndexOf(chain, h.current);
    ClusterIndexIs(g, Cursor(g, chain, h), i);
    SpanMonotone(g, i + 1, |chain|);
  }

  lemma WriteBegins(job: WriteJob)
    requires job.Proper() && Mirrored(job.g, job.disk)
    ensures var i := IndexOf(job.Chain(), job.h.current);
            WriteProgress(job, job.disk, job.chains, job.h, 0, i) && WithinCluster(job, 0, i)
  {
    CursorAt(job.g, job.Chain(), job.h);
    NothingWritten(job.g, job.disk, job.disk, job.Chain(), job.From());
    assert job.data[..0] == [];
  }

  /** A write through an open handle with a first cluster can begin. */
  lemma WriteCanBegin(job: WriteJob, handles: seq<Handle>, index: nat)
    requires ValidState(job.g, job.disk, handles, job.chains) && index < |handles| && handles[index] == job.h
             && job.h.active
    requires job.h.start >= CLUSTER_MIN && |job.data| > 0 && job.h.position + |job.data| < 0x1_0000_0000
    ensures job.Proper()
    ensures var i := IndexOf(job.Chain(), job.h.current);
            WriteProgress(job, job.disk, job.chains, job.h, 0, i) && WithinCluster(job, 0, i)
  {
    assert job.Proper() && Mirrored(job.g, job.disk);
    hide ValidState, Mirrored, Owned, Fits;
    WriteBegins(job);
  }

  /** The sector of cluster `i` the driver computes is the one that holds byte `x`. */
  lemma SectorOfByte(g: Geometry, chain: seq<nat>, i: nat, x: nat)
    requires g.Valid() && InVolume(g, chain) && i < |chain| && g.Span(i) <= x < g.Span(i + 1)
    ensures x < Capacity(g, chain) && x % 512 == ClusterOffset(g, x) % 512
    ensures g.ClusterToLba(chain[i]) + ClusterOffset(g, x) / 512 == FileLba(g, chain, x)
    ensures ClusterOffset(g, x) == x - g.Span(i)
  {
    ByteInSector(g, x);
    ClusterIndexIs(g, x, i);
    SpanMonotone(g, i + 1, |chain|);
    ClusterLba(g, chain[i], ClusterOffset(g, x) / 512);
  }

  lemma WriteLocates(job: WriteJob, disk: Disk, chains: Chains, h: Handle, w: nat, i: nat)
    requires WriteProgress(job, disk, chains, h, w, i) && WithinCluster(job, w, i)
    ensures job.Proper() && h.current >= CLUSTER_MIN && job.h.start in chains
    ensures InVolume(job.g, chains[job.h.start]) && job.From() + w < Capacity(job.g, chains[job.h.start])
    ensures job.g.ClusterToLba(h.current) + ClusterOffset(job.g, h.position) / 512
         == FileLba(job.g, chains[job.h.start], job.From() + w)
    ensures job.g.ClusterToLba(h.current) + ClusterOffset(job.g, h.position) / 512 < |disk|
  {
    hide Geometry.ClusterToLba, Owned, Mirrored, SameDirectory, Written, Fits, FileLba, ClusterOffset;
    var x, chain := job.From() + w, chains[job.h.start];
    WrittenIndex(job.g, job.disk, disk, chain, job.From(), job.data[..w], i);
    SectorOfByte(job.g, chain, i, x);
    FileLbaInRange(job.g, disk, chain, x);
  }

  /** `disk'` is `disk` with the next chunk of data stored where the driver stores it. */
  ghost predicate ChunkStored(job: WriteJob, disk: Disk, disk': Disk, h: Handle, w: nat, chunk: nat) {
    && job.g.Valid() && h.current >= CLUSTER_MIN && w + chunk <= |job.data|
    && var offset := ClusterOffset(job.g, h.position);
       var lba := job.g.ClusterToLba(h.current) + offset / 512;
       0 < chunk <= 512 - offset % 512 && lba < |disk| &&
       disk' == disk[lba := Splice(disk[lba], offset % 512, job.data[w..w + chunk])]
  }

  /** The chunk goes where `ChunkWritten` wants it, and the FATs and the directory stay as they are. */
  lemma ChunkBytes(job: WriteJob, disk: Disk, disk': Disk, chain: seq<nat>, h: Handle, w: nat, i: nat, chunk: nat)
    requires job.Proper() && w + chunk <= |job.data| && Written(job.g, job.disk, disk, chain, job.From(), job.data[..w])
    requires i < |chain| && h.current == chain[i] && h.current >= CLUSTER_MIN
    requires ClusterOffset(job.g, h.position) == ClusterOffset(job.g, job.From() + w)
    requires job.g.Span(i) <= job.From() + w < job.g.Span(i + 1)
    requires ChunkStored(job, disk, disk', h, w, chunk)
    ensures Written(job.g, job.disk, disk', chain, job.From(), job.data[..w + chunk])
    ensures |disk'| == |disk| && forall l :: 0 <= l < job.g.dataStart && l < |disk| ==> disk'[l] == disk[l]
  {
    hide Geometry.ClusterToLba, Owned, Written, FileLba, Fits, ClusterOffset;
    var g, x := job.g, job.From() + w;
    WrittenIndex(g, job.disk, disk, chain, job.From(), job.data[..w], i);
    SectorOfByte(g, chain, i, x);
    ChunkEnd(g, ClusterOffset(g, x), chunk);
    SpanMonotone(g, i + 1, |chain|);
    assert job.data[..w] + job.data[w..w + chunk] == job.data[..w + chunk];
    ChunkWritten(g, job.disk, disk, disk', chain, job.From(), job.data[..w], job.data[w..w + chunk]);
  }

  lemma DataRegionOnly(g: Geometry, disk0: Disk, disk: Disk, disk': Disk)
    requires g.Valid() && Fits(g, disk) && |disk'| == |disk|
    requires forall l :: 0 <= l < g.dataStart && l < |disk| ==> disk'[l] == disk[l]
    ensures Fits(g, disk') && FatTable(g, disk') == FatTable(g, disk)
    ensures Mirrored(g, disk) ==> Mirrored(g, disk')
    ensures SameDirectory(g, disk0, disk) ==> SameDirectory(g, disk0, disk')
  {
    SameFatsKeeps(g, disk, disk');
  }

  lemma WriteChunk(job: WriteJob, disk: Disk, disk': Disk, chains: Chains, h: Handle, w: nat, i: nat, chunk: nat)
    requires WriteProgress(job, disk, chains, h, w, i) && WithinCluster(job, w, i)
    requires ChunkStored(job, disk, disk', h, w, chunk)
    ensures var h' := h.(position := h.position + chunk, size := Max(h.size, h.position + chunk));
            WriteProgress(job, disk', chains, h', w + chunk, i)
    ensures PastStart(job, w + chunk, i)
    ensures var offset := ClusterOffset(job.g, h.position);
            WithinCluster(job, w + chunk, i) <==>
              !(offset / 512 == job.g.sectorsPerCluster - 1 && offset % 512 + chunk == 512)
  {
    hide Geometry.ClusterToLba, Owned, Mirrored, Written, SameDirectory, Fits, ClusterOffset, FreeClusters, FatTable,
         Geometry.Valid;
    var g, x, chain := job.g, job.From() + w, chains[job.h.start];
    ChunkBytes(job, disk, disk', chain, h, w, i, chunk);
    DataRegionOnly(g, job.disk, disk, disk');
    WrittenIndex(g, job.disk, disk, chain, job.From(), job.data[..w], i);
    SectorOfByte(g, chain, i, x);
    ChunkEnd(g, ClusterOffset(g, x), chunk);
    OffsetsAdvance(g, h.position, x, chunk);
  }

  /** What the FAT says at the end of a cluster. */
  lemma WriteLooksUp(job: WriteJob, disk: Disk, chains: Chains, h: Handle, w: nat, i: nat)
    requires WriteProgress(job, disk, chains, h, w, i)
    ensures job.g.Valid() && Fits(job.g, disk) && Mirrored(job.g, disk) && Owned(FatTable(job.g, disk), chains)
    ensures h.start == job.h.start && h.start in chains
    ensures var chain, fat := chains[h.start], FatTable(job.g, disk);
            && i < |chain| && h.current == chain[i] && CLUSTER_MIN <= h.current < job.g.Limit()
            && (fat[h.current] < CLUSTER_MIN || fat[h.current] >= CLUSTER_EOC <==> i == |chain| - 1)
            && (i < |chain| - 1 ==> fat[h.current] == chain[i + 1])
  {
    hide Mirrored, Written, Fits, SameDirectory;
    assert IsChain(FatTable(job.g, disk), chains[h.start]);
    NextCluster(FatTable(job.g, disk), chains[h.start], i);
  }

  /** The next cluster of the chain is there already. */
  lemma WriteFollows(job: WriteJob, disk: Disk, chains: Chains, h: Handle, w: nat, i: nat)
    requires WriteProgress(job, disk, chains, h, w, i) && !WithinCluster(job, w, i)
    requires i + 1 < |chains[job.h.start]|
    ensures WriteProgress(job, disk, chains, h.(current := chains[job.h.start][i + 1]), w, i + 1)
    ensures WithinCluster(job, w, i + 1)
  {
    assert job.g.Span(i + 1 + 1) == job.g.Span(i + 1) + job.g.ClusterSize();
  }

  /** A further cluster has been taken and linked behind the last one. */
  lemma WriteAllocates(job: WriteJob, disk: Disk, chains: Chains, disk': Disk, chains': Chains, h: Handle, w: nat,
                       i: nat, c: nat)
    requires WriteProgress(job, disk, chains, h, w, i) && !WithinCluster(job, w, i)
    requires i + 1 == |chains[job.h.start]|
    requires c in FreeClusters(FatTable(job.g, disk)) && c !in chains[job.h.start]
    requires chains' == chains[job.h.start := chains[job.h.start] + [c]]
    requires Fits(job.g, disk') && Mirrored(job.g, disk') && OnlyFatsChanged(job.g, disk, disk')
    requires Owned(FatTable(job.g, disk'), chains')
    requires FreeClusters(FatTable(job.g, disk')) == FreeClusters(FatTable(job.g, disk)) - {c}
    ensures WriteProgress(job, disk', chains', h.(current := c), w, i + 1)
    ensures WithinCluster(job, w, i + 1)
  {
    hide Owned, Mirrored, Fits, Written;
    assert job.g.Span(i + 1 + 1) == job.g.Span(i + 1) + job.g.ClusterSize();
    WrittenGrows(job.g, job.disk, disk, disk', chains[job.h.start], c, job.From(), job.data[..w]);
  }

  lemma WrittenIndex(g: Geometry, disk: Disk, disk': Disk, chain: seq<nat>, q: nat, data: seq<byte>, i: nat)
    requires Written(g, disk, disk', chain, q, data) && i < |chain|
    ensures IndexOf(chain, chain[i]) == i && InVolume(g, chain)
  {
    IndexOfIs(chain, i);
  }

  /** No cluster is left: the write stops with the chain filled to its end. */
  lemma WriteStops(job: WriteJob, disk: Disk, chains: Chains, h: Handle, w: nat, i: nat)
    requires WriteProgress(job, disk, chains, h, w, i) && PastStart(job, w, i) && !WithinCluster(job, w, i)
    requires 0 < w < |job.data| && i + 1 == |chains[job.h.start]|
    requires FreeClusters(FatTable(job.g, disk)) == {}
    ensures WriteDone(job, disk, chains, h, -1)
  {
    hide Owned, Mirrored, Fits, Written, SameDirectory;
    WrittenIndex(job.g, job.disk, disk, chains[job.h.start], job.From(), job.data[..w], i);
  }

  /** All of the data has been written. */
  lemma WriteFinishes(job: WriteJob, disk: Disk, chains: Chains, h: Handle, i: nat)
    requires WriteProgress(job, disk, chains, h, |job.data|, i) && PastStart(job, |job.data|, i)
    ensures WriteDone(job, disk, chains, h.(modified := true), |job.data|)
  {
    hide Owned, Mirrored, Fits, Written, SameDirectory;
    var chain := chains[job.h.start];
    WrittenIndex(job.g, job.disk, disk, chain, job.From(), job.data[..|job.data|], i);
    SpanMonotone(job.g, |chain|, |job.Chain()| + job.Free());
    SpanMonotone(job.g, i + 1, |chain|);
  }

  /** However it ends, the write leaves a valid state. */
  lemma WriteKeepsValid(job: WriteJob, disk: Disk, chains: Chains, handles: seq<Handle>, index: nat, h: Handle,
                        h': Handle, w: nat, i: nat, r: int)
    requires ValidState(job.g, job.disk, handles, job.chains) && index < |handles| && handles[index] == job.h
             && job.h.active
    requires WriteProgress(job, disk, chains, h, w, i)
    requires h' == h || h' == h.(modified := true)
    requires WriteDone(job, disk, chains, h', r)
    ensures ValidState(job.g, disk, handles[index := h'], chains)
    ensures SameDirectory(job.g, job.disk, disk)
  {
    hide Written, Mirrored, Owned, Fits, SameDirectory, WellFormed, StartsOwned;
    WriteStep(job.g, job.disk, disk, handles, index, h', job.chains, chains);
  }

  // ---- the first cluster, and the whole call ----

  /** An empty file has been given a cluster of its own. */
  ghost predicate FirstTaken(g: Geometry, disk: Disk, chains: Chains, h: Handle, disk': Disk, chains': Chains,
                             h': Handle)
    requires g.Valid() && Fits(g, disk)
  {
    && OnlyFatsChanged(g, disk, disk') && Fits(g, disk')
    && h'.start in FreeClusters(FatTable(g, disk)) && h'.start !in chains
    && FreeClusters(FatTable(g, disk')) == FreeClusters(FatTable(g, disk)) - {h'.start}
    && chains' == chains[h'.start := [h'.start]]
    && h' == h.(start := h'.start, current := h'.start)
  }

  lemma FirstStart(g: Geometry, disk: Disk, chains: Chains, h: Handle, disk': Disk, chains': Chains, h': Handle)
    requires g.Valid() && Fits(g, disk) && FirstTaken(g, disk, chains, h, disk', chains', h')
    ensures h'.active == h.active && h'.start >= CLUSTER_MIN && h'.position == h.position
  {
  }

  lemma SameDirectoryAlways(g: Geometry, disk: Disk)
    ensures SameDirectory(g, disk, disk)
  {
  }

  lemma SameDirectoryTwice(g: Geometry, disk: Disk, disk1: Disk, disk2: Disk)
    requires SameDirectory(g, disk, disk1) && SameDirectory(g, disk1, disk2)
    ensures SameDirectory(g, disk, disk2)
  {
  }

  lemma FirstKeepsValid(g: Geometry, disk: Disk, chains: Chains, handles: seq<Handle>, index: nat, disk': Disk,
                        chains': Chains, c: nat)
    requires ValidState(g, disk, handles, chains) && index < |handles| && handles[index].active
    requires handles[index].start < CLUSTER_MIN
    requires OnlyFatsChanged(g, disk, disk') && Fits(g, disk') && Mirrored(g, disk')
             && Owned(FatTable(g, disk'), chains')
    requires c in FreeClusters(FatTable(g, disk)) && c !in chains && chains' == chains[c := [c]]
    ensures ValidState(g, disk', handles[index := handles[index].(start := c, current := c)], chains')
    ensures SameDirectory(g, disk, disk')
  {
    hide Owned, Mirrored, WellFormed, Fits, StartsOwned, FatTable, RootDirectory;
    WriteStep(g, disk, disk', handles, index, handles[index].(start := c, current := c), chains, chains');
  }

  ghost function ChainOf(h: Handle, chains: Chains): seq<nat>
    requires HandleOwned(h, chains)
  {
    if h.start >= CLUSTER_MIN then chains[h.start] else []
  }

  /** Where in its chain a write through the handle begins. */
  ghost function WriteFrom(g: Geometry, h: Handle, chains: Chains): nat
    requires g.Valid() && HandleOwned(h, chains)
  {
    if h.start >= CLUSTER_MIN then Cursor(g, chains[h.start], h) else 0
  }

  ghost predicate Unchanged(disk: Disk, chains: Chains, h: Handle, disk': Disk, chains': Chains, h': Handle) {
    disk' == disk && chains' == chains && h' == h
  }

  /**
   The whole effect of one write of `data` through handle `h`, which becomes `h'`: `r` is the length of the data
   exactly when the free clusters suffice; the bytes that went in lie over the chain from the cursor on; the chain
   only grew at its end, by clusters that were free, and no further than they need; and every other chain and
   cluster is as before.
   */
  ghost predicate WriteOutcome(g: Geometry, disk: Disk, chains: Chains, h: Handle, data: seq<byte>, disk': Disk,
                               chains': Chains, h': Handle, r: int)
    requires g.Valid() && Fits(g, disk) && HandleOwned(h, chains)
  {
    var chain, q, free := ChainOf(h, chains), WriteFrom(g, h, chains), |FreeClusters(FatTable(g, disk))|;
    && r == (if q + |data| <= g.Span(|chain| + free) then |data| else -1)
    && if h'.start < CLUSTER_MIN then r == -1 && Unchanged(disk, chains, h, disk', chains', h') else
         && (if h.start >= CLUSTER_MIN then h'.start == h.start else h'.start !in chains)
         && h'.start in chains' && chains' == chains[h'.start := chains'[h'.start]]
         && chain <= chains'[h'.start]
         && h.position < h'.position <= h.position + |data|
         && var chain', w := chains'[h'.start], h'.position - h.position;
         && (r >= 0 <==> w == |data|)
         && (|chain'| > |chain| ==> g.Span(|chain'| - 1) < q + w)
         && Fits(g, disk') && |FreeClusters(FatTable(g, disk'))| + |chain'| == free + |chain|
         && Written(g, disk, disk', chain', q, data[..w])
         && h'.current in chain'
         && g.Span(IndexOf(chain', h'.current)) < q + w <= g.Span(IndexOf(chain', h'.current) + 1)
         && h' == h.(start := h'.start, current := h'.current, position := h'.position,
                     size := Max(h.size, h'.position), modified := h.modified || r >= 0)
  }

  lemma CursorOfFirst(g: Geometry, h: Handle)
    requires g.Valid() && h.position == 0
    ensures Cursor(g, [h.current], h) == 0
  {
    ClusterIndexIs(g, 0, 0);
    assert IndexOf([h.current], h.current) == 0;
  }

  lemma OutcomeOfFirst(g: Geometry, disk: Disk, chains: Chains, h: Handle, data: seq<byte>, disk1: Disk,
                       chains1: Chains, h1: Handle, disk2: Disk, chains2: Chains, h2: Handle, r: int)
    requires g.Valid() && Fits(g, disk) && h.start < CLUSTER_MIN && h.position == 0
    requires FirstTaken(g, disk, chains, h, disk1, chains1, h1)
    requires WriteDone(WriteJob(g, disk1, chains1, h1, data), disk2, chains2, h2, r)
    ensures WriteOutcome(g, disk, chains, h, data, disk2, chains2, h2, r)
  {
    hide Fits, Owned, Written, Cursor, FreeClusters;
    var w := h2.position - h1.position;
    CursorOfFirst(g, h1);
    assert |FreeClusters(FatTable(g, disk))| == |FreeClusters(FatTable(g, disk1))| + 1;
    FatsOnlyBefore(g, disk, disk1, disk2, chains2[h2.start], 0, data[..w]);
  }

  lemma OutcomeOfLater(g: Geometry, disk: Disk, chains: Chains, h: Handle, data: seq<byte>, disk2: Disk,
                       chains2: Chains, h2: Handle, r: int)
    requires g.Valid() && Fits(g, disk) && h.start >= CLUSTER_MIN
    requires WriteDone(WriteJob(g, disk, chains, h, data), disk2, chains2, h2, r)
    ensures WriteOutcome(g, disk, chains, h, data, disk2, chains2, h2, r)
  {
    hide Fits, Owned, Written, Cursor, FreeClusters;
  }

  lemma OutcomeOfNone(g: Geometry, disk: Disk, chains: Chains, h: Handle, data: seq<byte>)
    requires g.Valid() && Fits(g, disk) && h.start < CLUSTER_MIN && |data| > 0
    requires FreeClusters(FatTable(g, disk)) == {}
    ensures WriteOutcome(g, disk, chains, h, data, disk, chains, h, -1)
  {
    hide Fits, Owned, Written, Cursor, FreeClusters;
  }
}
