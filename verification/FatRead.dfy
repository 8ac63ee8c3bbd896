/** What one call of the driver's read does, step by step, on values. */
module FatRead {
  import opened Common
  import opened Bytes
  import opened FatLayout
  import opened FatChains
  import opened FatDirectory
  import opened FatState
  import opened FatWrite

  /** A call of read through a handle whose cluster lies on `chain`. */
  datatype ReadJob = ReadJob(g: Geometry, disk: Disk, chain: seq<nat>, h: Handle) {
    ghost predicate Proper() {
      && g.Valid() && Fits(g, disk) && IsChain(FatTable(g, disk), chain) && h.current in chain
    }

    ghost function From(): nat
      requires Proper()
    {
      Cursor(g, chain, h)
    }
  }

  /** The bytes of the chain from `q` on. */
  ghost predicate Delivered(g: Geometry, disk: Disk, chain: seq<nat>, q: nat, bytes: seq<byte>) {
    && g.Valid() && Fits(g, disk) && InVolume(g, chain) && q + |bytes| <= Capacity(g, chain)
    && forall k :: 0 <= k < |bytes| ==> bytes[k] == ByteAt(g, disk, chain, q + k)
  }

  /** `w` bytes are read; the cursor is in or at the end of the cluster with index `i`. */
  ghost predicate ReadProgress(job: ReadJob, h: Handle, w: nat, i: nat) {
    && job.Proper() && i < |job.chain|
    && h == job.h.(current := job.chain[i], position := job.h.position + w)
    && job.g.Span(i) <= job.From() + w <= job.g.Span(i + 1)
    && ClusterOffset(job.g, h.position) == ClusterOffset(job.g, job.From() + w)
  }

  ghost predicate ReadWithin(job: ReadJob, w: nat, i: nat)
    requires job.Proper()
  {
    job.From() + w < job.g.Span(i + 1)
  }

  /** How many bytes there are to deliver: no more than wanted, than the file has left, than its clusters hold. */
  ghost function ReadLength(job: ReadJob, count: nat): nat
    requires job.Proper() && job.h.position <= job.h.size && job.From() <= Capacity(job.g, job.chain)
  {
    Min(count, Min(job.h.size - job.h.position, Capacity(job.g, job.chain) - job.From()))
  }

  /** What `fat16_read` has done: it has delivered the next bytes of the chain and moved the cursor past them. */
  ghost predicate ReadDone(job: ReadJob, count: nat, h: Handle, bytes: seq<byte>) {
    && job.Proper() && job.h.position <= job.h.size && job.From() <= Capacity(job.g, job.chain)
    && |bytes| == ReadLength(job, count)
    && Delivered(job.g, job.disk, job.chain, job.From(), bytes)
    && h == job.h.(current := h.current, position := job.h.position + |bytes|)
    && h.current in job.chain
    && var x := job.From() + |bytes|;
       IndexOf(job.chain, h.current) ==
         if bytes == [] then IndexOf(job.chain, job.h.current)
         else if h.position < h.size && x < Capacity(job.g, job.chain) then ClusterIndex(job.g, x)
         else ClusterIndex(job.g, x - 1)
  }

  lemma ReadBegins(job: ReadJob) returns (i: nat)
    requires job.Proper()
    ensures InVolume(job.g, job.chain)
    ensures i < |job.chain| && job.chain[i] == job.h.current
    ensures ReadProgress(job, job.h, 0, i) && ReadWithin(job, 0, i)
    ensures job.From() < Capacity(job.g, job.chain)
    ensures Delivered(job.g, job.disk, job.chain, job.From(), [])
  {
    hide Fits;
    CursorAt(job.g, job.chain, job.h);
    i := IndexOf(job.chain, job.h.current);
  }

  /** The sector the loop body reads is the one that holds the next byte. */
  lemma ReadLocates(job: ReadJob, h: Handle, w: nat, i: nat)
    requires ReadProgress(job, h, w, i) && ReadWithin(job, w, i)
    ensures job.g.Valid() && h.current >= CLUSTER_MIN && InVolume(job.g, job.chain)
            && job.From() + w < Capacity(job.g, job.chain)
    ensures job.g.ClusterToLba(h.current) + ClusterOffset(job.g, h.position) / 512
         == FileLba(job.g, job.chain, job.From() + w) < |job.disk|
    ensures (job.From() + w) % 512 == ClusterOffset(job.g, h.position) % 512
  {
    hide Geometry.ClusterToLba, Fits, FileLba, ClusterOffset, IsChain;
    var _ := ReadBegins(job);
    SectorOfByte(job.g, job.chain, i, job.From() + w);
    FileLbaInRange(job.g, job.disk, job.chain, job.From() + w);
  }

  /** Passing over a chunk of the current sector. */
  lemma {:induction false} ReadChunk(job: ReadJob, h: Handle, w: nat, i: nat, chunk: nat)
    requires ReadProgress(job, h, w, i) && ReadWithin(job, w, i)
    requires 0 < chunk <= 512 - ClusterOffset(job.g, h.position) % 512
    ensures ReadProgress(job, h.(position := h.position + chunk), w + chunk, i)
    ensures job.g.Span(i) < job.From() + w + chunk <= Capacity(job.g, job.chain)
    ensures var offset := ClusterOffset(job.g, h.position);
            ReadWithin(job, w + chunk, i) <==>
              !(offset / 512 == job.g.sectorsPerCluster - 1 && offset % 512 + chunk == 512)
  {
    hide Fits, FileLba, ClusterOffset, IsChain, Cursor, InVolume;
    var _ := ReadBegins(job);
    SectorOfByte(job.g, job.chain, i, job.From() + w);
    hide Geometry.Valid;
    ChunkEnd(job.g, ClusterOffset(job.g, h.position), chunk);
    SpanMonotone(job.g, i + 1, |job.chain|);
    OffsetsAdvance(job.g, h.position, job.From() + w, chunk);
  }

  lemma WithinSector(x: nat, k: nat)
    requires x % 512 + k < 512
    ensures (x + k) / 512 == x / 512 && (x + k) % 512 == x % 512 + k
  {
  }

  /** A piece of the sector that holds byte `x` is a piece of the file. */
  lemma SectorPiece(g: Geometry, disk: Disk, chain: seq<nat>, x: nat, chunk: nat, k: nat)
    requires g.Valid() && Fits(g, disk) && InVolume(g, chain) && x + chunk <= Capacity(g, chain)
    requires k < chunk && x % 512 + chunk <= 512
    ensures FileLba(g, chain, x) < |disk|
    ensures ByteAt(g, disk, chain, x + k) == disk[FileLba(g, chain, x)][x % 512 + k]
  {
    hide Fits, ClusterIndex, SectorInCluster, ClusterOffset, Capacity;
    WithinSector(x, k);
    SameCluster(g, x, x + k);
    ByteInSector(g, x);
    ByteInSector(g, x + k);
    FileLbaInRange(g, disk, chain, x);
  }

  lemma PieceDelivered(g: Geometry, disk: Disk, chain: seq<nat>, q: nat, bytes: seq<byte>, piece: seq<byte>)
    requires Delivered(g, disk, chain, q, bytes) && q + |bytes| + |piece| <= Capacity(g, chain)
    requires var x := q + |bytes|;
             x < Capacity(g, chain) && x % 512 + |piece| <= 512 && FileLba(g, chain, x) < |disk| &&
             piece == disk[FileLba(g, chain, x)][x % 512..x % 512 + |piece|]
    ensures Delivered(g, disk, chain, q, bytes + piece)
  {
    var x := q + |bytes|;
    forall k: nat | k < |piece|
      ensures piece[k] == ByteAt(g, disk, chain, x + k)
    {
      SectorPiece(g, disk, chain, x, |piece|, k);
    }
    forall k | 0 <= k < |bytes + piece|
      ensures (bytes + piece)[k] == ByteAt(g, disk, chain, q + k)
    {
      if k >= |bytes| {
        assert (bytes + piece)[k] == piece[k - |bytes|];
      }
    }
  }

  /** Where the FAT leads from the current cluster. */
  lemma ReadLooksUp(job: ReadJob, h: Handle, w: nat, i: nat)
    requires ReadProgress(job, h, w, i)
    ensures job.g.Valid() && Fits(job.g, job.disk) && i < |job.chain|
    ensures var fat := FatTable(job.g, job.disk);
            && CLUSTER_MIN <= h.current < job.g.Limit()
            && (fat[h.current] < CLUSTER_MIN || fat[h.current] >= CLUSTER_EOC <==> i == |job.chain| - 1)
            && (i < |job.chain| - 1 ==> fat[h.current] == job.chain[i + 1])
  {
    NextCluster(FatTable(job.g, job.disk), job.chain, i);
  }

  lemma ReadFollows(job: ReadJob, h: Handle, w: nat, i: nat)
    requires ReadProgress(job, h, w, i) && !ReadWithin(job, w, i) && i + 1 < |job.chain|
    ensures ReadProgress(job, h.(current := job.chain[i + 1]), w, i + 1) && ReadWithin(job, w, i + 1)
    ensures job.g.Span(i + 1) == job.From() + w
  {
    assert job.g.Span(i + 1 + 1) == job.g.Span(i + 1) + job.g.ClusterSize();
  }

  /** How the loop may have ended: everything wanted is there, or the chain has no further cluster. */
  ghost predicate ReadEnd(job: ReadJob, count: nat, h: Handle, w: nat, i: nat)
    requires job.Proper()
  {
    var x := job.From() + w;
    && 0 < w <= count && h.position <= h.size
    && (w == count || h.position == h.size || x == Capacity(job.g, job.chain))
    && (x == job.g.Span(i) ==> h.position < h.size)
    && (x == job.g.Span(i + 1) ==> h.position == h.size || i == |job.chain| - 1)
  }

  /** The loop has run out of clusters. */
  lemma {:induction false} ReadEndsWithChain(job: ReadJob, count: nat, h: Handle, w: nat, i: nat)
    requires ReadProgress(job, h, w, i) && !ReadWithin(job, w, i) && i == |job.chain| - 1
    requires 0 < w <= count && h.position <= h.size && job.g.Span(i) < job.From() + w
    ensures ReadEnd(job, count, h, w, i)
  {
  }

  /** The loop has delivered all that was wanted or all there is. */
  lemma {:induction false} ReadEndsWithCount(job: ReadJob, count: nat, h: Handle, w: nat, i: nat)
    requires ReadProgress(job, h, w, i)
    requires 0 < w <= count && h.position <= h.size && (w == count || h.position == h.size)
    requires if job.g.Span(i) == job.From() + w then h.position < h.size
               else ReadWithin(job, w, i) || h.position == h.size
    ensures ReadEnd(job, count, h, w, i)
  {
    hide Geometry.Valid, Fits, IsChain, Cursor, ClusterOffset;
    assert job.g.Span(i + 1) == job.g.Span(i) + job.g.ClusterSize();
    assert job.g.ClusterSize() > 0 by { ClusterSizePositive(job); }
  }

  lemma ClusterSizePositive(job: ReadJob)
    requires job.Proper()
    ensures job.g.ClusterSize() > 0
  {
  }

  /** Which cluster the cursor is in when the loop has ended. */
  lemma ReadIndex(g: Geometry, chain: seq<nat>, x: nat, i: nat, more: bool)
    requires g.Valid() && i < |chain| && g.Span(i) <= x <= g.Span(i + 1) && x > 0
    requires x == g.Span(i) ==> more
    requires x == g.Span(i + 1) ==> !more || i == |chain| - 1
    ensures i == if more && x < Capacity(g, chain) then ClusterIndex(g, x) else ClusterIndex(g, x - 1)
  {
    SpanMonotone(g, i + 1, |chain|);
    if x == g.Span(i + 1) {
      ClusterIndexIs(g, x - 1, i);
      if i + 1 < |chain| {
        SpanMonotone(g, i + 1 + 1, |chain|);
      }
    } else {
      ClusterIndexIs(g, x, i);
      if x > g.Span(i) {
        ClusterIndexIs(g, x - 1, i);
      }
    }
  }

  lemma ChainIndex(job: ReadJob, i: nat)
    requires job.Proper() && i < |job.chain|
    ensures IndexOf(job.chain, job.chain[i]) == i
  {
    IndexOfIs(job.chain, i);
  }

  lemma ReadFinishes(job: ReadJob, count: nat, h: Handle, bytes: seq<byte>, i: nat)
    requires ReadProgress(job, h, |bytes|, i) && ReadEnd(job, count, h, |bytes|, i)
    requires Delivered(job.g, job.disk, job.chain, job.From(), bytes)
    ensures ReadDone(job, count, h, bytes)
  {
    hide Delivered, Fits, IsChain, ClusterOffset, Cursor, Geometry.Valid, ClusterIndex;
    ChainIndex(job, i);
    var _ := ReadBegins(job);
    ReadIndex(job.g, job.chain, job.From() + |bytes|, i, h.position < h.size);
    SpanMonotone(job.g, i + 1, |job.chain|);
  }

  // ---- the whole call ----

  /** The whole effect of reading up to `count` bytes through handle `h`, which becomes `h'`. */
  ghost predicate ReadOutcome(g: Geometry, disk: Disk, chains: Chains, h: Handle, count: nat, h': Handle,
                              bytes: seq<byte>) {
    if h.start < CLUSTER_MIN then bytes == [] && h' == h
    else h.start in chains && ReadDone(ReadJob(g, disk, chains[h.start], h), count, h', bytes)
  }

  lemma ReadNothing(g: Geometry, disk: Disk, chains: Chains, h: Handle, count: nat)
    requires g.Valid() && Fits(g, disk) && Owned(FatTable(g, disk), chains) && HandleOwned(h, chains)
    requires h.position == h.size
    ensures ReadOutcome(g, disk, chains, h, count, h, [])
  {
    if h.start >= CLUSTER_MIN {
      var _ := ReadBegins(ReadJob(g, disk, chains[h.start], h));
    }
  }

  lemma ReadThroughChain(g: Geometry, disk: Disk, chains: Chains, h: Handle, handles: seq<Handle>, index: nat)
    returns (job: ReadJob)
    requires ValidState(g, disk, handles, chains) && index < |handles| && handles[index] == h && h.active
             && h.position < h.size
    ensures h.start >= CLUSTER_MIN && h.start in chains
    ensures job == ReadJob(g, disk, chains[h.start], h) && job.Proper()
  {
    job := ReadJob(g, disk, chains[h.start], h);
  }

  lemma ReadConcludes(job: ReadJob, chains: Chains, count: nat, want: nat, handles: seq<Handle>, index: nat, h: Handle,
                      bytes: seq<byte>)
    requires ValidState(job.g, job.disk, handles, chains) && index < |handles| && handles[index] == job.h
             && job.h.active
    requires job.h.start >= CLUSTER_MIN && job.h.start in chains && job.chain == chains[job.h.start]
    requires job.h.position < job.h.size && want == Min(count, job.h.size - job.h.position)
    requires ReadDone(job, want, h, bytes)
    ensures ReadOutcome(job.g, job.disk, chains, job.h, count, h, bytes)
    ensures ValidState(job.g, job.disk, handles[index := h], chains)
  {
    hide Mirrored, Fits, WellFormed, Delivered, Cursor, ClusterIndex;
    SameDirectoryAlways(job.g, job.disk);
    WriteStep(job.g, job.disk, job.disk, handles, index, h, chains, chains);
  }
}
