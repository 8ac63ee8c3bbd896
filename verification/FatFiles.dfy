/** What writes and reads mean for the contents of files. */
module FatFiles {
  import opened Common
  import opened Bytes
  import opened FatLayout
  import opened FatChains
  import opened FatState
  import opened FatWrite
  import opened FatRead

  /** The bytes of the file that an open handle shows. */
  ghost function FileBytes(g: Geometry, disk: Disk, chains: Chains, h: Handle): seq<byte>
    requires g.Valid() && Fits(g, disk) && SizeOk(g, disk, chains, h)
  {
    Content(g, disk, ChainOf(h, chains), h.size)
  }

  /** The handle's clusters hold its whole size. */
  ghost predicate SizeOk(g: Geometry, disk: Disk, chains: Chains, h: Handle)
    requires g.Valid() && Fits(g, disk)
  {
    && HandleOwned(h, chains) && h.position <= h.size
    && (h.start >= CLUSTER_MIN ==> IsChain(FatTable(g, disk), chains[h.start]))
    && h.size <= Capacity(g, ChainOf(h, chains))
  }

  /** The cached cluster is the one the position lies in, or the file has none and the position is 0. */
  ghost predicate CursorOk(g: Geometry, chains: Chains, h: Handle)
    requires g.Valid() && HandleOwned(h, chains)
  {
    WriteFrom(g, h, chains) == h.position
  }

  /** That is what the driver means by it: the cached cluster is the chain's element at position / cluster size. */
  lemma CursorOkMeans(g: Geometry, chains: Chains, h: Handle)
    requires g.Valid() && HandleOwned(h, chains) && h.start >= CLUSTER_MIN && Distinct(chains[h.start])
    ensures g.ClusterSize() > 0
    ensures CursorOk(g, chains, h) <==>
              h.position / g.ClusterSize() < |chains[h.start]|
              && h.current == chains[h.start][h.position / g.ClusterSize()]
  {
    var chain := chains[h.start];
    var i := IndexOf(chain, h.current);
    var j := ClusterIndex(g, h.position);
    PositionSplit(g, h.position);
    if CursorOk(g, chains, h) {
      CursorAt(g, chain, h);
      ClusterIndexIs(g, h.position, i);
    } else if j < |chain| && h.current == chain[j] {
      IndexOfIs(chain, j);
    }
  }

  /** The bytes with `data` laid over them from position `p` on, longer if the data reaches further. */
  ghost function Spliced(bytes: seq<byte>, p: nat, data: seq<byte>): seq<byte>
    requires p <= |bytes|
  {
    bytes[..p] + data + bytes[Min(p + |data|, |bytes|)..]
  }

  /** The bytes of a grown chain after a write, against the bytes before. */
  lemma WrittenBytes(g: Geometry, disk: Disk, disk': Disk, chain: seq<nat>, chain': seq<nat>, size: nat, q: nat,
                     data: seq<byte>)
    requires Written(g, disk, disk', chain', q, data) && Fits(g, disk') && chain <= chain' && InVolume(g, chain)
    requires q <= size <= Capacity(g, chain)
    ensures Max(size, q + |data|) <= Capacity(g, chain')
    ensures Content(g, disk', chain', Max(size, q + |data|)) == Spliced(Content(g, disk, chain, size), q, data)
  {
    SpanMonotone(g, |chain|, |chain'|);
    var before, after := Content(g, disk, chain, size), Content(g, disk', chain', Max(size, q + |data|));
    forall p: nat | p < |after|
      ensures after[p] == Spliced(before, q, data)[p]
    {
      if !(q <= p < q + |data|) {
        PrefixByte(g, disk, chain, chain', p);
      }
    }
  }

  /** A write that succeeds from a cursor in order replaces or extends the file's bytes at the position. */
  lemma WriteSplices(g: Geometry, disk: Disk, chains: Chains, h: Handle, data: seq<byte>, disk': Disk, chains': Chains,
                     h': Handle, r: int)
    requires g.Valid() && Fits(g, disk) && Fits(g, disk') && SizeOk(g, disk, chains, h) && CursorOk(g, chains, h)
             && |data| > 0
    requires WriteOutcome(g, disk, chains, h, data, disk', chains', h', r) && r >= 0
    requires HandleOwned(h', chains') && IsChain(FatTable(g, disk'), chains'[h'.start])
    ensures SizeOk(g, disk', chains', h') && h'.position == h.position + |data|
    ensures FileBytes(g, disk', chains', h') == Spliced(FileBytes(g, disk, chains, h), h.position, data)
  {
    var chain, chain' := ChainOf(h, chains), chains'[h'.start];
    assert InVolume(g, chain);
    hide Fits, Written, FreeClusters, IsChain, Cursor, Spliced, Content;
    assert data[..|data|] == data;
    WrittenBytes(g, disk, disk', chain, chain', h.size, h.position, data);
  }

  lemma PrefixByte(g: Geometry, disk: Disk, chain: seq<nat>, chain': seq<nat>, p: nat)
    requires g.Valid() && Fits(g, disk) && InVolume(g, chain') && chain <= chain' && p < Capacity(g, chain)
    ensures InVolume(g, chain) && p < Capacity(g, chain')
    ensures ByteAt(g, disk, chain', p) == ByteAt(g, disk, chain, p)
  {
    assert forall i :: 0 <= i < |chain| ==> chain[i] == chain'[i];
    SpanMonotone(g, |chain|, |chain'|);
    ClusterIndexInRange(g, chain, p);
  }

  /**
   After a write from a cursor in order the cursor is in order again exactly when the write
   did not end on a cluster boundary; otherwise it lags one cluster behind.
   */
  lemma CursorAfterWrite(g: Geometry, disk: Disk, chains: Chains, h: Handle, data: seq<byte>, disk': Disk,
                         chains': Chains, h': Handle, r: int)
    requires g.Valid() && Fits(g, disk) && HandleOwned(h, chains) && CursorOk(g, chains, h) && |data| > 0
    requires WriteOutcome(g, disk, chains, h, data, disk', chains', h', r) && r >= 0
    ensures HandleOwned(h', chains') && g.ClusterSize() > 0
    ensures CursorOk(g, chains', h') <==> h'.position % g.ClusterSize() != 0
    ensures h'.position % g.ClusterSize() == 0 ==> WriteFrom(g, h', chains') + g.ClusterSize() == h'.position
  {
    hide Fits, Written, FreeClusters;
    var i := IndexOf(chains'[h'.start], h'.current);
    PositionSplit(g, h'.position);
    if h'.position < g.Span(i + 1) {
      ClusterIndexIs(g, h'.position, i);
    } else {
      assert g.Span(i + 1 + 1) == g.Span(i + 1) + g.ClusterSize();
      ClusterIndexIs(g, h'.position, i + 1);
    }
  }

  /**
   The write after one that ended on a cluster boundary starts a whole cluster too early: it overwrites
   the bytes before the position instead of extending the file.
   */
  lemma LaggingWriteOverwrites(g: Geometry, disk: Disk, chains: Chains, h: Handle, data: seq<byte>, disk': Disk,
                               chains': Chains, h': Handle, r: int)
    requires g.Valid() && Fits(g, disk) && HandleOwned(h, chains) && h.start >= CLUSTER_MIN && |data| > 0
    requires g.ClusterSize() <= h.position && WriteFrom(g, h, chains) + g.ClusterSize() == h.position
    requires WriteOutcome(g, disk, chains, h, data, disk', chains', h', r) && r >= 0
    ensures Fits(g, disk') && InVolume(g, chains'[h.start])
            && h.position - g.ClusterSize() + |data| <= Capacity(g, chains'[h.start])
    ensures forall k :: 0 <= k < |data| ==>
              ByteAt(g, disk', chains'[h.start], h.position - g.ClusterSize() + k) == data[k]
  {
    hide Fits, FreeClusters, IsChain, Cursor;
    assert data[..|data|] == data;
  }

  lemma WrittenIsolates(g: Geometry, disk: Disk, disk': Disk, chain: seq<nat>, q: nat, data: seq<byte>, other: seq<nat>)
    requires Written(g, disk, disk', chain, q, data) && Disjoint(chain, other) && InVolume(g, other)
    ensures forall p :: 0 <= p < Capacity(g, other) ==> ByteAt(g, disk', other, p) == ByteAt(g, disk, other, p)
  {
    WriteIsolation(g, disk, disk', chain, other);
  }

  // ---- reading ----

  /** The cursor is in order, or there is nothing left to read. */
  ghost predicate ReadReady(g: Geometry, disk: Disk, chains: Chains, h: Handle)
    requires g.Valid() && Fits(g, disk)
  {
    SizeOk(g, disk, chains, h) && (h.position < h.size ==> CursorOk(g, chains, h))
  }

  lemma DeliveredSlice(g: Geometry, disk: Disk, chain: seq<nat>, size: nat, p: nat, bytes: seq<byte>)
    requires Delivered(g, disk, chain, p, bytes) && p + |bytes| <= size <= Capacity(g, chain)
    ensures bytes == Content(g, disk, chain, size)[p..p + |bytes|]
  {
    hide Fits, Capacity;
  }

  /** A read through a file with clusters, from a cursor in order. */
  lemma SliceRead(g: Geometry, disk: Disk, chains: Chains, h: Handle, count: nat, h': Handle, bytes: seq<byte>)
    requires g.Valid() && Fits(g, disk) && SizeOk(g, disk, chains, h) && CursorOk(g, chains, h) && count > 0
    requires ReadOutcome(g, disk, chains, h, count, h', bytes) && h.start >= CLUSTER_MIN && h.position < h.size
    ensures h'.start == h.start && h'.size == h.size && h'.position == Min(h.position + count, h.size)
    ensures HandleOwned(h', chains) && (h'.position < h'.size ==> Cursor(g, chains[h.start], h') == h'.position)
    ensures bytes == Content(g, disk, chains[h.start], h.size)[h.position..h'.position]
  {
    hide Fits, Geometry.Valid, Owned, IsChain, Capacity, Content;
    var chain := chains[h.start];
    assert |bytes| == Min(count, h.size - h.position) && bytes != [];
    DeliveredSlice(g, disk, chain, h.size, h.position, bytes);
    hide Delivered;
    if h'.position < h'.size {
      ReadCursor(g, disk, chain, h, count, h', bytes);
    }
  }

  /** A read delivers the next slice of the file's bytes and is ready for the one after. */
  lemma ReadSlices(g: Geometry, disk: Disk, chains: Chains, h: Handle, count: nat, h': Handle, bytes: seq<byte>)
    requires g.Valid() && Fits(g, disk) && ReadReady(g, disk, chains, h) && count > 0
    requires ReadOutcome(g, disk, chains, h, count, h', bytes)
    ensures ReadReady(g, disk, chains, h') && h'.start == h.start && h'.size == h.size
    ensures h'.position == Min(h.position + count, h.size)
    ensures FileBytes(g, disk, chains, h') == FileBytes(g, disk, chains, h)
    ensures bytes == FileBytes(g, disk, chains, h)[h.position..h'.position]
  {
    hide Fits, Geometry.Valid, Owned, IsChain, Content, Delivered;
    if h.start >= CLUSTER_MIN && h.position < h.size {
      hide ReadOutcome, Cursor;
      SliceRead(g, disk, chains, h, count, h', bytes);
    }
  }

  lemma ReadCursor(g: Geometry, disk: Disk, chain: seq<nat>, h: Handle, count: nat, h': Handle, bytes: seq<byte>)
    requires ReadDone(ReadJob(g, disk, chain, h), count, h', bytes) && bytes != []
    requires Cursor(g, chain, h) == h.position && h'.position < h'.size <= Capacity(g, chain)
    ensures h'.current in chain && Cursor(g, chain, h') == h'.position
  {
    hide Delivered, Fits, IsChain;
  }

  /** A file that has just been opened is ready for reading and writing. */
  lemma OpenedReady(g: Geometry, disk: Disk, handles: seq<Handle>, chains: Chains, index: nat)
    requires ValidState(g, disk, handles, chains) && index < |handles| && handles[index].active
    requires var h := handles[index];
             && h.position == 0 && h.current == h.start
             && (h.start >= CLUSTER_MIN ==> h.size <= Capacity(g, chains[h.start]))
    ensures SizeOk(g, disk, chains, handles[index]) && CursorOk(g, chains, handles[index])
  {
    var h := handles[index];
    if h.start >= CLUSTER_MIN {
      IndexOfIs(chains[h.start], 0);
      ClusterIndexIs(g, 0, 0);
    }
  }

  /** A change of the directory or the FATs alone keeps the bytes of every chain. */
  lemma BytesOutsideDirectory(g: Geometry, disk: Disk, disk': Disk, chain: seq<nat>, size: nat)
    requires g.Valid() && Fits(g, disk) && Fits(g, disk') && SameOutsideDirectory(g, disk, disk')
    requires InVolume(g, chain) && size <= Capacity(g, chain)
    ensures Content(g, disk', chain, size) == Content(g, disk, chain, size)
  {
    DataRegionDecides(g, disk, disk', chain);
  }
}
