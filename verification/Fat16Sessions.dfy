/** Whole sessions with the driver: runs of writes, runs of reads, and storing a file and reading it back. */
module Fat16Sessions {
  import opened Common
  import opened Bytes
  import opened FatLayout
  import opened FatChains
  import opened FatDirectory
  import opened FatState
  import opened FatWrite
  import opened FatRead
  import opened FatFiles
  import opened FatVolume
  import opened Fat16
  import opened ShortNames

  function Concat(pieces: seq<seq<byte>>): seq<byte> {
    if pieces == [] then [] else Concat(pieces[..|pieces| - 1]) + pieces[|pieces| - 1]
  }

  function Sum(counts: seq<nat>): nat {
    if counts == [] then 0 else Sum(counts[..|counts| - 1]) + counts[|counts| - 1]
  }

  lemma {:induction false} ConcatGrows(pieces: seq<seq<byte>>, k: nat, n: nat)
    requires k <= n <= |pieces|
    ensures |Concat(pieces[..k])| <= |Concat(pieces[..n])|
  {
    if k < n {
      assert pieces[..n][..n - 1] == pieces[..n - 1];
      ConcatGrows(pieces, k, n - 1);
    }
  }

  /** The handle with its file's bytes, for a descriptor on an open file in good order. */
  ghost predicate InOrder(fs: FileSystem, index: nat)
    reads fs, fs.files
  {
    && fs.Valid() && fs.g.Valid() && Fits(fs.g, fs.disk) && index < fs.files.Length == MAX_OPEN_FILES
    && fs.files[index].active
    && SizeOk(fs.g, fs.disk, fs.chains, fs.files[index])
  }

  ghost function Shown(fs: FileSystem, index: nat): seq<byte>
    requires InOrder(fs, index)
    reads fs, fs.files
  {
    FileBytes(fs.g, fs.disk, fs.chains, fs.files[index])
  }

  /** Bytes that fit in the file's clusters and the free ones. */
  ghost function Room(fs: FileSystem, index: nat): nat
    requires InOrder(fs, index)
    reads fs, fs.files
  {
    RoomFor(fs.g, fs.disk, fs.chains, fs.files[index])
  }

  ghost function RoomFor(g: Geometry, disk: Disk, chains: Chains, h: Handle): nat
    requires g.Valid() && Fits(g, disk) && HandleOwned(h, chains)
  {
    g.Span(|ChainOf(h, chains)| + |FreeClusters(FatTable(g, disk))|)
  }

  /** The volume that the file system shows. */
  ghost function VolumeOf(fs: FileSystem): map<Name, seq<byte>>
    requires fs.Valid()
    reads fs, fs.files
  {
    Volume(fs.g, fs.disk, fs.chains)
  }

  /** First cluster and size of every file in the directory. */
  ghost function FilesOf(fs: FileSystem): map<Name, (nat, nat)>
    requires fs.Valid()
    reads fs, fs.files
  {
    Files(RootDirectory(fs.g, fs.disk))
  }

  /** One write in order, on values. */
  ghost predicate OneWrite(g: Geometry, disk: Disk, chains: Chains, h: Handle, data: seq<byte>, disk': Disk,
                           chains': Chains, h': Handle) {
    && g.Valid() && Fits(g, disk) && Fits(g, disk') && g.ClusterSize() > 0
    && SizeOk(g, disk, chains, h) && SizeOk(g, disk', chains', h')
    && FileBytes(g, disk', chains', h') == Spliced(FileBytes(g, disk, chains, h), h.position, data)
    && RoomFor(g, disk', chains', h') == RoomFor(g, disk, chains, h)
    && (CursorOk(g, chains', h') <==> h'.position % g.ClusterSize() != 0)
    && h'.start >= CLUSTER_MIN
    && h' == h.(start := h'.start, current := h'.current, position := h.position + |data|,
                size := Max(h.size, h.position + |data|), modified := true)
  }

  lemma WriteSucceeds(g: Geometry, disk: Disk, chains: Chains, h: Handle, data: seq<byte>, disk': Disk, chains': Chains,
                      h': Handle, r: int)
    requires g.Valid() && Fits(g, disk) && Fits(g, disk') && SizeOk(g, disk, chains, h) && CursorOk(g, chains, h)
             && |data| > 0
    requires h.position + |data| <= RoomFor(g, disk, chains, h)
    requires WriteOutcome(g, disk, chains, h, data, disk', chains', h', r)
    requires HandleOwned(h', chains') && Owned(FatTable(g, disk'), chains')
    ensures r == |data| && OneWrite(g, disk, chains, h, data, disk', chains', h')
  {
    hide Fits, Written, FreeClusters, Cursor, Content, Spliced;
    assert IsChain(FatTable(g, disk'), chains'[h'.start]);
    hide IsChain;
    WriteSplices(g, disk, chains, h, data, disk', chains', h', r);
    CursorAfterWrite(g, disk, chains, h, data, disk', chains', h', r);
  }

  lemma OutcomeKeepsOpen(g: Geometry, disk: Disk, chains: Chains, h: Handle, data: seq<byte>, disk': Disk,
                         chains': Chains, h': Handle, r: int)
    requires g.Valid() && Fits(g, disk) && HandleOwned(h, chains)
             && WriteOutcome(g, disk, chains, h, data, disk', chains', h', r)
    ensures h'.active == h.active
  {
  }

  lemma ReadKeepsOpen(g: Geometry, disk: Disk, chains: Chains, h: Handle, count: nat, h': Handle, bytes: seq<byte>)
    requires ReadOutcome(g, disk, chains, h, count, h', bytes)
    ensures h'.active == h.active
  {
  }

  /** One write in order. */
  method WriteOne(fs: FileSystem, fd: int, data: seq<byte>) returns (r: int)
    requires fd >= FD_BASE && InOrder(fs, fd - FD_BASE) && CursorOk(fs.g, fs.chains, fs.files[fd - FD_BASE])
    requires |data| > 0 && fs.files[fd - FD_BASE].position + |data| <= Room(fs, fd - FD_BASE)
    requires fs.files[fd - FD_BASE].position + |data| < 0x1_0000_0000
    modifies fs`disk, fs`chains, fs.files
    ensures InOrder(fs, fd - FD_BASE) && r == |data|
    ensures SameDirectory(fs.g, old(fs.disk), fs.disk)
    ensures fs.files[..] == old(fs.files[..])[fd - FD_BASE := fs.files[fd - FD_BASE]]
    ensures OneWrite(fs.g, old(fs.disk), old(fs.chains), old(fs.files[fd - FD_BASE]), data, fs.disk, fs.chains,
                     fs.files[fd - FD_BASE])
    ensures WriteFrame(fs.g, old(fs.disk), old(fs.files[..]), old(fs.chains), fd - FD_BASE, fs.disk, fs.files[..],
                       fs.chains)
  {
    hide ValidState, WriteOutcome, WriteFrame, SameDirectory, Owned, SizeOk, CursorOk, FreeClusters, FatTable, Fits,
         Geometry.Valid, HandleShape;
    var index := fd - FD_BASE;
    fs.HandleAt(index);
    ghost var h, disk, chains := fs.files[index], fs.disk, fs.chains;
    r := fs.Write(fd, data);
    OutcomeKeepsOpen(fs.g, disk, chains, h, data, fs.disk, fs.chains, fs.files[index], r);
    fs.HandleAt(index);
    WriteSucceeds(fs.g, disk, chains, h, data, fs.disk, fs.chains, fs.files[index], r);
    hide OneWrite;
    OneWriteSizes(fs.g, disk, chains, h, data, fs.disk, fs.chains, fs.files[index]);
  }

  lemma OneWriteSizes(g: Geometry, disk: Disk, chains: Chains, h: Handle, data: seq<byte>, disk': Disk, chains': Chains,
                      h': Handle)
    requires OneWrite(g, disk, chains, h, data, disk', chains', h')
    ensures g.Valid() && Fits(g, disk') && SizeOk(g, disk', chains', h') && h'.active == h.active
  {
  }

  lemma SplicedTwice(bytes: seq<byte>, p: nat, a: seq<byte>, b: seq<byte>)
    requires p <= |bytes|
    ensures Spliced(Spliced(bytes, p, a), p + |a|, b) == Spliced(bytes, p, a + b)
  {
  }

  lemma SplicedNothing(bytes: seq<byte>, p: nat)
    requires p <= |bytes|
    ensures Spliced(bytes, p, []) == bytes
  {
  }

  /** No write of the run but the last ends on a cluster boundary. */
  ghost predicate NoBoundaryInside(g: Geometry, p: nat, pieces: seq<seq<byte>>)
    requires g.ClusterSize() > 0
  {
    forall k :: 0 < k < |pieces| ==> (p + |Concat(pieces[..k])|) % g.ClusterSize() != 0
  }

  lemma ConcatStep(pieces: seq<seq<byte>>, k: nat)
    requires k < |pieces|
    ensures Concat(pieces[..k + 1]) == Concat(pieces[..k]) + pieces[k]
    ensures |Concat(pieces[..k + 1])| <= |Concat(pieces)|
  {
    assert pieces[..k + 1][..k] == pieces[..k];
    ConcatGrows(pieces, k + 1, |pieces|);
    assert pieces[..|pieces|] == pieces;
  }

  /** Any number of writes in order, on values: `data` is all they wrote. */
  ghost predicate WriteRun(g: Geometry, disk: Disk, chains: Chains, h: Handle, data: seq<byte>, disk': Disk,
                           chains': Chains, h': Handle) {
    && g.Valid() && Fits(g, disk) && Fits(g, disk')
    && SizeOk(g, disk, chains, h) && SizeOk(g, disk', chains', h')
    && FileBytes(g, disk', chains', h') == Spliced(FileBytes(g, disk, chains, h), h.position, data)
    && RoomFor(g, disk', chains', h') == RoomFor(g, disk, chains, h)
    && h'.position == h.position + |data| && h'.active == h.active
  }

  lemma WriteRunBegins(g: Geometry, disk: Disk, chains: Chains, h: Handle)
    requires g.Valid() && Fits(g, disk) && SizeOk(g, disk, chains, h)
    ensures WriteRun(g, disk, chains, h, [], disk, chains, h)
  {
    hide Content, Fits;
    SplicedNothing(FileBytes(g, disk, chains, h), h.position);
  }

  lemma WriteRunExtends(g: Geometry, disk: Disk, chains: Chains, h: Handle, data: seq<byte>, disk1: Disk,
                        chains1: Chains, h1: Handle, more: seq<byte>, disk2: Disk, chains2: Chains, h2: Handle)
    requires WriteRun(g, disk, chains, h, data, disk1, chains1, h1)
    requires OneWrite(g, disk1, chains1, h1, more, disk2, chains2, h2)
    ensures WriteRun(g, disk, chains, h, data + more, disk2, chains2, h2)
  {
    hide Content, Fits, Spliced, RoomFor;
    SplicedTwice(FileBytes(g, disk, chains, h), h.position, data, more);
  }

  /** There is room for the pieces behind the position, and none of them ends on a cluster boundary but the last. */
  ghost predicate CanWriteAll(fs: FileSystem, index: int, pieces: seq<seq<byte>>)
    reads fs, fs.files
  {
    && 0 <= index && InOrder(fs, index) && CursorOk(fs.g, fs.chains, fs.files[index])
    && (forall k :: 0 <= k < |pieces| ==> pieces[k] != [])
    && fs.files[index].position + |Concat(pieces)| <= Room(fs, index)
    && fs.files[index].position + |Concat(pieces)| < 0x1_0000_0000
    && fs.g.ClusterSize() > 0 && NoBoundaryInside(fs.g, fs.files[index].position, pieces)
  }

  /** A run of writes writes the concatenation, and leaves every other file and open handle alone. */
  method WriteAll(fs: FileSystem, fd: int, pieces: seq<seq<byte>>)
    requires CanWriteAll(fs, fd - FD_BASE, pieces)
    modifies fs`disk, fs`chains, fs.files
    ensures InOrder(fs, fd - FD_BASE)
    ensures WriteRun(fs.g, old(fs.disk), old(fs.chains), old(fs.files[fd - FD_BASE]), Concat(pieces), fs.disk,
                     fs.chains, fs.files[fd - FD_BASE])
    ensures WriteFrame(fs.g, old(fs.disk), old(fs.files[..]), old(fs.chains), fd - FD_BASE, fs.disk, fs.files[..],
                       fs.chains)
  {
    hide SizeOk, CursorOk, SameDirectory, FileSystem.Valid, ValidState, Fits, Geometry.Valid, WriteRun, OneWrite,
         RoomFor, WriteFrame, HandleShape, FileSystem.IsOpen, Owned, FatTable, WellFormed;
    ghost var index := fd - FD_BASE;
    ghost var g, disk0, chains0, h0, handles0 := fs.g, fs.disk, fs.chains, fs.files[index], fs.files[..];
    fs.StateOf();
    fs.HandleAt(index);
    FrameStarts(g, disk0, handles0, chains0, index);
    WriteRunBegins(g, disk0, chains0, h0);
    RunFacts(g, disk0, chains0, h0, [], disk0, chains0, h0);
    for k := 0 to |pieces|
      invariant InOrder(fs, index)
      invariant k < |pieces| ==> HandleOwned(fs.files[index], fs.chains) && CursorOk(fs.g, fs.chains, fs.files[index])
      invariant WriteRun(g, disk0, chains0, h0, Concat(pieces[..k]), fs.disk, fs.chains, fs.files[index])
      invariant WriteFrame(g, disk0, handles0, chains0, index, fs.disk, fs.files[..], fs.chains)
    {
      ConcatStep(pieces, k);
      ghost var disk1, chains1, h1, handles1 := fs.disk, fs.chains, fs.files[index], fs.files[..];
      RunFacts(g, disk0, chains0, h0, Concat(pieces[..k]), disk1, chains1, h1);
      var _ := WriteOne(fs, fd, pieces[k]);
      FrameExtends(g, disk0, handles0, chains0, index, disk1, handles1, chains1, fs.disk, fs.files[..], fs.chains);
      WriteRunExtends(g, disk0, chains0, h0, Concat(pieces[..k]), disk1, chains1, h1, pieces[k], fs.disk, fs.chains,
                      fs.files[index]);
      StillInOrder(g, disk1, chains1, h1, pieces[k], fs.disk, fs.chains, fs.files[index]);
    }
    assert pieces[..|pieces|] == pieces;
  }

  lemma RunFacts(g: Geometry, disk: Disk, chains: Chains, h: Handle, data: seq<byte>, disk': Disk, chains': Chains,
                 h': Handle)
    requires WriteRun(g, disk, chains, h, data, disk', chains', h')
    ensures g.Valid() && Fits(g, disk) && Fits(g, disk') && SizeOk(g, disk, chains, h) && SizeOk(g, disk', chains', h')
    ensures HandleOwned(h, chains) && HandleOwned(h', chains')
    ensures RoomFor(g, disk', chains', h') == RoomFor(g, disk, chains, h) && h'.position == h.position + |data|
  {
  }

  lemma StillInOrder(g: Geometry, disk: Disk, chains: Chains, h: Handle, data: seq<byte>, disk': Disk, chains': Chains,
                     h': Handle)
    requires OneWrite(g, disk, chains, h, data, disk', chains', h')
    ensures g.Valid() && HandleOwned(h', chains') && g.ClusterSize() > 0 && h'.position == h.position + |data|
    ensures h'.position % g.ClusterSize() != 0 ==> CursorOk(g, chains', h')
  {
  }

  /** One read in order. */
  method ReadOne(fs: FileSystem, fd: int, count: nat) returns (got: seq<byte>)
    requires fd >= FD_BASE && InOrder(fs, fd - FD_BASE) && ReadReady(fs.g, fs.disk, fs.chains, fs.files[fd - FD_BASE])
    requires count > 0
    modifies fs.files
    ensures InOrder(fs, fd - FD_BASE) && ReadReady(fs.g, fs.disk, fs.chains, fs.files[fd - FD_BASE])
    ensures fs.files[..] == old(fs.files[..])[fd - FD_BASE := fs.files[fd - FD_BASE]]
    ensures Shown(fs, fd - FD_BASE) == old(Shown(fs, fd - FD_BASE))
    ensures var h, h' := old(fs.files[fd - FD_BASE]), fs.files[fd - FD_BASE];
            && h'.size == h.size == |Shown(fs, fd - FD_BASE)|
            && h.position <= h'.position == Min(h.position + count, h.size)
            && got == Shown(fs, fd - FD_BASE)[h.position..h'.position]
  {
    hide ValidState, Owned, ReadOutcome, Fits, Geometry.Valid, HandleShape, CursorOk, Content, IsChain, FatTable;
    ghost var index := fd - FD_BASE;
    fs.HandleAt(index);
    ghost var h := fs.files[index];
    var buffer := new byte[count];
    var r := fs.Read(fd, buffer, count);
    got := buffer[..r];
    ReadKeepsOpen(fs.g, fs.disk, fs.chains, h, count, fs.files[index], got);
    fs.HandleAt(index);
    ReadSlices(fs.g, fs.disk, fs.chains, h, count, fs.files[index], got);
  }

  /**
   A run of reads of any positive sizes delivers the file's bytes from the position on, in order, and then nothing.
   */
  method ReadAll(fs: FileSystem, fd: int, counts: seq<nat>) returns (got: seq<byte>)
    requires fd >= FD_BASE && InOrder(fs, fd - FD_BASE) && ReadReady(fs.g, fs.disk, fs.chains, fs.files[fd - FD_BASE])
    requires forall k :: 0 <= k < |counts| ==> counts[k] > 0
    modifies fs.files
    ensures InOrder(fs, fd - FD_BASE) && ReadReady(fs.g, fs.disk, fs.chains, fs.files[fd - FD_BASE])
    ensures fs.files[..] == old(fs.files[..])[fd - FD_BASE := fs.files[fd - FD_BASE]]
    ensures Shown(fs, fd - FD_BASE) == old(Shown(fs, fd - FD_BASE))
    ensures var p, bytes := old(fs.files[fd - FD_BASE].position), Shown(fs, fd - FD_BASE);
            p <= |bytes| && got == bytes[p..Min(p + Sum(counts), |bytes|)]
  {
    hide SizeOk, ReadReady, CursorOk, FileSystem.Valid, Fits, Geometry.Valid, Shown;
    ghost var index := fd - FD_BASE;
    ghost var p, bytes, handles0 := fs.files[index].position, Shown(fs, index), fs.files[..];
    ShownSize(fs, index);
    got := [];
    for k := 0 to |counts|
      invariant InOrder(fs, index) && ReadReady(fs.g, fs.disk, fs.chains, fs.files[index])
      invariant fs.files[..] == handles0[index := fs.files[index]]
      invariant Shown(fs, index) == bytes
      invariant fs.files[index].position == Min(p + Sum(counts[..k]), |bytes|)
      invariant got == bytes[p..fs.files[index].position]
    {
      assert counts[..k + 1][..k] == counts[..k];
      var more := ReadOne(fs, fd, counts[k]);
      got := got + more;
    }
    assert counts[..|counts|] == counts;
  }

  lemma ShownSize(fs: FileSystem, index: nat)
    requires InOrder(fs, index)
    ensures fs.files[index].position <= fs.files[index].size == |Shown(fs, index)|
  {
  }

  // ---- a session that goes wrong ----

  /** A first write to a fresh file that fills one cluster, and a further one, on values. */
  lemma FullClusterThenMore(g: Geometry, disk: Disk, chains: Chains, h: Handle, first: seq<byte>, disk1: Disk,
                            chains1: Chains, h1: Handle, r1: int, second: seq<byte>, disk2: Disk, chains2: Chains,
                            h2: Handle, r2: int)
    requires g.Valid() && Fits(g, disk) && h.start < CLUSTER_MIN && h.position == 0 && h.size == 0
    requires FreeClusters(FatTable(g, disk)) != {} && |first| == g.ClusterSize() && 0 < |second| <= g.ClusterSize()
    requires WriteOutcome(g, disk, chains, h, first, disk1, chains1, h1, r1)
    requires Fits(g, disk1) && HandleOwned(h1, chains1)
             && WriteOutcome(g, disk1, chains1, h1, second, disk2, chains2, h2, r2)
    ensures r1 == |first| && r2 == |second| && h2.start >= CLUSTER_MIN && h2.start in chains2
    ensures Fits(g, disk2) && InVolume(g, chains2[h2.start]) && Capacity(g, chains2[h2.start]) == |first|
    ensures h2.size == |first| + |second|
    ensures forall k :: 0 <= k < |second| ==> ByteAt(g, disk2, chains2[h2.start], k) == second[k]
  {
    hide Fits, Written, FreeClusters, FatTable, InVolume;
    assert g.Span(1) == g.ClusterSize();
    SpanMonotone(g, 1, |FreeClusters(FatTable(g, disk))|);
    assert h1.start >= CLUSTER_MIN && h1.position == |first|;
    var chain1 := chains1[h1.start];
    assert |chain1| == 1;
    CursorAfterWrite(g, disk, chains, h, first, disk1, chains1, h1, r1);
    SpanMonotone(g, 1, 1 + |FreeClusters(FatTable(g, disk1))|);
    LaggingWriteOverwrites(g, disk1, chains1, h1, second, disk2, chains2, h2, r2);
    assert |chains2[h2.start]| == 1;
  }

  /**
   Two writes to a fresh file, the first of one cluster exactly: both report success, and the second has gone over
   the first one's bytes, while the size counts both and is more than the clusters hold.
   */
  method WriteOverBoundary(fs: FileSystem, fd: int, first: seq<byte>, second: seq<byte>) returns (r1: int, r2: int)
    requires fd >= FD_BASE && InOrder(fs, fd - FD_BASE) && 2 * fs.g.ClusterSize() < 0x1_0000_0000
    requires fs.files[fd - FD_BASE].start < CLUSTER_MIN && fs.files[fd - FD_BASE].position == 0
             && fs.files[fd - FD_BASE].size == 0
    requires FreeClusters(FatTable(fs.g, fs.disk)) != {} && |first| == fs.g.ClusterSize()
             && 0 < |second| <= fs.g.ClusterSize()
    modifies fs`disk, fs`chains, fs.files
    ensures r1 == |first| && r2 == |second| && fs.Valid()
    ensures var start, size := fs.files[fd - FD_BASE].start, fs.files[fd - FD_BASE].size;
            && start in fs.chains && InVolume(fs.g, fs.chains[start])
            && size == |first| + |second| > Capacity(fs.g, fs.chains[start]) == |first|
            && forall k :: 0 <= k < |second| ==> ByteAt(fs.g, fs.disk, fs.chains[start], k) == second[k]
  {
    hide ValidState, WriteOutcome, WriteFrame, SameDirectory, Owned, CursorOk, FreeClusters, FatTable, Fits,
         Geometry.Valid, HandleShape, InVolume, HandleOwned;
    var index := fd - FD_BASE;
    fs.HandleAt(index);
    ghost var h, disk, chains := fs.files[index], fs.disk, fs.chains;
    r1 := fs.Write(fd, first);
    OutcomeKeepsOpen(fs.g, disk, chains, h, first, fs.disk, fs.chains, fs.files[index], r1);
    fs.HandleAt(index);
    ghost var h1, disk1, chains1 := fs.files[index], fs.disk, fs.chains;
    OutcomePosition(fs.g, disk, chains, h, first, disk1, chains1, h1, r1);
    r2 := fs.Write(fd, second);
    FullClusterThenMore(fs.g, disk, chains, h, first, disk1, chains1, h1, r1, second, fs.disk, fs.chains,
                        fs.files[index], r2);
  }

  lemma OutcomePosition(g: Geometry, disk: Disk, chains: Chains, h: Handle, data: seq<byte>, disk': Disk,
                        chains': Chains, h': Handle, r: int)
    requires g.Valid() && Fits(g, disk) && HandleOwned(h, chains)
             && WriteOutcome(g, disk, chains, h, data, disk', chains', h', r)
    ensures h'.position <= h.position + |data|
  {
  }

  // ---- storing a file and reading it back ----

  /** A fresh file can be created and given that many bytes. */
  ghost predicate CanStore(fs: FileSystem, path: seq<byte>, length: nat)
    reads fs, fs.files
  {
    && fs.Valid() && fs.g.Valid() && Fits(fs.g, fs.disk) && fs.files.Length == MAX_OPEN_FILES
    && IsPath(path) && ShortName(path).Some? && ShortName(path).value[0] != DELETED
    && ShortName(path).value !in Files(RootDirectory(fs.g, fs.disk)) && HasRoom(RootDirectory(fs.g, fs.disk))
    && (exists i :: 0 <= i < MAX_OPEN_FILES && !fs.files[i].active)
    && 0 < length < 0x1_0000_0000 && length <= fs.g.Span(|FreeClusters(FatTable(fs.g, fs.disk))|)
  }

  lemma OutsideKeepsFat(g: Geometry, disk: Disk, disk': Disk)
    requires g.Valid() && Fits(g, disk) && SameOutsideDirectory(g, disk, disk')
    ensures Fits(g, disk') && FatTable(g, disk') == FatTable(g, disk)
  {
    SameFatsKeeps(g, disk, disk');
  }

  ghost predicate SameActive(handles: seq<Handle>, handles': seq<Handle>) {
    |handles| == |handles'| && forall i :: 0 <= i < |handles| ==> handles'[i].active == handles[i].active
  }

  /** Handles in use are as they were. */
  ghost predicate KeptActive(handles: seq<Handle>, handles': seq<Handle>) {
    |handles'| == |handles| && forall k :: 0 <= k < |handles| && handles[k].active ==> handles'[k] == handles[k]
  }

  /** The handle writes back to the slot of the file of that name. */
  ghost predicate HasSlot(g: Geometry, dir: Directory, name: Name, h: Handle) {
    0 <= Slot(g, h) < |dir| && dir[Slot(g, h)].Regular() && dir[Slot(g, h)].name == name
  }

  /** Every open handle is as it was and shows what it did. */
  ghost predicate OpenFilesKept(g: Geometry, disk: Disk, handles: seq<Handle>, chains: Chains, disk': Disk,
                                handles': seq<Handle>, chains': Chains)
  {
    && |handles'| == |handles|
    && forall k :: 0 <= k < |handles| && handles[k].active ==>
         handles'[k] == handles[k] && StillShown(g, disk, chains, disk', chains', handles[k])
  }

  lemma OpenKept(g: Geometry, disk: Disk, handles: seq<Handle>, chains: Chains, disk': Disk, index: nat, h': Handle)
    requires g.Valid() && Fits(g, disk) && Fits(g, disk') && SameOutsideDirectory(g, disk, disk')
    requires index < |handles| && !handles[index].active
    ensures OpenFilesKept(g, disk, handles, chains, disk', handles[index := h'], chains)
  {
    hide Fits, StillShown, SameOutsideDirectory;
    forall k | 0 <= k < |handles| && handles[k].active
      ensures StillShown(g, disk, chains, disk', chains, handles[k])
    {
      ShownOutsideDirectory(g, disk, chains, disk', handles[k]);
    }
  }

  /** Creates the file and opens it. */
  method Begin(fs: FileSystem, path: seq<byte>, ghost length: nat) returns (fd: int)
    requires CanStore(fs, path, length)
    modifies fs`disk, fs.files
    ensures fd >= FD_BASE && fs.Valid() && InOrder(fs, fd - FD_BASE)
            && CursorOk(fs.g, fs.chains, fs.files[fd - FD_BASE])
    ensures var h := fs.files[fd - FD_BASE];
            && h.start < CLUSTER_MIN && h.position == 0 && h.size == 0
            && HasSlot(fs.g, RootDirectory(fs.g, fs.disk), ShortName(path).value, h)
    ensures length <= Room(fs, fd - FD_BASE) && Shown(fs, fd - FD_BASE) == []
    ensures Files(RootDirectory(fs.g, fs.disk))
            == old(Files(RootDirectory(fs.g, fs.disk)))[ShortName(path).value := (0, 0)]
    ensures VolumeOf(fs) == old(VolumeOf(fs))[ShortName(path).value := []]
    ensures SameOutsideDirectory(fs.g, old(fs.disk), fs.disk)
    ensures fs.files[..] == old(fs.files[..])[fd - FD_BASE := fs.files[fd - FD_BASE]]
    ensures !old(fs.files[..])[fd - FD_BASE].active
  {
    hide RootDirectory, ShortName, Files, WellFormed, FreeClusters, FatTable, SameOutsideDirectory, ValidState,
         HasRoom, Adds, Volume;
    ghost var disk0 := fs.disk;
    fs.HandleAt(0);
    var r := fs.Create(path);
    OutsideKeepsFat(fs.g, disk0, fs.disk);
    fd := fs.Open(path);
    OpenedReady(fs.g, fs.disk, fs.files[..], fs.chains, fd - FD_BASE);
    fs.HandleAt(0);
    SlotOfOpened(fs.g, RootDirectory(fs.g, fs.disk), ShortName(path).value, fs.files[fd - FD_BASE]);
  }

  /** Closing a written handle gives its bytes to the name of its slot and its first cluster and size to the entry. */
  lemma CloseStores(g: Geometry, disk: Disk, disk': Disk, chains: Chains, h: Handle, name: Name)
    requires g.Valid() && Fits(g, disk) && Fits(g, disk') && SizeOk(g, disk, chains, h) && h.modified
    requires HasSlot(g, RootDirectory(g, disk), name, h) && CloseFrame(g, disk, chains, h, disk')
    requires ClosedInto(g, RootDirectory(g, disk), h, RootDirectory(g, disk'))
    ensures Volume(g, disk', chains) == Volume(g, disk, chains)[name := FileBytes(g, disk, chains, h)]
    ensures Files(RootDirectory(g, disk')) == Files(RootDirectory(g, disk))[name := (h.start, h.size)]
  {
    hide Files, Fits, Content, Volume, RootDirectory, SizeOk, FileBytes, Slot;
  }

  /** The volume once a fresh, empty file of that name has been written and closed. */
  lemma StoredVolume(g: Geometry, disk: Disk, handles: seq<Handle>, chains: Chains, index: nat, name: Name, disk': Disk,
                     handles': seq<Handle>, chains': Chains, before: map<Name, seq<byte>>, after: map<Name, seq<byte>>,
                     data: seq<byte>)
    requires g.Valid() && Fits(g, disk) && Fits(g, disk') && index < |handles|
             && WriteFrame(g, disk, handles, chains, index, disk', handles', chains')
    requires HasSlot(g, RootDirectory(g, disk), name, handles[index])
    requires Volume(g, disk, chains) == before[name := []] && after == Volume(g, disk', chains')[name := data]
    ensures after == before[name := data]
  {
    hide Fits, Volume, RootDirectory, SameDirectory, OthersShown, Slot, StillShown;
    var v, v' := Volume(g, disk, chains), Volume(g, disk', chains');
    assert v' - {name} == v - {name};
    assert forall n :: n in after && n != name ==> n in v' - {name};
    assert forall n :: n in before && n != name ==> n in v - {name};
  }

  lemma KeptThrice(g: Geometry, disk: Disk, handles: seq<Handle>, chains: Chains, disk1: Disk, handles1: seq<Handle>,
                   disk2: Disk, handles2: seq<Handle>, chains2: Chains, disk3: Disk, handles3: seq<Handle>, index: nat)
    requires g.Valid() && Fits(g, disk) && Fits(g, disk1) && Fits(g, disk2) && Fits(g, disk3) && index < |handles|
             && !handles[index].active
    requires OpenFilesKept(g, disk, handles, chains, disk1, handles1, chains)
    requires WriteFrame(g, disk1, handles1, chains, index, disk2, handles2, chains2)
             && handles1[index].start < CLUSTER_MIN
    requires SameOutsideDirectory(g, disk2, disk3) && |handles2| == |handles| && handles3 == handles2[index := CLOSED]
    ensures OpenFilesKept(g, disk, handles, chains, disk3, handles3, chains2)
  {
    hide Fits, SizeOk, FileBytes, CursorOk, SameOutsideDirectory, SameDirectory, Volume, RootDirectory, SameSlot, Slot;
    forall k | 0 <= k < |handles| && handles[k].active
      ensures handles3[k] == handles[k] && StillShown(g, disk, chains, disk3, chains2, handles[k])
    {
      assert StillShown(g, disk, chains, disk1, chains, handles[k]);
      assert StillShown(g, disk1, chains, disk2, chains2, handles1[k]);
      ShownOutsideDirectory(g, disk2, chains2, disk3, handles[k]);
    }
  }

  lemma SplicedFresh(data: seq<byte>)
    ensures Spliced([], 0, data) == data
  {
  }

  lemma {:induction false} SlotOfOpened(g: Geometry, dir: Directory, name: Name, h: Handle)
    requires WellFormed(dir) && name in Files(dir) && Slot(g, h) == Lookup(dir, name, 0)
    ensures HasSlot(g, dir, name, h)
  {
    LookupAgrees(dir, name);
  }

  /** One write to a fresh file. */
  lemma FreshWritten(g: Geometry, dir: Directory, name: Name, disk: Disk, chains: Chains, h: Handle, data: seq<byte>,
                     disk': Disk, chains': Chains, h': Handle)
    requires OneWrite(g, disk, chains, h, data, disk', chains', h') && h.position == 0 && h.size == 0
             && HasSlot(g, dir, name, h)
    ensures g.Valid() && Fits(g, disk') && SizeOk(g, disk', chains', h') && FileBytes(g, disk', chains', h') == data
    ensures h'.modified && h'.start >= CLUSTER_MIN && HasSlot(g, dir, name, h') && h'.active == h.active
  {
    hide Fits, Content;
    SplicedFresh(data);
  }

  /** Create, open, one write, close: the name has the data, and every other name and every open file is as it was. */
  method Store(fs: FileSystem, path: seq<byte>, data: seq<byte>)
    requires CanStore(fs, path, |data|)
    modifies fs`disk, fs`chains, fs.files
    ensures fs.Valid() && VolumeOf(fs) == old(VolumeOf(fs))[ShortName(path).value := data]
    ensures OpenFilesKept(fs.g, old(fs.disk), old(fs.files[..]), old(fs.chains), fs.disk, fs.files[..], fs.chains)
    ensures SameActive(old(fs.files[..]), fs.files[..])
    ensures exists start :: FilesOf(fs) == old(FilesOf(fs))[ShortName(path).value := (start, |data|)]
  {
    hide RootDirectory, ShortName, Files, FreeClusters, FatTable, SameOutsideDirectory, SameDirectory, ValidState,
         Content, Volume, CursorOk, SizeOk, OneWrite, HasSlot, ClosedInto, RoomFor, Geometry.Valid, Fits, Owned,
           WellFormed, HandleShape, InVolume, WriteFrame, CloseFrame, OpenFilesKept;
    ghost var name, g := ShortName(path).value, fs.g;
    ghost var disk0, chains0, handles0, before := fs.disk, fs.chains, fs.files[..], Volume(g, fs.disk, fs.chains);
    var fd := Begin(fs, path, |data|);
    ghost var index := fd - FD_BASE;
    ghost var disk1, chains1, handles1, h1 := fs.disk, fs.chains, fs.files[..], fs.files[index];
    OpenKept(g, disk0, handles0, chains0, disk1, index, h1);
    var r := WriteOne(fs, fd, data);
    ghost var disk2, handles2, h := fs.disk, fs.files[..], fs.files[index];
    SameDirectoryKeeps(g, disk1, disk2);
    FreshWritten(g, RootDirectory(g, disk1), name, disk1, chains1, h1, data, disk2, fs.chains, h);
    r := fs.Close(fd);
    fs.HandleAt(0);
    CloseStores(g, disk2, fs.disk, fs.chains, h, name);
    StoredVolume(g, disk1, handles1, chains1, index, name, disk2, handles2, fs.chains, before,
                 Volume(g, fs.disk, fs.chains), data);
    KeptThrice(g, disk0, handles0, chains0, disk1, handles1, disk2, handles2, fs.chains, fs.disk, fs.files[..], index);
  }

  lemma InVolumeMap(g: Geometry, disk: Disk, chains: Chains, name: Name)
    requires g.Valid() && Fits(g, disk) && name in Volume(g, disk, chains)
    ensures var files := Files(RootDirectory(g, disk));
            && name in files && FileOk(g, chains, files[name])
            && Volume(g, disk, chains)[name] == FileContent(g, disk, chains, files[name])
    ensures CanOpen(RootDirectory(g, disk), name)
  {
    hide Files, Fits, RootDirectory, Content;
  }

  lemma ReadyToRead(g: Geometry, disk: Disk, handles: seq<Handle>, chains: Chains, index: nat, name: Name)
    requires ValidState(g, disk, handles, chains) && index < |handles| && handles[index].active
    requires OpenedOn(g, RootDirectory(g, disk), name, handles[index]) && name in Volume(g, disk, chains)
    ensures SizeOk(g, disk, chains, handles[index]) && CursorOk(g, chains, handles[index])
    ensures FileBytes(g, disk, chains, handles[index]) == Volume(g, disk, chains)[name] && handles[index].position == 0
  {
    hide RootDirectory, Files, Content, Volume;
    InVolumeMap(g, disk, chains, name);
    OpenedReady(g, disk, handles, chains, index);
  }

  lemma Openable(fs: FileSystem, name: Name)
    requires fs.Valid() && name in VolumeOf(fs)
    ensures fs.g.Valid() && Fits(fs.g, fs.disk) && CanOpen(RootDirectory(fs.g, fs.disk), name)
  {
    InVolumeMap(fs.g, fs.disk, fs.chains, name);
  }

  /** A file of the volume, opened, is ready to be read from the start. */
  lemma OpenedOnFile(fs: FileSystem, index: nat, name: Name)
    requires fs.Valid() && fs.g.Valid() && Fits(fs.g, fs.disk) && index < fs.files.Length && fs.files[index].active
    requires OpenedOn(fs.g, RootDirectory(fs.g, fs.disk), name, fs.files[index]) && name in VolumeOf(fs)
    ensures InOrder(fs, index) && ReadReady(fs.g, fs.disk, fs.chains, fs.files[index])
    ensures Shown(fs, index) == VolumeOf(fs)[name] && fs.files[index].position == 0
  {
    hide ValidState, SizeOk, CursorOk, Volume, FileBytes, RootDirectory, OpenedOn, Fits, Geometry.Valid;
    fs.HandleAt(index);
    fs.StateOf();
    ReadyToRead(fs.g, fs.disk, fs.files[..], fs.chains, index, name);
  }

  /** The path names a file of the volume, and a handle is free. */
  ghost predicate CanReload(fs: FileSystem, path: seq<byte>)
    reads fs, fs.files
  {
    && fs.Valid() && ShortName(path).Some? && ShortName(path).value in VolumeOf(fs)
    && fs.files.Length == MAX_OPEN_FILES && exists i :: 0 <= i < MAX_OPEN_FILES && !fs.files[i].active
  }

  /** The bytes that the volume holds under a path. */
  ghost function Stored(fs: FileSystem, path: seq<byte>): seq<byte>
    requires CanReload(fs, path)
    reads fs, fs.files
  {
    VolumeOf(fs)[ShortName(path).value]
  }

  /** At most that many bytes from the start. */
  function Head(data: seq<byte>, length: nat): seq<byte> {
    data[..Min(length, |data|)]
  }

  /**
   Opens a file of the volume and reads it with reads of any positive sizes: its bytes come back in order, then nothing.
   */
  method Reload(fs: FileSystem, path: seq<byte>, counts: seq<nat>) returns (got: seq<byte>)
    requires CanReload(fs, path)
    requires forall k :: 0 <= k < |counts| ==> counts[k] > 0
    modifies fs.files
    ensures fs.Valid() && KeptActive(old(fs.files[..]), fs.files[..])
    ensures got == Head(old(Stored(fs, path)), Sum(counts))
  {
    hide RootDirectory, ShortName, ValidState, Fits, Geometry.Valid, Volume, CanOpen, Files, SizeOk, Shown, ReadReady;
    fs.HandleAt(0);
    Openable(fs, ShortName(path).value);
    var fd := fs.Open(path);
    OpenedOnFile(fs, fd - FD_BASE, ShortName(path).value);
    got := ReadAll(fs, fd, counts);
  }

  lemma KeptFurther(g: Geometry, disk: Disk, handles: seq<Handle>, chains: Chains, disk': Disk, handles1: seq<Handle>,
                    chains': Chains, handles2: seq<Handle>)
    requires g.Valid() && Fits(g, disk) && Fits(g, disk')
    requires OpenFilesKept(g, disk, handles, chains, disk', handles1, chains') && KeptActive(handles1, handles2)
    ensures OpenFilesKept(g, disk, handles, chains, disk', handles2, chains')
  {
    hide Fits, StillShown;
  }

  /**
   What is created, written and closed is what a later open and any reads give back; all other files are as they were.
   */
  method StoreAndReload(fs: FileSystem, path: seq<byte>, data: seq<byte>, counts: seq<nat>) returns (got: seq<byte>)
    requires CanStore(fs, path, |data|)
    requires forall k :: 0 <= k < |counts| ==> counts[k] > 0
    modifies fs`disk, fs`chains, fs.files
    ensures fs.Valid() && VolumeOf(fs) == old(VolumeOf(fs))[ShortName(path).value := data]
    ensures OpenFilesKept(fs.g, old(fs.disk), old(fs.files[..]), old(fs.chains), fs.disk, fs.files[..], fs.chains)
    ensures got == Head(data, Sum(counts))
  {
    hide ShortName, Sum, Fits, RootDirectory, Files, FreeClusters, FatTable, HasRoom, ValidState, Geometry.Valid,
         Volume, OpenFilesKept;
    ghost var i :| 0 <= i < MAX_OPEN_FILES && !fs.files[i].active;
    ghost var disk0, chains0, handles0 := fs.disk, fs.chains, fs.files[..];
    Store(fs, path, data);
    assert !fs.files[i].active;
    ghost var handles1 := fs.files[..];
    got := Reload(fs, path, counts);
    fs.HandleAt(0);
    KeptFurther(fs.g, disk0, handles0, chains0, fs.disk, handles1, fs.chains, fs.files[..]);
  }
}
