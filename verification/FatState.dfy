/** Open-file handles, and the invariant that ties handles, root directory and cluster chains together. */
module FatState {
  import opened Common
  import opened FatLayout
  import opened FatChains
  import opened FatDirectory

  const MAX_OPEN_FILES := 16
  const FD_BASE := 3

  /** One slot of the table of open files. */
  datatype Handle = Handle(
    active: bool,
    start: nat,
    current: nat,
    size: nat,
    position: nat,
    dirLba: nat,
    dirOffset: nat,
    modified: bool
  )

  const CLOSED := Handle(false, 0, 0, 0, 0, 0, 0, false)

  /** The directory slot a handle writes back to. */
  function Slot(g: Geometry, h: Handle): int {
    (h.dirLba - g.rootDirStart) * 16 + h.dirOffset / ENTRY_SIZE
  }

  ghost predicate HandleShape(g: Geometry, h: Handle) {
    && g.rootDirStart <= h.dirLba < g.dataStart
    && h.dirOffset % ENTRY_SIZE == 0 && h.dirOffset < 512
    && h.start < 0x1_0000 && h.position <= h.size < 0x1_0000_0000
    && (h.start < CLUSTER_MIN ==> h.current == h.start && h.size == 0)
  }

  /** A handle's cursor stays on its own chain. */
  ghost predicate HandleOwned(h: Handle, chains: Chains) {
    h.start >= CLUSTER_MIN ==> h.start in chains && h.current in chains[h.start]
  }

  ghost predicate Starts(e: DirEntry) {
    e.Live() && e.start >= CLUSTER_MIN
  }

  ghost predicate SameFile(h: Handle, h': Handle) {
    h.start >= CLUSTER_MIN && h.start == h'.start
  }

  /** Every file's first cluster heads a chain, and belongs to one directory slot only. */
  ghost predicate StartsOwned(g: Geometry, dir: Directory, handles: seq<Handle>, chains: Chains) {
    && (forall j :: 0 <= j < |dir| && Starts(dir[j]) ==> dir[j].start in chains)
    && (forall j, k :: 0 <= j < k < |dir| && Starts(dir[j]) && Starts(dir[k]) ==> dir[j].start != dir[k].start)
    && (forall i, j :: 0 <= i < |handles| && 0 <= j < |dir| && handles[i].active && Starts(dir[j])
                       && dir[j].start == handles[i].start ==>
          j == Slot(g, handles[i]))
    && (forall i, k :: 0 <= i < k < |handles| && handles[i].active && handles[k].active
                       && SameFile(handles[i], handles[k]) ==>
          Slot(g, handles[i]) == Slot(g, handles[k]))
  }

  ghost predicate HandlesOk(g: Geometry, handles: seq<Handle>, chains: Chains) {
    forall i :: 0 <= i < |handles| && handles[i].active ==>
      HandleShape(g, handles[i]) && HandleOwned(handles[i], chains)
  }

  /** What every reachable state of the driver and its disk satisfies. */
  ghost predicate ValidState(g: Geometry, disk: Disk, handles: seq<Handle>, chains: Chains) {
    && g.Valid() && Fits(g, disk)
    && |handles| == MAX_OPEN_FILES
    && Mirrored(g, disk)
    && Owned(FatTable(g, disk), chains)
    && WellFormed(RootDirectory(g, disk))
    && HandlesOk(g, handles, chains)
    && StartsOwned(g, RootDirectory(g, disk), handles, chains)
  }

  lemma SameOutsideAlways(g: Geometry, disk: Disk)
    ensures SameOutsideDirectory(g, disk, disk)
  {
  }

  lemma HandleCount(g: Geometry, disk: Disk, handles: seq<Handle>, chains: Chains)
    requires ValidState(g, disk, handles, chains)
    ensures |handles| == MAX_OPEN_FILES
  {
  }

  ghost predicate SameOutsideDirectory(g: Geometry, disk: Disk, disk': Disk) {
    |disk| == |disk'| && forall l :: 0 <= l < |disk| && !(g.rootDirStart <= l < g.dataStart) ==> disk[l] == disk'[l]
  }

  lemma OwnedInVolume(g: Geometry, disk: Disk, chains: Chains, s: nat)
    requires g.Valid() && Fits(g, disk) && Owned(FatTable(g, disk), chains) && s in chains
    ensures InVolume(g, chains[s]) && Distinct(chains[s])
  {
  }

  /** A directory update that keeps the slots' starts owned keeps the state valid. */
  lemma DirectoryStep(g: Geometry, disk: Disk, disk': Disk, handles: seq<Handle>, chains: Chains, j: nat, e: DirEntry)
    requires ValidState(g, disk, handles, chains)
    requires SameOutsideDirectory(g, disk, disk')
    requires j < |RootDirectory(g, disk)| && RootDirectory(g, disk') == RootDirectory(g, disk)[j := e]
    requires WellFormed(RootDirectory(g, disk'))
    requires Starts(e) ==> e.start in chains
    requires Starts(e) ==> forall k :: 0 <= k < |RootDirectory(g, disk)| && k != j
                                       && Starts(RootDirectory(g, disk)[k]) ==>
                             RootDirectory(g, disk)[k].start != e.start
    requires Starts(e) ==> forall i :: 0 <= i < |handles| && handles[i].active && handles[i].start == e.start ==>
               Slot(g, handles[i]) == j
    ensures ValidState(g, disk', handles, chains)
  {
    SameFatsKeeps(g, disk, disk');
  }

  /** A handle that keeps its start, or takes a start no one owns yet, keeps the starts owned. */
  lemma StartTaken(g: Geometry, dir: Directory, handles: seq<Handle>, index: nat, h': Handle, chains: Chains)
    requires StartsOwned(g, dir, handles, chains) && HandlesOk(g, handles, chains)
    requires index < |handles| && handles[index].active && Slot(g, h') == Slot(g, handles[index])
    requires handles[index].start == h'.start || h'.start !in chains
    ensures StartsOwned(g, dir, handles[index := h'], chains)
  {
    var handles' := handles[index := h'];
    forall i, k | 0 <= i < k < |handles'| && handles'[i].active && handles'[k].active
    && SameFile(handles'[i], handles'[k])
      ensures Slot(g, handles'[i]) == Slot(g, handles'[k])
    {
      var other := if i == index then k else i;
      assert HandleOwned(handles[other], chains);
    }
  }

  lemma HandlesKept(g: Geometry, handles: seq<Handle>, index: nat, h': Handle, chains: Chains, chains': Chains)
    requires HandlesOk(g, handles, chains) && index < |handles|
    requires h'.active ==> HandleShape(g, h') && HandleOwned(h', chains')
    requires forall s :: s in chains ==> s in chains' && chains[s] <= chains'[s]
    ensures HandlesOk(g, handles[index := h'], chains')
  {
    forall i | 0 <= i < |handles| && handles[i].active && handles[i].start >= CLUSTER_MIN
      ensures HandleOwned(handles[i], chains')
    {
      var chain := chains[handles[i].start];
      assert chain <= chains'[handles[i].start];
    }
  }

  /** A change of one handle and of the chain it writes to keeps the state valid. */
  lemma WriteStep(g: Geometry, disk: Disk, disk': Disk, handles: seq<Handle>, index: nat, h': Handle, chains: Chains,
                  chains': Chains)
    requires ValidState(g, disk, handles, chains)
    requires index < |handles| && handles[index].active && h'.active
    requires Fits(g, disk') && SameDirectory(g, disk, disk') && Mirrored(g, disk') && Owned(FatTable(g, disk'), chains')
    requires HandleShape(g, h') && HandleOwned(h', chains') && Slot(g, h') == Slot(g, handles[index])
    requires handles[index].start == h'.start || h'.start !in chains
    requires forall s :: s in chains ==> s in chains' && chains[s] <= chains'[s]
    ensures ValidState(g, disk', handles[index := h'], chains')
  {
    hide Owned, Mirrored, WellFormed, HandlesOk, Fits, HandleShape, Geometry.Valid, SameDirectory, RootDirectory,
         FatTable;
    SameDirectoryKeeps(g, disk, disk');
    StartTaken(g, RootDirectory(g, disk), handles, index, h', chains);
    HandlesKept(g, handles, index, h', chains, chains');
  }

  /** A handle on the file of a directory slot, or a closed one, keeps the starts owned. */
  lemma StartOpened(g: Geometry, dir: Directory, handles: seq<Handle>, index: nat, h': Handle, chains: Chains)
    requires StartsOwned(g, dir, handles, chains) && index < |handles|
    requires h'.active && h'.start >= CLUSTER_MIN ==>
               0 <= Slot(g, h') < |dir| && Starts(dir[Slot(g, h')]) && dir[Slot(g, h')].start == h'.start
    ensures StartsOwned(g, dir, handles[index := h'], chains)
  {
  }

  /** Opening a slot's file, or closing a handle, keeps the state valid. */
  lemma HandleStep(g: Geometry, disk: Disk, handles: seq<Handle>, index: nat, h': Handle, chains: Chains)
    requires ValidState(g, disk, handles, chains) && index < |handles|
    requires h'.active ==> HandleShape(g, h') && HandleOwned(h', chains)
    requires h'.active && h'.start >= CLUSTER_MIN ==>
               var dir := RootDirectory(g, disk);
               0 <= Slot(g, h') < |dir| && Starts(dir[Slot(g, h')]) && dir[Slot(g, h')].start == h'.start
    ensures ValidState(g, disk, handles[index := h'], chains)
  {
    StartOpened(g, RootDirectory(g, disk), handles, index, h', chains);
    HandlesKept(g, handles, index, h', chains, chains);
  }

  /** The driver over a well-formed volume with no file open. */
  lemma AllClosed(g: Geometry, disk: Disk, handles: seq<Handle>, chains: Chains)
    requires g.Valid() && Fits(g, disk) && Mirrored(g, disk) && Owned(FatTable(g, disk), chains)
    requires WellFormed(RootDirectory(g, disk)) && StartsOwned(g, RootDirectory(g, disk), [], chains)
    requires |handles| == MAX_OPEN_FILES && forall i :: 0 <= i < |handles| ==> handles[i] == CLOSED
    ensures ValidState(g, disk, handles, chains)
  {
  }

  /** A volume without live directory entries is where every run may start: no chain is owned by anyone. */
  lemma EmptyVolume(g: Geometry, disk: Disk)
    requires g.Valid() && Fits(g, disk) && Mirrored(g, disk)
    requires forall j :: 0 <= j < |RootDirectory(g, disk)| ==> !RootDirectory(g, disk)[j].Live()
    ensures Owned(FatTable(g, disk), map[]) && WellFormed(RootDirectory(g, disk))
            && StartsOwned(g, RootDirectory(g, disk), [], map[])
  {
  }

  /** The file of directory slot `j` starts at cluster `s`, says the slot itself or a handle that is open on it. */
  ghost predicate StartsAt(g: Geometry, dir: Directory, handles: seq<Handle>, j: int, s: nat) {
    && s >= CLUSTER_MIN
    && ((0 <= j < |dir| && Starts(dir[j]) && dir[j].start == s)
        || exists i :: 0 <= i < |handles| && handles[i].active && handles[i].start == s && Slot(g, handles[i]) == j)
  }

  /** The files of two slots lie on disjoint chains, whether the directory or an open handle tells where they start. */
  lemma FilesDisjoint(g: Geometry, disk: Disk, handles: seq<Handle>, chains: Chains, j: int, s: nat, k: int, t: nat)
    requires ValidState(g, disk, handles, chains) && j != k
    requires StartsAt(g, RootDirectory(g, disk), handles, j, s) && StartsAt(g, RootDirectory(g, disk), handles, k, t)
    ensures s in chains && t in chains && s != t && Disjoint(chains[s], chains[t])
  {
    hide RootDirectory, IsChain, WellFormed, Mirrored, Fits, FatTable, Geometry.Valid, HandleShape, Slot;
  }

  // ---- directory slots and handles ----

  lemma SlotInDirectory(g: Geometry, disk: Disk, j: nat)
    requires g.Valid() && Fits(g, disk) && j < |RootDirectory(g, disk)|
    ensures j < 16 * g.rootDirSectors && g.rootDirStart <= SlotLba(g, j) < g.dataStart && SlotLba(g, j) < |disk|
    ensures RootDirectory(g, disk)[j] == DecodeEntry(disk[SlotLba(g, j)], SlotOffset(j))
  {
  }

  /** The slot a handle writes back to, and where that is. */
  lemma HandleSlot(g: Geometry, disk: Disk, h: Handle) returns (j: nat)
    requires g.Valid() && Fits(g, disk) && HandleShape(g, h)
    ensures j == Slot(g, h) && j < 16 * g.rootDirSectors && j < |RootDirectory(g, disk)|
    ensures h.dirLba == SlotLba(g, j) < |disk| && h.dirOffset == SlotOffset(j)
    ensures RootDirectory(g, disk)[j] == DecodeEntry(disk[h.dirLba], h.dirOffset)
    ensures h.start < 0x1_0000 && h.size < 0x1_0000_0000
  {
    hide DecodeEntry;
    j := Slot(g, h);
    assert j / 16 == h.dirLba - g.rootDirStart && j % 16 == h.dirOffset / ENTRY_SIZE;
  }

  /** A handle at the beginning of the file of that name. */
  ghost predicate OpenedOn(g: Geometry, dir: Directory, name: Name, h: Handle) {
    && name in Files(dir)
    && h == Handle(true, Files(dir)[name].0, Files(dir)[name].0, Files(dir)[name].1, 0, h.dirLba, h.dirOffset, false)
    && 0 <= Slot(g, h) < |dir| && Slot(g, h) == Lookup(dir, name, 0)
  }

  lemma OpenKeepsValid(g: Geometry, disk: Disk, handles: seq<Handle>, chains: Chains, index: nat, j: nat, h: Handle)
    requires ValidState(g, disk, handles, chains) && index < |handles| && j < |RootDirectory(g, disk)|
    requires var e := RootDirectory(g, disk)[j];
             && e.Live() && (e.size > 0 ==> e.start >= CLUSTER_MIN)
             && h == Handle(true, e.start, e.start, e.size, 0, SlotLba(g, j), SlotOffset(j), false)
    ensures ValidState(g, disk, handles[index := h], chains) && Slot(g, h) == j
  {
    var dir := RootDirectory(g, disk);
    assert SlotOffset(j) / ENTRY_SIZE == j % 16;
    assert Slot(g, h) == j;
    HandleStep(g, disk, handles, index, h, chains);
  }

  /** The directory after a handle was closed. */
  ghost predicate ClosedInto(g: Geometry, dir: Directory, h: Handle, dir': Directory) {
    if h.modified then
      && 0 <= Slot(g, h) < |dir|
      && var e := dir[Slot(g, h)];
      && dir' == dir[Slot(g, h) := Sized(e, h.start, h.size)]
      && Files(dir') == if e.Regular() then Files(dir)[e.name := (h.start, h.size)] else Files(dir)
    else dir' == dir
  }

  lemma CloseKeepsValid(g: Geometry, disk: Disk, disk': Disk, handles: seq<Handle>, chains: Chains, index: nat, j: nat)
    requires ValidState(g, disk, handles, chains) && index < |handles| && handles[index].active
    requires SameOutsideDirectory(g, disk, disk') && Fits(g, disk')
    requires var dir := RootDirectory(g, disk);
             && j == Slot(g, handles[index]) && j < |dir|
             && RootDirectory(g, disk') == dir[j := Sized(dir[j], handles[index].start, handles[index].size)]
    requires WellFormed(RootDirectory(g, disk'))
    ensures ValidState(g, disk', handles, chains)
  {
    var dir, h := RootDirectory(g, disk), handles[index];
    DirectoryStep(g, disk, disk', handles, chains, j, Sized(dir[j], h.start, h.size));
  }

  lemma ClosedKeepsValid(g: Geometry, disk: Disk, handles: seq<Handle>, chains: Chains, index: nat)
    requires ValidState(g, disk, handles, chains) && index < |handles|
    ensures ValidState(g, disk, handles[index := CLOSED], chains)
  {
    HandleStep(g, disk, handles, index, CLOSED, chains);
  }
}
