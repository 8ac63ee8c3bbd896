/** The volume as a map from names to byte strings, and what each operation makes of it. */
module FatVolume {
  import opened Bytes
  import opened FatLayout
  import opened FatChains
  import opened FatDirectory
  import opened FatState
  import opened FatWrite
  import opened FatFiles

  /** The clusters of a file, given its first cluster. */
  ghost function ChainFrom(chains: Chains, start: nat): seq<nat>
    requires start >= CLUSTER_MIN ==> start in chains
  {
    if start >= CLUSTER_MIN then chains[start] else []
  }

  /** The file's size, as its directory entry states it, fits its clusters. */
  ghost predicate FileOk(g: Geometry, chains: Chains, file: (nat, nat)) {
    && (file.0 >= CLUSTER_MIN ==> file.0 in chains)
    && InVolume(g, ChainFrom(chains, file.0))
    && file.1 <= Capacity(g, ChainFrom(chains, file.0))
  }

  ghost function FileContent(g: Geometry, disk: Disk, chains: Chains, file: (nat, nat)): seq<byte>
    requires g.Valid() && Fits(g, disk) && FileOk(g, chains, file)
  {
    Content(g, disk, ChainFrom(chains, file.0), file.1)
  }

  /** What the files of a directory hold, by name. */
  ghost function Contents(g: Geometry, disk: Disk, chains: Chains, files: map<Name, (nat, nat)>): map<Name, seq<byte>>
    requires g.Valid() && Fits(g, disk)
  {
    map name | name in files && FileOk(g, chains, files[name]) :: FileContent(g, disk, chains, files[name])
  }

  /** The byte string of every file whose size fits its clusters. */
  ghost function Volume(g: Geometry, disk: Disk, chains: Chains): map<Name, seq<byte>>
    requires g.Valid() && Fits(g, disk)
  {
    Contents(g, disk, chains, Files(RootDirectory(g, disk)))
  }

  /** The name in the directory slot that a handle writes back to. */
  ghost function SlotName(g: Geometry, dir: Directory, h: Handle): Name
    requires 0 <= Slot(g, h) < |dir|
  {
    dir[Slot(g, h)].name
  }

  // ---- directory operations ----

  lemma ContentsKept(g: Geometry, disk: Disk, disk': Disk, chains: Chains, files: map<Name, (nat, nat)>)
    requires g.Valid() && Fits(g, disk) && Fits(g, disk') && SameOutsideDirectory(g, disk, disk')
    ensures Contents(g, disk', chains, files) == Contents(g, disk, chains, files)
  {
    hide Fits, Content, SameOutsideDirectory;
    forall name | name in files && FileOk(g, chains, files[name])
      ensures FileContent(g, disk', chains, files[name]) == FileContent(g, disk, chains, files[name])
    {
      BytesOutsideDirectory(g, disk, disk', ChainFrom(chains, files[name].0), files[name].1);
    }
  }

  lemma ContentsUpdated(g: Geometry, disk: Disk, chains: Chains, files: map<Name, (nat, nat)>, name: Name,
                        file: (nat, nat))
    requires g.Valid() && Fits(g, disk) && FileOk(g, chains, file)
    ensures Contents(g, disk, chains, files[name := file])
         == Contents(g, disk, chains, files)[name := FileContent(g, disk, chains, file)]
  {
    hide Fits, FileContent, FileOk;
  }

  lemma ContentsRemoved(g: Geometry, disk: Disk, chains: Chains, files: map<Name, (nat, nat)>, name: Name)
    requires g.Valid() && Fits(g, disk)
    ensures Contents(g, disk, chains, files - {name}) == Contents(g, disk, chains, files) - {name}
  {
    hide Fits, FileContent, FileOk;
  }

  lemma EmptyFile(g: Geometry, disk: Disk, chains: Chains)
    requires g.Valid() && Fits(g, disk)
    ensures FileOk(g, chains, (0, 0)) && FileContent(g, disk, chains, (0, 0)) == []
  {
  }

  /** The volume with an empty file added; a name whose first byte means "deleted" is lost. */
  ghost function AddedTo(volume: map<Name, seq<byte>>, name: Name): map<Name, seq<byte>> {
    if name[0] == DELETED then volume else volume[name := []]
  }

  /** Creation adds an empty file, unless its name reads as deleted. */
  lemma CreateShows(g: Geometry, disk: Disk, disk': Disk, chains: Chains, name: Name)
    requires g.Valid() && Fits(g, disk) && Fits(g, disk') && SameOutsideDirectory(g, disk, disk')
    requires Files(RootDirectory(g, disk')) == AddedFile(Files(RootDirectory(g, disk)), name)
    ensures Volume(g, disk', chains) == AddedTo(Volume(g, disk, chains), name)
  {
    hide Fits, Contents, FileContent, FileOk, Files, RootDirectory, SameOutsideDirectory;
    ContentsKept(g, disk, disk', chains, Files(RootDirectory(g, disk')));
    EmptyFile(g, disk, chains);
    ContentsUpdated(g, disk, chains, Files(RootDirectory(g, disk)), name, (0, 0));
  }

  /** Deletion removes the name. */
  lemma DeleteShows(g: Geometry, disk: Disk, disk': Disk, chains: Chains, name: Name)
    requires g.Valid() && Fits(g, disk) && Fits(g, disk') && SameOutsideDirectory(g, disk, disk')
    requires Files(RootDirectory(g, disk')) == Files(RootDirectory(g, disk)) - {name}
    ensures Volume(g, disk', chains) == Volume(g, disk, chains) - {name}
  {
    hide Fits, Contents, FileContent, FileOk, Files, RootDirectory, SameOutsideDirectory;
    ContentsKept(g, disk, disk', chains, Files(RootDirectory(g, disk')));
    ContentsRemoved(g, disk, chains, Files(RootDirectory(g, disk)), name);
  }

  /** The entry that closing a handle writes describes the handle's bytes. */
  lemma HandleFile(g: Geometry, disk: Disk, chains: Chains, h: Handle)
    requires g.Valid() && Fits(g, disk) && SizeOk(g, disk, chains, h)
    ensures FileOk(g, chains, (h.start, h.size))
            && FileContent(g, disk, chains, (h.start, h.size)) == FileBytes(g, disk, chains, h)
  {
    hide Fits, Content;
  }

  /** The volume after a handle of size that fits its clusters has been closed. */
  ghost function ClosedVolume(g: Geometry, disk: Disk, chains: Chains, h: Handle): map<Name, seq<byte>>
    requires g.Valid() && Fits(g, disk) && SizeOk(g, disk, chains, h)
    requires 0 <= Slot(g, h) < |RootDirectory(g, disk)|
  {
    var dir, volume := RootDirectory(g, disk), Volume(g, disk, chains);
    if h.modified && dir[Slot(g, h)].Regular() then volume[SlotName(g, dir, h) := FileBytes(g, disk, chains, h)]
      else volume
  }

  /** Closing a written handle gives its bytes to the name of its slot; closing another changes nothing. */
  lemma CloseShows(g: Geometry, disk: Disk, disk': Disk, chains: Chains, h: Handle)
    requires g.Valid() && Fits(g, disk) && Fits(g, disk') && SameOutsideDirectory(g, disk, disk')
    requires SizeOk(g, disk, chains, h) && 0 <= Slot(g, h) < |RootDirectory(g, disk)|
    requires ClosedInto(g, RootDirectory(g, disk), h, RootDirectory(g, disk'))
    ensures Volume(g, disk', chains) == ClosedVolume(g, disk, chains, h)
  {
    hide Fits, Contents, FileContent, FileOk, Files, RootDirectory, SameOutsideDirectory, FileBytes, SizeOk;
    ContentsKept(g, disk, disk', chains, Files(RootDirectory(g, disk')));
    HandleFile(g, disk, chains, h);
    var dir := RootDirectory(g, disk);
    if h.modified {
      ContentsUpdated(g, disk, chains, Files(dir), SlotName(g, dir, h), (h.start, h.size));
    }
  }

  /** Whatever size the handle claims, closing it leaves every other name alone. */
  lemma CloseIsolates(g: Geometry, disk: Disk, disk': Disk, chains: Chains, h: Handle)
    requires g.Valid() && Fits(g, disk) && Fits(g, disk') && SameOutsideDirectory(g, disk, disk')
    requires 0 <= Slot(g, h) < |RootDirectory(g, disk)|
    requires ClosedInto(g, RootDirectory(g, disk), h, RootDirectory(g, disk'))
    ensures var n := {SlotName(g, RootDirectory(g, disk), h)};
            Volume(g, disk', chains) - n == Volume(g, disk, chains) - n
  {
    hide Fits, FileContent, FileOk, Files, RootDirectory, SameOutsideDirectory;
    ContentsKept(g, disk, disk', chains, Files(RootDirectory(g, disk')));
  }

  /** What closing a handle makes of the volume. */
  ghost predicate CloseFrame(g: Geometry, disk: Disk, chains: Chains, h: Handle, disk': Disk)
  {
    && g.Valid() && Fits(g, disk) && Fits(g, disk')
    && 0 <= Slot(g, h) < |RootDirectory(g, disk)|
    && (SizeOk(g, disk, chains, h) ==> Volume(g, disk', chains) == ClosedVolume(g, disk, chains, h))
    && var n := {SlotName(g, RootDirectory(g, disk), h)};
       Volume(g, disk', chains) - n == Volume(g, disk, chains) - n
  }

  lemma CloseFramed(g: Geometry, disk: Disk, disk': Disk, chains: Chains, h: Handle)
    requires g.Valid() && Fits(g, disk) && Fits(g, disk') && SameOutsideDirectory(g, disk, disk')
    requires 0 <= Slot(g, h) < |RootDirectory(g, disk)|
    requires ClosedInto(g, RootDirectory(g, disk), h, RootDirectory(g, disk'))
    ensures CloseFrame(g, disk, chains, h, disk')
  {
    hide Fits, Volume, ClosedVolume, SlotName, RootDirectory, SameOutsideDirectory, SizeOk, ClosedInto, Slot;
    CloseIsolates(g, disk, disk', chains, h);
    if SizeOk(g, disk, chains, h) {
      CloseShows(g, disk, disk', chains, h);
    }
  }

  // ---- writes ----

  /** The chain that starts at `s` keeps its clusters and their bytes. */
  ghost predicate ChainKeptAt(g: Geometry, disk: Disk, chains: Chains, disk': Disk, chains': Chains, s: nat)
    requires g.Valid() && Fits(g, disk) && Fits(g, disk')
  {
    && s in chains && s in chains' && chains'[s] == chains[s] && InVolume(g, chains[s])
    && forall p :: 0 <= p < Capacity(g, chains[s]) ==> ByteAt(g, disk', chains[s], p) == ByteAt(g, disk, chains[s], p)
  }

  lemma KeptContent(g: Geometry, disk: Disk, chains: Chains, disk': Disk, chains': Chains, s: nat, size: nat)
    requires g.Valid() && Fits(g, disk) && Fits(g, disk') && ChainKeptAt(g, disk, chains, disk', chains', s)
    requires size <= Capacity(g, chains[s])
    ensures Content(g, disk', chains'[s], size) == Content(g, disk, chains[s], size)
  {
  }

  /** The written chain is disjoint from the others, before and after. */
  lemma ApartAfter(g: Geometry, disk: Disk, handles: seq<Handle>, chains: Chains, s: nat, t: nat)
    requires ValidState(g, disk, handles, chains) && s in chains && t in chains && s != t
    ensures Disjoint(chains[s], chains[t]) && InVolume(g, chains[t])
  {
    OwnedInVolume(g, disk, chains, t);
  }

  /** What a write leaves of the handle's name, slot and chain map. */
  lemma OutcomeMoves(g: Geometry, disk: Disk, chains: Chains, h: Handle, data: seq<byte>, disk': Disk, chains': Chains,
                     h': Handle, r: int)
    requires g.Valid() && Fits(g, disk) && HandleOwned(h, chains)
    requires WriteOutcome(g, disk, chains, h, data, disk', chains', h', r)
    ensures h'.active == h.active && h'.dirLba == h.dirLba && h'.dirOffset == h.dirOffset
    ensures h'.start == h.start || h'.start !in chains
    ensures chains.Keys <= chains'.Keys
    ensures h'.start < CLUSTER_MIN ==> disk' == disk && chains' == chains
    ensures forall s :: s in chains && s != h'.start ==> chains'[s] == chains[s]
    ensures h'.start >= CLUSTER_MIN ==>
              && h'.start in chains' && h.position <= h'.position <= h.position + |data|
              && Written(g, disk, disk', chains'[h'.start], WriteFrom(g, h, chains), data[..h'.position - h.position])
  {
    hide Written, Fits, Geometry.Valid, Cursor, FreeClusters, FatTable, Geometry.Span;
  }

  /** A write keeps every chain but its own. */
  lemma OtherChainsKept(g: Geometry, disk: Disk, handles: seq<Handle>, chains: Chains, index: nat, data: seq<byte>,
                        disk': Disk, chains': Chains, h': Handle, r: int, s: nat)
    requires ValidState(g, disk, handles, chains) && index < |handles| && handles[index].active
    requires WriteOutcome(g, disk, chains, handles[index], data, disk', chains', h', r)
    requires ValidState(g, disk', handles[index := h'], chains')
    requires s in chains && s != handles[index].start
    ensures ChainKeptAt(g, disk, chains, disk', chains', s)
  {
    OwnedInVolume(g, disk, chains, s);
    OutcomeMoves(g, disk, chains, handles[index], data, disk', chains', h', r);
    hide WriteOutcome;
    if h'.start >= CLUSTER_MIN {
      ApartAfter(g, disk', handles[index := h'], chains', h'.start, s);
      hide ValidState, Written, InVolume, Cursor;
      WrittenIsolates(g, disk, disk', chains'[h'.start], WriteFrom(g, handles[index], chains),
                      data[..h'.position - handles[index].position], chains[s]);
    }
  }

  /** A write changes no byte and no cluster of any other file, be it found in the directory or open. */
  lemma OtherFilesKept(g: Geometry, disk: Disk, handles: seq<Handle>, chains: Chains, index: nat, data: seq<byte>,
                       disk': Disk, chains': Chains, h': Handle, r: int, j: int, s: nat)
    requires ValidState(g, disk, handles, chains) && index < |handles| && handles[index].active
    requires WriteOutcome(g, disk, chains, handles[index], data, disk', chains', h', r)
    requires ValidState(g, disk', handles[index := h'], chains')
    requires StartsAt(g, RootDirectory(g, disk), handles, j, s) && j != Slot(g, handles[index])
    ensures ChainKeptAt(g, disk, chains, disk', chains', s)
  {
    hide WriteOutcome, RootDirectory, IsChain, WellFormed, Mirrored, Fits, FatTable, Geometry.Valid, HandleShape, Slot;
    OtherChainsKept(g, disk, handles, chains, index, data, disk', chains', h', r, s);
  }

  /** The written chain starts where the handle's file does, so a slot's file on another chain is as it was. */
  lemma FileKept(g: Geometry, disk: Disk, chains: Chains, disk': Disk, chains': Chains, file: (nat, nat))
    requires g.Valid() && Fits(g, disk) && Fits(g, disk')
    requires file.0 >= CLUSTER_MIN ==> ChainKeptAt(g, disk, chains, disk', chains', file.0)
    ensures FileOk(g, chains', file) <==> FileOk(g, chains, file)
    ensures FileOk(g, chains, file) ==> FileContent(g, disk', chains', file) == FileContent(g, disk, chains, file)
  {
    if file.0 >= CLUSTER_MIN && FileOk(g, chains, file) {
      KeptContent(g, disk, chains, disk', chains', file.0, file.1);
    }
  }

  /** A regular file of the directory lies in one slot. */
  lemma FileSlot(dir: Directory, name: Name) returns (j: nat)
    requires WellFormed(dir) && name in Files(dir)
    ensures j < |dir| && dir[j].Regular() && dir[j].name == name && Files(dir)[name] == (dir[j].start, dir[j].size)
  {
    assert exists i :: Holds(dir, i, name);
    j :| Holds(dir, j, name);
    FilesAt(dir, j);
  }

  /** A file that is not the one the handle writes to starts elsewhere. */
  lemma OtherStart(g: Geometry, disk: Disk, handles: seq<Handle>, chains: Chains, index: nat, name: Name)
    requires ValidState(g, disk, handles, chains) && index < |handles| && handles[index].active
    requires 0 <= Slot(g, handles[index]) < |RootDirectory(g, disk)|
    requires name in Files(RootDirectory(g, disk)) && name != SlotName(g, RootDirectory(g, disk), handles[index])
    ensures var start := Files(RootDirectory(g, disk))[name].0;
            start >= CLUSTER_MIN ==> start in chains && start != handles[index].start
  {
    var dir := RootDirectory(g, disk);
    var j := FileSlot(dir, name);
    hide RootDirectory, Files, Owned, Mirrored, HandlesOk, Fits, WellFormed, Geometry.Valid;
    assert Files(dir)[name].0 >= CLUSTER_MIN ==> Starts(dir[j]);
  }

  /** A write leaves the file of any other name alone. */
  lemma OtherNameKept(g: Geometry, disk: Disk, handles: seq<Handle>, chains: Chains, index: nat, data: seq<byte>,
                      disk': Disk, chains': Chains, h': Handle, r: int, name: Name)
    requires ValidState(g, disk, handles, chains) && index < |handles| && handles[index].active
    requires WriteOutcome(g, disk, chains, handles[index], data, disk', chains', h', r)
    requires ValidState(g, disk', handles[index := h'], chains')
    requires 0 <= Slot(g, handles[index]) < |RootDirectory(g, disk)|
    requires name in Files(RootDirectory(g, disk)) && name != SlotName(g, RootDirectory(g, disk), handles[index])
    ensures var file := Files(RootDirectory(g, disk))[name];
            && (FileOk(g, chains', file) <==> FileOk(g, chains, file))
            && (FileOk(g, chains, file) ==> FileContent(g, disk', chains', file) == FileContent(g, disk, chains, file))
  {
    hide WriteOutcome, Files, RootDirectory, Owned, WellFormed, HandlesOk, StartsOwned, Mirrored, FileOk, FileContent,
         FatTable;
    OtherStart(g, disk, handles, chains, index, name);
    var file := Files(RootDirectory(g, disk))[name];
    if file.0 >= CLUSTER_MIN {
      OtherChainsKept(g, disk, handles, chains, index, data, disk', chains', h', r, file.0);
    }
    FileKept(g, disk, chains, disk', chains', file);
  }

  /** A write leaves every name but the one of its slot alone. */
  lemma WriteShows(g: Geometry, disk: Disk, handles: seq<Handle>, chains: Chains, index: nat, data: seq<byte>,
                   disk': Disk, chains': Chains, h': Handle, r: int)
    requires ValidState(g, disk, handles, chains) && index < |handles| && handles[index].active
    requires WriteOutcome(g, disk, chains, handles[index], data, disk', chains', h', r)
    requires ValidState(g, disk', handles[index := h'], chains') && SameDirectory(g, disk, disk')
    requires 0 <= Slot(g, handles[index]) < |RootDirectory(g, disk)|
    ensures var n := {SlotName(g, RootDirectory(g, disk), handles[index])};
            Volume(g, disk', chains') - n == Volume(g, disk, chains) - n
  {
    hide WriteOutcome, Files, RootDirectory, Owned, WellFormed, HandlesOk, StartsOwned, Mirrored, FileOk, FileContent,
         FatTable, SameDirectory, Fits, Geometry.Valid, SlotName, HandleOwned;
    var dir := RootDirectory(g, disk);
    SameDirectoryKeeps(g, disk, disk');
    forall name | name in Files(dir) && name != SlotName(g, dir, handles[index])
      ensures FileOk(g, chains', Files(dir)[name]) <==> FileOk(g, chains, Files(dir)[name])
      ensures FileOk(g, chains, Files(dir)[name]) ==>
                FileContent(g, disk', chains', Files(dir)[name]) == FileContent(g, disk, chains, Files(dir)[name])
    {
      OtherNameKept(g, disk, handles, chains, index, data, disk', chains', h', r, name);
    }
  }

  // ---- what the other open handles show ----

  /** A handle that another operation does not concern shows the same bytes, at the same place. */
  ghost predicate StillShown(g: Geometry, disk: Disk, chains: Chains, disk': Disk, chains': Chains, h: Handle) {
    && g.Valid() && Fits(g, disk) && Fits(g, disk')
    && (SizeOk(g, disk, chains, h) ==>
          && SizeOk(g, disk', chains', h)
          && FileBytes(g, disk', chains', h) == FileBytes(g, disk, chains, h)
          && (CursorOk(g, chains', h) <==> CursorOk(g, chains, h)))
  }

  lemma OwnedChains(g: Geometry, disk: Disk, handles: seq<Handle>, chains: Chains)
    requires ValidState(g, disk, handles, chains)
    ensures forall s :: s in chains ==> IsChain(FatTable(g, disk), chains[s])
  {
  }

  lemma ShownOfKept(g: Geometry, disk: Disk, chains: Chains, disk': Disk, chains': Chains, h: Handle)
    requires g.Valid() && Fits(g, disk) && Fits(g, disk')
    requires h.start >= CLUSTER_MIN ==> ChainKeptAt(g, disk, chains, disk', chains', h.start)
    requires forall s :: s in chains' ==> IsChain(FatTable(g, disk'), chains'[s])
    ensures StillShown(g, disk, chains, disk', chains', h)
  {
    hide IsChain, Cursor, FatTable, Fits;
    if h.start >= CLUSTER_MIN && SizeOk(g, disk, chains, h) {
      KeptContent(g, disk, chains, disk', chains', h.start, h.size);
    }
  }

  /** A write keeps what the handles on other files show. */
  lemma OtherHandlesKept(g: Geometry, disk: Disk, handles: seq<Handle>, chains: Chains, index: nat, data: seq<byte>,
                         disk': Disk, chains': Chains, h': Handle, r: int, k: nat)
    requires ValidState(g, disk, handles, chains) && index < |handles| && handles[index].active
    requires WriteOutcome(g, disk, chains, handles[index], data, disk', chains', h', r)
    requires ValidState(g, disk', handles[index := h'], chains')
    requires k < |handles| && handles[k].active && !SameFile(handles[index], handles[k])
    ensures StillShown(g, disk, chains, disk', chains', handles[k])
  {
    hide WriteOutcome, RootDirectory, Owned, WellFormed, StartsOwned, Mirrored, FatTable, ChainKeptAt, StillShown;
    var h := handles[k];
    if h.start >= CLUSTER_MIN {
      OtherChainsKept(g, disk, handles, chains, index, data, disk', chains', h', r, h.start);
    }
    OwnedChains(g, disk', handles[index := h'], chains');
    ShownOfKept(g, disk, chains, disk', chains', h);
  }

  /** A change of the directory alone keeps what every handle shows. */
  lemma ShownOutsideDirectory(g: Geometry, disk: Disk, chains: Chains, disk': Disk, h: Handle)
    requires g.Valid() && Fits(g, disk) && Fits(g, disk') && SameOutsideDirectory(g, disk, disk')
    ensures StillShown(g, disk, chains, disk', chains, h)
  {
    if SizeOk(g, disk, chains, h) {
      SameFatsKeeps(g, disk, disk');
      hide FatTable, Fits, Content, SameOutsideDirectory;
      BytesOutsideDirectory(g, disk, disk', ChainOf(h, chains), h.size);
    }
  }

  // ---- the frame of a write, and of a run of them ----

  /** The other handles of the table are as they were, and those on other files show what they did. */
  ghost predicate OthersShown(g: Geometry, disk: Disk, handles: seq<Handle>, chains: Chains, index: nat, disk': Disk,
                              handles': seq<Handle>, chains': Chains)
  {
    && index < |handles|
    && handles' == handles[index := if index < |handles'| then handles'[index] else CLOSED]
    && forall k :: 0 <= k < |handles| && k != index && handles[k].active && !SameFile(handles[index], handles[k]) ==>
         StillShown(g, disk, chains, disk', chains', handles[k])
  }

  /** A written handle keeps its slot, and its first cluster unless it had none. */
  ghost predicate SameSlot(h: Handle, chains: Chains, h': Handle) {
    && h'.active == h.active && h'.dirLba == h.dirLba && h'.dirOffset == h.dirOffset
    && (h'.start == h.start || h'.start !in chains)
  }

  /**
   All that writes through one handle leave alone: the directory, every name but the one of the handle's slot,
   and every handle on another file.
   */
  ghost predicate WriteFrame(g: Geometry, disk: Disk, handles: seq<Handle>, chains: Chains, index: nat, disk': Disk,
                             handles': seq<Handle>, chains': Chains)
  {
    && g.Valid() && Fits(g, disk) && Fits(g, disk') && index < |handles|
    && SameDirectory(g, disk, disk') && chains.Keys <= chains'.Keys
    && OthersShown(g, disk, handles, chains, index, disk', handles', chains')
    && SameSlot(handles[index], chains, handles'[index])
    && 0 <= Slot(g, handles[index]) < |RootDirectory(g, disk)|
    && var n := {SlotName(g, RootDirectory(g, disk), handles[index])};
       Volume(g, disk', chains') - n == Volume(g, disk, chains) - n
  }

  lemma ShapeOf(g: Geometry, disk: Disk, handles: seq<Handle>, chains: Chains, index: nat)
    requires ValidState(g, disk, handles, chains) && index < |handles| && handles[index].active
    ensures g.Valid() && Fits(g, disk) && HandleShape(g, handles[index]) && HandleOwned(handles[index], chains)
  {
  }

  lemma WriteFramed(g: Geometry, disk: Disk, handles: seq<Handle>, chains: Chains, index: nat, data: seq<byte>,
                    disk': Disk, chains': Chains, h': Handle, r: int)
    requires ValidState(g, disk, handles, chains) && index < |handles| && handles[index].active
    requires WriteOutcome(g, disk, chains, handles[index], data, disk', chains', h', r)
    requires ValidState(g, disk', handles[index := h'], chains') && SameDirectory(g, disk, disk')
    ensures WriteFrame(g, disk, handles, chains, index, disk', handles[index := h'], chains')
  {
    hide WriteOutcome, ValidState, Volume, SlotName, RootDirectory, StillShown, SameDirectory, Fits, Geometry.Valid,
         HandleShape, SameFile, Slot, HandleOwned;
    ShapeOf(g, disk, handles, chains, index);
    var _ := HandleSlot(g, disk, handles[index]);
    OutcomeMoves(g, disk, chains, handles[index], data, disk', chains', h', r);
    ShapeOf(g, disk', handles[index := h'], chains', index);
    WriteShows(g, disk, handles, chains, index, data, disk', chains', h', r);
    forall k | 0 <= k < |handles| && k != index && handles[k].active && !SameFile(handles[index], handles[k])
      ensures StillShown(g, disk, chains, disk', chains', handles[k])
    {
      OtherHandlesKept(g, disk, handles, chains, index, data, disk', chains', h', r, k);
    }
  }

  lemma FrameStarts(g: Geometry, disk: Disk, handles: seq<Handle>, chains: Chains, index: nat)
    requires ValidState(g, disk, handles, chains) && index < |handles| && handles[index].active
    ensures WriteFrame(g, disk, handles, chains, index, disk, handles, chains)
  {
    hide Volume, SlotName, RootDirectory, Fits, Slot, ValidState, HandleShape;
    ShapeOf(g, disk, handles, chains, index);
    var _ := HandleSlot(g, disk, handles[index]);
    SameDirectoryAlways(g, disk);
  }

  /** A handle on another file is on another file than the written one still. */
  lemma StillOther(g: Geometry, disk: Disk, handles: seq<Handle>, chains: Chains, h: Handle, h': Handle, k: nat)
    requires ValidState(g, disk, handles, chains) && k < |handles| && handles[k].active
    requires SameSlot(h, chains, h') && !SameFile(h, handles[k])
    ensures !SameFile(h', handles[k])
  {
    assert HandleOwned(handles[k], chains);
  }

  lemma HandlesTwice(g: Geometry, disk: Disk, handles: seq<Handle>, chains: Chains, index: nat, disk1: Disk,
                     handles1: seq<Handle>, chains1: Chains, disk2: Disk, handles2: seq<Handle>, chains2: Chains)
    requires g.Valid() && Fits(g, disk) && Fits(g, disk1) && Fits(g, disk2) && index < |handles|
    requires ValidState(g, disk, handles, chains)
             && OthersShown(g, disk, handles, chains, index, disk1, handles1, chains1)
    requires SameSlot(handles[index], chains, handles1[index])
    requires OthersShown(g, disk1, handles1, chains1, index, disk2, handles2, chains2)
    ensures OthersShown(g, disk, handles, chains, index, disk2, handles2, chains2)
  {
    hide ValidState, Fits, SizeOk, FileBytes, CursorOk, SameFile, SameSlot;
    forall k | 0 <= k < |handles| && k != index && handles[k].active && !SameFile(handles[index], handles[k])
      ensures StillShown(g, disk, chains, disk2, chains2, handles[k])
    {
      StillOther(g, disk, handles, chains, handles[index], handles1[index], k);
      assert StillShown(g, disk, chains, disk1, chains1, handles[k])
             && StillShown(g, disk1, chains1, disk2, chains2, handles1[k]);
    }
  }

  /** The frames of two writes through the same handle compose. */
  lemma FrameExtends(g: Geometry, disk: Disk, handles: seq<Handle>, chains: Chains, index: nat, disk1: Disk,
                     handles1: seq<Handle>, chains1: Chains, disk2: Disk, handles2: seq<Handle>, chains2: Chains)
    requires g.Valid() && Fits(g, disk) && Fits(g, disk1) && Fits(g, disk2) && index < |handles| == |handles1|
    requires ValidState(g, disk, handles, chains)
             && WriteFrame(g, disk, handles, chains, index, disk1, handles1, chains1)
    requires WriteFrame(g, disk1, handles1, chains1, index, disk2, handles2, chains2)
    ensures WriteFrame(g, disk, handles, chains, index, disk2, handles2, chains2)
  {
    hide ValidState, Volume, RootDirectory, Fits, SameDirectory, OthersShown;
    HandlesTwice(g, disk, handles, chains, index, disk1, handles1, chains1, disk2, handles2, chains2);
    SameDirectoryKeeps(g, disk, disk1);
    SameDirectoryTwice(g, disk, disk1, disk2);
  }
}
