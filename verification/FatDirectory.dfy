/**
 The root directory as a list of slots, and the finite map from names to files that it stands for.
 */
module FatDirectory {
  import opened Bytes
  import opened FatLayout

  const ENTRY_SIZE := 32
  const NAME_SIZE := 11
  const DELETED: byte := 0xE5
  const ATTR_ARCHIVE: byte := 0x20

  type Name = s: seq<byte> | |s| == NAME_SIZE witness seq(NAME_SIZE, _ => 0x20)

  /** The fields of a 32-byte directory slot that the driver looks at. */
  datatype DirEntry = DirEntry(name: Name, attributes: byte, start: nat, size: nat) {
    /** No slot from here on was ever used. */
    predicate EndMark() {
      name[0] == 0
    }

    predicate Live() {
      name[0] != 0 && name[0] != DELETED
    }

    /** A live slot that is neither a long-name part nor a volume label nor a directory. */
    predicate Regular() {
      && Live()
      && attributes % 16 != 15
      && attributes / 8 % 2 == 0
      && attributes / 16 % 2 == 0
    }
  }

  type Directory = seq<DirEntry>

  function DecodeEntry(sector: Sector, offset: nat): (e: DirEntry)
    requires offset + ENTRY_SIZE <= 512
    ensures e.start < 0x1_0000 && e.size < 0x1_0000_0000
  {
    DirEntry(sector[offset..offset + NAME_SIZE], sector[offset + 0x0B],
             ReadLe16(sector, offset + 0x1A), ReadLe32(sector, offset + 0x1C))
  }

  function SlotLba(g: Geometry, j: nat): nat {
    g.rootDirStart + j / 16
  }

  function SlotOffset(j: nat): (offset: nat)
    ensures offset + ENTRY_SIZE <= 512
  {
    j % 16 * ENTRY_SIZE
  }

  /** Slot `j` of the directory is at sector `j / 16`, byte `32 * (j % 16)`. */
  ghost function SlotEntry(g: Geometry, disk: Disk, j: nat): (e: DirEntry)
    requires g.Valid() && Fits(g, disk) && j < 16 * g.rootDirSectors
    ensures e.start < 0x1_0000 && e.size < 0x1_0000_0000
  {
    DecodeEntry(disk[SlotLba(g, j)], SlotOffset(j))
  }

  ghost function RootDirectory(g: Geometry, disk: Disk): (dir: Directory)
    requires g.Valid() && Fits(g, disk)
    ensures |dir| == 16 * g.rootDirSectors
    ensures forall j :: 0 <= j < |dir| ==> dir[j] == SlotEntry(g, disk, j)
  {
    seq(16 * g.rootDirSectors, j requires 0 <= j < 16 * g.rootDirSectors => SlotEntry(g, disk, j))
  }

  ghost predicate SameDirectory(g: Geometry, disk: Disk, disk': Disk) {
    |disk| == |disk'| && forall l :: 0 <= l < |disk| && g.rootDirStart <= l < g.dataStart ==> disk[l] == disk'[l]
  }

  lemma SameDirectoryKeeps(g: Geometry, disk: Disk, disk': Disk)
    requires g.Valid() && Fits(g, disk) && SameDirectory(g, disk, disk')
    ensures RootDirectory(g, disk') == RootDirectory(g, disk)
  {
  }

  /** Outside the 32 bytes from `at` on the two sectors are equal. */
  ghost predicate OnlySlotChanged(sector: Sector, sector': Sector, at: nat) {
    forall k :: 0 <= k < 512 && !(at <= k < at + ENTRY_SIZE) ==> sector'[k] == sector[k]
  }

  lemma OtherSlotKept(sector: Sector, sector': Sector, at: nat, offset: nat)
    requires OnlySlotChanged(sector, sector', at) && offset + ENTRY_SIZE <= 512
    requires offset + ENTRY_SIZE <= at || at + ENTRY_SIZE <= offset
    ensures DecodeEntry(sector', offset) == DecodeEntry(sector, offset)
  {
    assert sector'[offset..offset + NAME_SIZE] == sector[offset..offset + NAME_SIZE];
  }

  lemma SlotsApart(i: nat, j: nat)
    requires i != j && i / 16 == j / 16
    ensures SlotOffset(i) + ENTRY_SIZE <= SlotOffset(j) || SlotOffset(j) + ENTRY_SIZE <= SlotOffset(i)
  {
  }

  lemma OtherSlotEntry(g: Geometry, disk: Disk, disk': Disk, j: nat, sector: Sector, i: nat)
    requires g.Valid() && Fits(g, disk) && j < 16 * g.rootDirSectors && i < 16 * g.rootDirSectors && i != j
    requires disk' == disk[SlotLba(g, j) := sector]
    requires OnlySlotChanged(disk[SlotLba(g, j)], sector, SlotOffset(j))
    ensures SlotEntry(g, disk', i) == SlotEntry(g, disk, i)
  {
    if i / 16 == j / 16 {
      SlotsApart(i, j);
      OtherSlotKept(disk[SlotLba(g, j)], sector, SlotOffset(j), SlotOffset(i));
    }
  }

  /** Rewriting the 32 bytes of one slot changes one entry of the directory. */
  lemma SlotWritten(g: Geometry, disk: Disk, disk': Disk, j: nat, sector: Sector)
    requires g.Valid() && Fits(g, disk) && j < 16 * g.rootDirSectors
    requires disk' == disk[SlotLba(g, j) := sector]
    requires OnlySlotChanged(disk[SlotLba(g, j)], sector, SlotOffset(j))
    ensures RootDirectory(g, disk') == RootDirectory(g, disk)[j := DecodeEntry(sector, SlotOffset(j))]
  {
    forall i | 0 <= i < 16 * g.rootDirSectors && i != j
      ensures SlotEntry(g, disk', i) == SlotEntry(g, disk, i)
    {
      OtherSlotEntry(g, disk, disk', j, sector, i);
    }
  }

  // ---- what the scans compute ----

  /** The slot a lookup stops at: the first regular slot of that name before any end mark, or -1. */
  function Lookup(dir: Directory, name: Name, j: nat): (r: int)
    requires j <= |dir|
    ensures r == -1 || j <= r < |dir|
    decreases |dir| - j
  {
    if j == |dir| || dir[j].EndMark() then -1
    else if dir[j].Regular() && dir[j].name == name then j
    else Lookup(dir, name, j + 1)
  }

  /** The first slot that a new entry may take, or -1. */
  function FirstFree(dir: Directory, j: nat): (r: int)
    requires j <= |dir|
    ensures r == -1 || j <= r < |dir|
    decreases |dir| - j
  {
    if j == |dir| then -1
    else if !dir[j].Live() then j
    else FirstFree(dir, j + 1)
  }

  // ---- the map the directory stands for ----

  /** Nothing live follows the first end mark. */
  ghost predicate Clean(dir: Directory) {
    forall i, j :: 0 <= i < j < |dir| && dir[i].EndMark() ==> !dir[j].Live()
  }

  ghost predicate UniqueNames(dir: Directory) {
    forall i, j :: 0 <= i < j < |dir| && dir[i].Regular() && dir[j].Regular() ==> dir[i].name != dir[j].name
  }

  ghost predicate WellFormed(dir: Directory) {
    Clean(dir) && UniqueNames(dir)
  }

  ghost predicate Holds(dir: Directory, j: int, name: Name) {
    0 <= j < |dir| && dir[j].Regular() && dir[j].name == name
  }

  ghost function Names(dir: Directory): set<Name> {
    set j | 0 <= j < |dir| && dir[j].Regular() :: dir[j].name
  }

  ghost function FileNamed(dir: Directory, name: Name): (nat, nat)
    requires name in Names(dir)
  {
    assert exists j :: Holds(dir, j, name) by {
      var j :| 0 <= j < |dir| && dir[j].Regular() && dir[j].name == name;
      assert Holds(dir, j, name);
    }
    var j :| Holds(dir, j, name); (dir[j].start, dir[j].size)
  }

  /** Start cluster and size of every regular file, by name. */
  ghost function Files(dir: Directory): map<Name, (nat, nat)> {
    map name | name in Names(dir) :: FileNamed(dir, name)
  }

  lemma FilesAt(dir: Directory, j: nat)
    requires UniqueNames(dir) && j < |dir| && dir[j].Regular()
    ensures dir[j].name in Files(dir) && Files(dir)[dir[j].name] == (dir[j].start, dir[j].size)
  {
    assert dir[j].name in Names(dir);
    assert forall i :: Holds(dir, i, dir[j].name) ==> i == j;
  }

  lemma FilesOnly(dir: Directory, name: Name)
    ensures name in Files(dir) <==> exists j :: Holds(dir, j, name)
  {
    if name in Names(dir) {
      var j :| 0 <= j < |dir| && dir[j].Regular() && dir[j].name == name;
      assert Holds(dir, j, name);
    }
    if j :| Holds(dir, j, name) {
      assert dir[j].name in Names(dir);
    }
  }

  /** A lookup finds the slot of a name exactly when the map has the name. */
  lemma {:induction false} LookupFinds(dir: Directory, name: Name, j: nat)
    requires Clean(dir) && j <= |dir|
    requires forall i :: 0 <= i < j ==> !Holds(dir, i, name) && !dir[i].EndMark()
    ensures Lookup(dir, name, j) >= 0 ==> Holds(dir, Lookup(dir, name, j), name)
    ensures Lookup(dir, name, j) == -1 ==> forall i :: !Holds(dir, i, name)
    decreases |dir| - j
  {
    if j < |dir| && !dir[j].EndMark() && !Holds(dir, j, name) {
      LookupFinds(dir, name, j + 1);
    }
  }

  lemma {:induction false} LookupAgrees(dir: Directory, name: Name)
    requires WellFormed(dir)
    ensures Lookup(dir, name, 0) >= 0 <==> name in Files(dir)
    ensures Lookup(dir, name, 0) >= 0 ==>
              var e := dir[Lookup(dir, name, 0)];
              e.name == name && e.Regular() && Files(dir)[name] == (e.start, e.size)
  {
    LookupFinds(dir, name, 0);
    FilesOnly(dir, name);
    if Lookup(dir, name, 0) >= 0 {
      FilesAt(dir, Lookup(dir, name, 0));
    }
  }

  lemma {:induction false} FirstFreeIsFirst(dir: Directory, j: nat)
    requires j <= |dir|
    ensures FirstFree(dir, j) == -1 ==> forall i :: j <= i < |dir| ==> dir[i].Live()
    ensures FirstFree(dir, j) >= 0 ==>
              !dir[FirstFree(dir, j)].Live() && forall i :: j <= i < FirstFree(dir, j) ==> dir[i].Live()
    decreases |dir| - j
  {
    if j < |dir| && dir[j].Live() {
      FirstFreeIsFirst(dir, j + 1);
    }
  }

  /** The part of the map that one slot accounts for. */
  ghost function SlotFile(e: DirEntry): map<Name, (nat, nat)> {
    if e.Regular() then map[e.name := (e.start, e.size)] else map[]
  }

  ghost function Replaced(files: map<Name, (nat, nat)>, e: DirEntry, e': DirEntry): map<Name, (nat, nat)> {
    (files - SlotFile(e).Keys) + SlotFile(e')
  }

  lemma ReplacedIs(files: map<Name, (nat, nat)>, e: DirEntry, e': DirEntry)
    ensures !e.Regular() && !e'.Regular() ==> Replaced(files, e, e') == files
    ensures e.Regular() && !e'.Regular() ==> Replaced(files, e, e') == files - {e.name}
    ensures e'.Regular() && (e.Regular() ==> e.name == e'.name) ==>
              Replaced(files, e, e') == files[e'.name := (e'.start, e'.size)]
  {
  }

  lemma FileElsewhere(dir: Directory, dir': Directory, j: nat, name: Name)
    requires UniqueNames(dir) && UniqueNames(dir') && j < |dir| == |dir'|
    requires forall i :: 0 <= i < |dir| && i != j ==> dir'[i] == dir[i]
    requires !Holds(dir', j, name)
    ensures name in Files(dir') <==> name in Files(dir) && !Holds(dir, j, name)
    ensures name in Files(dir') ==> Files(dir')[name] == Files(dir)[name]
  {
    FilesOnly(dir, name);
    FilesOnly(dir', name);
    if i :| Holds(dir', i, name) {
      assert Holds(dir, i, name);
      FilesAt(dir', i);
      FilesAt(dir, i);
    } else {
      assert forall i :: Holds(dir, i, name) && i != j ==> Holds(dir', i, name);
    }
  }

  lemma SameMap<K, V>(m: map<K, V>, m': map<K, V>)
    requires forall k :: k in m <==> k in m'
    requires forall k :: k in m ==> m[k] == m'[k]
    ensures m == m'
  {
  }

  /** Changing one slot removes the file it held and adds the file it holds now. */
  lemma FilesChangedAt(dir: Directory, dir': Directory, j: nat)
    requires UniqueNames(dir) && UniqueNames(dir') && j < |dir| == |dir'|
    requires forall i :: 0 <= i < |dir| && i != j ==> dir'[i] == dir[i]
    ensures Files(dir') == Replaced(Files(dir), dir[j], dir'[j])
  {
    var m, m' := Files(dir), Files(dir');
    forall name: Name
      ensures name in m' <==> name in Replaced(m, dir[j], dir'[j])
      ensures name in m' ==> m'[name] == Replaced(m, dir[j], dir'[j])[name]
    {
      if Holds(dir', j, name) {
        FilesAt(dir', j);
      } else {
        FileElsewhere(dir, dir', j, name);
      }
    }
    SameMap(m', Replaced(m, dir[j], dir'[j]));
  }

  /** When a slot may be given a new entry. */
  lemma SlotChangeKeeps(dir: Directory, j: nat, e: DirEntry)
    requires WellFormed(dir) && j < |dir|
    requires e.EndMark() ==> dir[j].EndMark()
    requires e.Live() ==> forall i :: 0 <= i < j ==> !dir[i].EndMark()
    requires e.Regular() ==> forall i :: 0 <= i < |dir| && i != j ==> !Holds(dir, i, e.name)
    ensures WellFormed(dir[j := e])
  {
    var dir' := dir[j := e];
    forall i, k | 0 <= i < k < |dir'| && dir'[i].Regular() && dir'[k].Regular()
      ensures dir'[i].name != dir'[k].name
    {
      assert !Holds(dir, if i == j then k else i, e.name) || (i != j && k != j);
    }
  }

  function NewEntry(name: Name): DirEntry {
    DirEntry(name, ATTR_ARCHIVE, 0, 0)
  }

  /** Creating adds an empty file under a name that was absent; a name whose first byte reads as "deleted" is lost. */
  lemma CreateAdds(dir: Directory, name: Name)
    requires WellFormed(dir) && name[0] != 0
    requires Lookup(dir, name, 0) == -1 && FirstFree(dir, 0) >= 0
    ensures WellFormed(dir[FirstFree(dir, 0) := NewEntry(name)])
    ensures Files(dir[FirstFree(dir, 0) := NewEntry(name)])
         == if name[0] == DELETED then Files(dir) else Files(dir)[name := (0, 0)]
  {
    var j := FirstFree(dir, 0);
    FirstFreeIsFirst(dir, 0);
    LookupFinds(dir, name, 0);
    SlotChangeKeeps(dir, j, NewEntry(name));
    FilesChangedAt(dir, dir[j := NewEntry(name)], j);
    ReplacedIs(Files(dir), dir[j], NewEntry(name));
  }

  function Erased(e: DirEntry): DirEntry {
    e.(name := e.name[0 := DELETED])
  }

  /** Deleting removes exactly the name that was looked up. */
  lemma DeleteRemoves(dir: Directory, name: Name)
    requires WellFormed(dir) && Lookup(dir, name, 0) >= 0
    ensures var j := Lookup(dir, name, 0);
            WellFormed(dir[j := Erased(dir[j])]) && Files(dir[j := Erased(dir[j])]) == Files(dir) - {name}
  {
    var j := Lookup(dir, name, 0);
    LookupFinds(dir, name, 0);
    SlotChangeKeeps(dir, j, Erased(dir[j]));
    FilesChangedAt(dir, dir[j := Erased(dir[j])], j);
    ReplacedIs(Files(dir), dir[j], Erased(dir[j]));
  }

  function Sized(e: DirEntry, start: nat, size: nat): DirEntry {
    e.(start := start, size := size)
  }

  /** Storing start cluster and size in a slot updates the file of that slot, if it still has one. */
  lemma UpdateStores(dir: Directory, j: nat, start: nat, size: nat)
    requires WellFormed(dir) && j < |dir|
    ensures WellFormed(dir[j := Sized(dir[j], start, size)])
    ensures Files(dir[j := Sized(dir[j], start, size)])
         == if dir[j].Regular() then Files(dir)[dir[j].name := (start, size)] else Files(dir)
  {
    var dir' := dir[j := Sized(dir[j], start, size)];
    if dir[j].Regular() {
      FilesAt(dir, j);
    }
    SlotChangeKeeps(dir, j, Sized(dir[j], start, size));
    FilesChangedAt(dir, dir', j);
    ReplacedIs(Files(dir), dir[j], dir'[j]);
  }

  /** Some slot may take a new entry. */
  ghost predicate HasRoom(dir: Directory) {
    exists j :: 0 <= j < |dir| && !dir[j].Live()
  }

  lemma {:induction false} RoomIsFirstFree(dir: Directory)
    ensures HasRoom(dir) <==> FirstFree(dir, 0) >= 0
  {
    FirstFreeIsFirst(dir, 0);
  }

  /** The directory after an entry of that name was put into the first slot with room. */
  ghost predicate Adds(dir: Directory, name: Name, dir': Directory) {
    0 <= FirstFree(dir, 0) < |dir| && dir' == dir[FirstFree(dir, 0) := NewEntry(name)]
  }

  /** An added file is empty; a name whose first byte means "deleted" is lost. */
  ghost function AddedFile(files: map<Name, (nat, nat)>, name: Name): map<Name, (nat, nat)> {
    if name[0] == DELETED then files else files[name := (0, 0)]
  }

  /** The driver opens a file unless it claims bytes but has no cluster. */
  ghost predicate CanOpen(dir: Directory, name: Name) {
    name in Files(dir) && (Files(dir)[name].1 == 0 || Files(dir)[name].0 >= CLUSTER_MIN)
  }

  // ---- the bytes of a slot ----

  /** The 32 bytes of a fresh entry: name, archive attribute, and zero in every other field. */
  function NewSlot(name: Name): (slot: seq<byte>)
    ensures |slot| == ENTRY_SIZE
  {
    name + [ATTR_ARCHIVE] + seq(20, _ => 0)
  }

  lemma CreatedSlot(sector: Sector, at: nat, name: Name)
    requires at + ENTRY_SIZE <= 512
    ensures var sector' := Splice(sector, at, NewSlot(name));
            DecodeEntry(sector', at) == NewEntry(name) && OnlySlotChanged(sector, sector', at)
  {
    var sector' := Splice(sector, at, NewSlot(name));
    assert forall k :: 0 <= k < ENTRY_SIZE ==> sector'[at + k] == NewSlot(name)[k];
    assert sector'[at..at + NAME_SIZE] == name;
  }

  lemma DeletedSlot(sector: Sector, at: nat)
    requires at + ENTRY_SIZE <= 512
    ensures var sector' := sector[at := DELETED];
            DecodeEntry(sector', at) == Erased(DecodeEntry(sector, at)) && OnlySlotChanged(sector, sector', at)
  {
    var sector' := sector[at := DELETED];
    assert sector'[at..at + NAME_SIZE] == sector[at..at + NAME_SIZE][0 := DELETED];
  }

  lemma UpdatedSlot(sector: Sector, at: nat, start: nat, size: nat)
    requires at + ENTRY_SIZE <= 512 && start < 0x1_0000 && size < 0x1_0000_0000
    ensures var sector' := WriteLe32(WriteLe16(sector, at + 0x1A, start), at + 0x1C, size);
            DecodeEntry(sector', at) == Sized(DecodeEntry(sector, at), start, size)
            && OnlySlotChanged(sector, sector', at)
  {
    var sector1 := WriteLe16(sector, at + 0x1A, start);
    var sector' := WriteLe32(sector1, at + 0x1C, size);
    Le16RoundTrip(sector, at + 0x1A, start);
    Le32RoundTrip(sector1, at + 0x1C, size);
    hide WriteLe16, WriteLe32, ReadLe32;
    assert sector'[at..at + NAME_SIZE] == sector[at..at + NAME_SIZE];
  }

  /** Slot `16 * s + offset / 32` as the scans address it. */
  lemma ScannedSlot(g: Geometry, disk: Disk, s: nat, offset: nat)
    requires g.Valid() && Fits(g, disk) && s < g.rootDirSectors && offset < 512 && offset % ENTRY_SIZE == 0
    ensures var j := 16 * s + offset / ENTRY_SIZE;
            && j < 16 * g.rootDirSectors && SlotLba(g, j) == g.rootDirStart + s && SlotOffset(j) == offset
            && SlotEntry(g, disk, j) == DecodeEntry(disk[g.rootDirStart + s], offset)
  {
    hide DecodeEntry;
    var j := 16 * s + offset / ENTRY_SIZE;
    assert j / 16 == s && j % 16 == offset / ENTRY_SIZE;
  }

  /** What a scan sees at `offset` of sector `s` is entry `16 * s + offset / 32` of the directory. */
  lemma ScannedEntry(g: Geometry, disk: Disk, s: nat, offset: nat)
    requires g.Valid() && Fits(g, disk) && s < g.rootDirSectors && offset < 512 && offset % ENTRY_SIZE == 0
    ensures g.rootDirStart + s < |disk| && offset + ENTRY_SIZE <= 512
    ensures var j := 16 * s + offset / ENTRY_SIZE;
            j < |RootDirectory(g, disk)| && SlotLba(g, j) == g.rootDirStart + s && SlotOffset(j) == offset
    ensures var sector, e := disk[g.rootDirStart + s], RootDirectory(g, disk)[16 * s + offset / ENTRY_SIZE];
            && e.name == sector[offset..offset + NAME_SIZE] && e.name[0] == sector[offset]
            && e.attributes == sector[offset + 0x0B]
            && e.start == ReadLe16(sector, offset + 0x1A) && e.size == ReadLe32(sector, offset + 0x1C)
  {
    ScannedSlot(g, disk, s, offset);
    hide ReadLe16, ReadLe32;
  }

  /** The test of the name scan on a slot. */
  predicate SlotMatches(sector: Sector, offset: nat, name: Name)
    requires offset + ENTRY_SIZE <= 512
  {
    var attributes := sector[offset + 0x0B];
    && sector[offset] != 0x00 && sector[offset] != DELETED
    && attributes % 16 != 15 && attributes / 8 % 2 == 0 && attributes / 16 % 2 == 0
    && sector[offset..offset + NAME_SIZE] == name
  }

  /** One round of the name scan. */
  lemma LookupStep(g: Geometry, disk: Disk, s: nat, offset: nat, name: Name)
    requires g.Valid() && Fits(g, disk) && s < g.rootDirSectors && offset < 512 && offset % ENTRY_SIZE == 0
    ensures g.rootDirStart + s < |disk| && offset + ENTRY_SIZE <= 512
    ensures 16 * s + (offset + ENTRY_SIZE) / ENTRY_SIZE <= |RootDirectory(g, disk)|
    ensures var sector, dir, j := disk[g.rootDirStart + s], RootDirectory(g, disk), 16 * s + offset / ENTRY_SIZE;
            && j < |dir|
            && (sector[offset] == 0x00 ==> Lookup(dir, name, j) == -1)
            && (SlotMatches(sector, offset, name) ==>
                  && Lookup(dir, name, j) == j && SlotLba(g, j) == g.rootDirStart + s && SlotOffset(j) == offset
                  && dir[j].start == ReadLe16(sector, offset + 0x1A) && dir[j].size == ReadLe32(sector, offset + 0x1C))
            && (sector[offset] != 0x00 && !SlotMatches(sector, offset, name) ==>
                  Lookup(dir, name, j) == Lookup(dir, name, 16 * s + (offset + ENTRY_SIZE) / ENTRY_SIZE))
  {
    hide RootDirectory, Geometry.Valid, Fits, ReadLe16, ReadLe32, SlotLba, SlotOffset;
    ScannedEntry(g, disk, s, offset);
    assert (offset + ENTRY_SIZE) / ENTRY_SIZE == offset / ENTRY_SIZE + 1;
  }

  /** One round of the scan for a free slot. */
  lemma FirstFreeStep(g: Geometry, disk: Disk, s: nat, offset: nat)
    requires g.Valid() && Fits(g, disk) && s < g.rootDirSectors && offset < 512 && offset % ENTRY_SIZE == 0
    ensures g.rootDirStart + s < |disk| && offset + ENTRY_SIZE <= 512
    ensures 16 * s + (offset + ENTRY_SIZE) / ENTRY_SIZE <= |RootDirectory(g, disk)|
    ensures var sector, dir, j := disk[g.rootDirStart + s], RootDirectory(g, disk), 16 * s + offset / ENTRY_SIZE;
            && j < |dir|
            && if sector[offset] == 0x00 || sector[offset] == DELETED
               then FirstFree(dir, j) == j && SlotLba(g, j) == g.rootDirStart + s && SlotOffset(j) == offset
               else FirstFree(dir, j) == FirstFree(dir, 16 * s + (offset + ENTRY_SIZE) / ENTRY_SIZE)
  {
    hide RootDirectory, Geometry.Valid, Fits, ReadLe16, ReadLe32, SlotLba, SlotOffset;
    ScannedEntry(g, disk, s, offset);
    assert (offset + ENTRY_SIZE) / ENTRY_SIZE == offset / ENTRY_SIZE + 1;
  }

  lemma {:induction false} ScanEnds(g: Geometry, disk: Disk, name: Name)
    requires g.Valid() && Fits(g, disk)
    ensures 16 * g.rootDirSectors == |RootDirectory(g, disk)|
    ensures Lookup(RootDirectory(g, disk), name, 16 * g.rootDirSectors) == -1
    ensures FirstFree(RootDirectory(g, disk), 16 * g.rootDirSectors) == -1
  {
  }
}
