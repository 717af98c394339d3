/** The file system: named files of fixed size, opened by reference-counted
    handles, removed when the last handle goes. */
module FileSystems {
  import opened Containers
  import opened Numbers
  import opened Bits
  import opened Bytes
  import opened Devices
  import opened Directories
  import opened Bitmaps
  import opened Volumes
  import opened FreeMaps
  import opened FileTables
  import opened FileStates
  import opened Formatting

  /** The bytes of every live file are kept. */
  ghost predicate KeptFiles(was: seq<Byte>, now: seq<Byte>, live: set<nat>) {
    |now| == |was| && forall t {:trigger Kept(was, now, t)} :: t in live && t >= 2 ==> Kept(was, now, t)
  }

  lemma KeptFilesOnward(a: seq<Byte>, b: seq<Byte>, c: seq<Byte>, live: set<nat>)
    requires KeptFiles(a, b, live) && KeptFiles(b, c, live)
    ensures KeptFiles(a, c, live)
  {
    forall t | t in live && t >= 2 ensures Kept(a, c, t) {
      assert Kept(a, b, t) && Kept(b, c, t);
    }
  }

  lemma KeptButMapKeepsFiles(was: seq<Byte>, now: seq<Byte>, live: set<nat>)
    requires KeptButMap(was, now, live)
    ensures KeptFiles(was, now, live)
  {
  }

  /** The state after a reference is given up: when it was the last one to a removed
      file, and only then, the file's sectors are released. */
  ghost predicate GaveUp(a: State, b: State, i: nat)
    requires i in a.nodes && a.nodes[i].openCnt > 0
  {
    var n := a.nodes[i];
    if n.openCnt == 1 && n.removed then
      && b == Closed(a, i).(bytes := b.bytes, used := b.used, words := b.words)
      && n.sector < |a.used| && n.data.start + SectorsFor(n.data.length) <= |a.used|
      && b.used == Fill(Fill(a.used, n.sector, 1, false), n.data.start, SectorsFor(n.data.length), false)
      && KeptButMap(a.bytes, b.bytes, LiveIn(a) - {n.sector}) && RootRows(b.bytes) == RootRows(a.bytes)
    else b == Closed(a, i)
  }

  /** The inode in sector s and its data are on the device. */
  ghost predicate Fits(bytes: seq<Byte>, s: nat) {
    && SECTOR_SIZE * s + SECTOR_SIZE <= |bytes|
    && SECTOR_SIZE * NodeAt(bytes, s).start + NodeAt(bytes, s).length <= |bytes|
  }

  /** A read moved exactly the bytes of the flat file. */
  ghost predicate HasReadFile(st: State, f: nat, was: seq<Byte>, now: seq<Byte>, size: int, offset: nat, n: nat) {
    && f in st.files && st.files[f].inode in st.nodes
    && var s := st.nodes[st.files[f].inode].sector;
       && Fits(st.bytes, s)
       && n == Count(size, |DataOf(st.bytes, s)|, offset) <= |was|
       && now == Patch(was, 0, Take(DataOf(st.bytes, s), offset, n))
  }

  /** A write, none when some file denies it, changed the file as a flat array and
      nothing else that is live. */
  ghost predicate HasWrittenFile(a: State, b: State, f: nat, buffer: seq<Byte>, size: int, offset: nat, n: nat) {
    && f in a.files && a.files[f].inode in a.nodes && b == a.(bytes := b.bytes)
    && LiveIn(b) == LiveIn(a) && Directory(b.bytes) == Directory(a.bytes)
    && var node := a.nodes[a.files[f].inode];
       var s := node.sector;
       && Fits(a.bytes, s) && Fits(b.bytes, s) && n <= |buffer|
       && n == (if node.denyCnt > 0 then 0 else Count(size, |DataOf(a.bytes, s)|, offset))
       && DataOf(b.bytes, s) == Written(DataOf(a.bytes, s), offset, buffer, n)
       && forall t {:trigger Kept(a.bytes, b.bytes, t)} :: t in LiveIn(a) && t != s ==> Kept(a.bytes, b.bytes, t)
  }

  /** The bytes of the file whose inode is in sector s, if it is on the device. */
  ghost function FileBytes(bytes: seq<Byte>, s: nat): seq<Byte> {
    if Fits(bytes, s) then DataOf(bytes, s) else []
  }

  /** The free map and its file changed, and nothing live. */
  ghost predicate MapStep(a: State, b: State) {
    && b == a.(bytes := b.bytes, used := b.used, words := b.words)
    && LiveIn(b) == LiveIn(a) && Directory(b.bytes) == Directory(a.bytes) && RootRows(b.bytes) == RootRows(a.bytes)
    && KeptFiles(a.bytes, b.bytes, LiveIn(a))
  }

  /** A new name can be added: it is proper and absent, and a slot is free. */
  ghost predicate CanName(st: State, name: seq<Byte>) {
    && 0 < |name| <= NAME_MAX && name !in Directory(st.bytes)
    && exists k :: 0 <= k < |RootRows(st.bytes)| && RootRows(st.bytes)[k].Free?
  }

  /** First fit finds a sector for the inode at s, and then room for the data at d. */
  ghost predicate Rooms(used: seq<bool>, size: nat, s: nat, d: nat) {
    && s < |used| && IsFirstFit(used, 0, 1, false, Some(s))
    && d + SectorsFor(size) <= |used|
    && IsFirstFit(Fill(used, s, 1, true), 0, SectorsFor(size), false, Some(d))
  }

  ghost predicate RoomFor(used: seq<bool>, size: nat) {
    exists s, d :: Rooms(used, size, s, d)
  }

  ghost predicate StoredAt(bytes: seq<Byte>, s: nat, x: Extent) {
    SECTOR_SIZE * s + SECTOR_SIZE <= |bytes| && NodeAt(bytes, s) == x
  }

  /** A file of zeros now has the name, in an inode that was not live; its inode sector s
      and its data from d on are what first fit finds, and all that was marked. */
  ghost predicate Created(a: State, b: State, name: seq<Byte>, size: nat, s: nat, d: nat) {
    && Rooms(a.used, size, s, d) && b.used == Fill(Fill(a.used, s, 1, true), d, SectorsFor(size), true)
    && StoredAt(b.bytes, s, Extent(d, size))
    && s >= 2 && s !in LiveIn(a) && LiveIn(b) == LiveIn(a) + {s}
    && Directory(b.bytes) == Directory(a.bytes)[name := s]
    && FileBytes(b.bytes, s) == Zeros(size)
  }

  /** Creation succeeds just when the name can be added and there is room; if it
      fails for the name alone, the sectors for the data stay marked. */
  ghost predicate Made(a: State, b: State, name: seq<Byte>, size: nat, ok: bool) {
    && b == a.(bytes := b.bytes, used := b.used, words := b.words)
    && KeptFiles(a.bytes, b.bytes, LiveIn(a))
    && (ok <==> CanName(a, name) && RoomFor(a.used, size))
    && (ok ==> exists s, d :: Created(a, b, name, size, s, d))
    && (!ok ==> LiveIn(b) == LiveIn(a) && Directory(b.bytes) == Directory(a.bytes))
    && (!ok && !RoomFor(a.used, size) ==> b.used == a.used)
    && (!ok && RoomFor(a.used, size) ==>
          exists s, d :: Rooms(a.used, size, s, d) && b.used == Fill(a.used, d, SectorsFor(size), true))
  }

  /** The root directory was read in, and is open once. */
  ghost predicate OpenedRoot(a: State, o: State) {
    && 2 * SECTOR_SIZE <= |a.bytes| && o == Opened(a, ROOT_DIR_SECTOR) && LiveIn(o) == LiveIn(a)
    && a.raw == multiset{} && a.nextId !in a.nodes
  }

  /** Slot k of the root directory holds the name, for the sector in e. */
  ghost predicate FoundAt(st: State, name: seq<Byte>, k: nat, e: seq<Byte>) {
    && |e| == SLOT_SIZE && name in Directory(st.bytes) && Directory(st.bytes)[name] == SectorOf(e)
    && Holds(RootRows(st.bytes), k, name)
  }

  /** The state after opening a sector: one more reference to the inode in memory,
      or the inode read in. */
  ghost predicate OneMoreOpen(a: State, b: State, s: nat, i: nat) {
    && b.bytes == a.bytes && b.used == a.used && b.words == a.words
    && i in b.nodes && b.nodes[i].sector == s && b.nodes.Keys == a.nodes.Keys + {i}
    && (if i in a.nodes then b.nodes[i] == a.nodes[i].(openCnt := a.nodes[i].openCnt + 1)
        else b.nodes[i].openCnt == 1 && !b.nodes[i].removed && b.nodes[i].denyCnt == 0)
    && (forall j :: j in a.nodes && j != i ==> b.nodes[j] == a.nodes[j])
    && LiveIn(b) == LiveIn(a)
  }

  /** A new file, at position 0, on the inode the name leads to. */
  ghost predicate HasOpened(a: State, b: State, name: seq<Byte>, f: nat) {
    && name in Directory(a.bytes) && f !in a.files && f in b.files
    && b.files == a.files[f := File(b.files[f].inode, 0, false)]
    && OneMoreOpen(a, b, Directory(a.bytes)[name], b.files[f].inode)
  }

  /** The name is gone, and the open inode it led to is marked removed. */
  ghost predicate HasUnlinked(a: State, b: State, name: seq<Byte>, i: nat) {
    && i in a.nodes && b == a.(bytes := b.bytes, nodes := a.nodes[i := a.nodes[i].(removed := true)])
    && Directory(b.bytes) == Directory(a.bytes) - {name}
    && LiveIn(b) == LiveIn(a) && KeptFiles(a.bytes, b.bytes, LiveIn(a))
  }

  /** The name is gone and every other live file is kept. A file that is open stays
      live, marked removed, with its sectors; any other is released whole. */
  ghost predicate HasRemoved(a: State, b: State, name: seq<Byte>) {
    && name in Directory(a.bytes) && Directory(b.bytes) == Directory(a.bytes) - {name} && b.files == a.files
    && KeptFiles(a.bytes, b.bytes, LiveIn(b))
    && var s := Directory(a.bytes)[name];
       if s in OpenSectors(a.nodes) then
         && b.used == a.used && LiveIn(b) == LiveIn(a)
         && exists i :: i in a.nodes && a.nodes[i].sector == s && b.nodes == a.nodes[i := a.nodes[i].(removed := true)]
       else
         && b.nodes == a.nodes && LiveIn(b) == LiveIn(a) - {s} && Released(a, b.used, s)
  }

  /** The map with the inode sector s and its data sectors taken back. */
  ghost predicate Released(a: State, used: seq<bool>, s: nat) {
    && SECTOR_SIZE * s + SECTOR_SIZE <= |a.bytes| && s < |a.used|
    && var x := NodeAt(a.bytes, s);
       && x.start + SectorsFor(x.length) <= |a.used|
       && used == Fill(Fill(a.used, s, 1, false), x.start, SectorsFor(x.length), false)
  }

  /** A device that can be mounted: its map, as saved, has every named file's sectors
      marked, and no two of them share any. */
  ghost predicate Mountable(bytes: seq<Byte>, words: seq<nat>, sectors: nat) {
    && Tidy(words, sectors) && Saved(bytes, words) && RootOk(bytes) && 2 * SECTOR_SIZE <= |bytes|
    && NodeAt(bytes, FREE_MAP_SECTOR).length == 4 * |words| && DirectoryOk(Directory(bytes))
    && Sound(bytes, BitsOf(words, sectors), Named(bytes))
  }

  lemma MapIsStored(bytes: seq<Byte>, words: seq<nat>, sectors: nat)
    requires Mountable(bytes, words, sectors)
    ensures SECTOR_SIZE <= |bytes| && Saved(bytes, words) && Tidy(words, sectors)
    ensures OnDevice(bytes, NodeAt(bytes, FREE_MAP_SECTOR).start, NodeAt(bytes, FREE_MAP_SECTOR).length)
  {
    hide BitsOf, Directory, RootOk, Saved;
    assert Marked(bytes, BitsOf(words, sectors), FREE_MAP_SECTOR);
    MarkedFits(bytes, BitsOf(words, sectors), FREE_MAP_SECTOR);
  }

  /** free_map_open: the map's inode is read, and then the map. */
  method OpenMap(dev: Device, freeMap: Bitmap, ghost words: seq<nat>) returns (data: Extent)
    requires freeMap.Valid() && Mountable(dev.bytes, words, freeMap.bitCnt)
    modifies freeMap.bits
    ensures freeMap.Valid() && freeMap.bits[..] == words && SECTOR_SIZE <= |dev.bytes|
    ensures data == NodeAt(dev.bytes, FREE_MAP_SECTOR)
  {
    hide Mountable, NodeAt;
    MapIsStored(dev.bytes, words, freeMap.bitCnt);
    StoredNode(dev.bytes, FREE_MAP_SECTOR);
    var sector := dev.Read(FREE_MAP_SECTOR);
    data := Extent(Word(sector[..4]), Word(sector[4..8]));
    var _ := ReadMap(dev, freeMap, data, words);
  }

  class FileSystem {
    const dev: Device
    const freeMap: Bitmap
    var nodes: map<nat, Inode>
    var list: seq<nat>
    var files: map<nat, File>
    var mapFile: nat
    var nextId: nat
    ghost var raw: multiset<nat>

    ghost function St(): State
      requires freeMap.Valid()
      reads this, dev, freeMap, freeMap.bits
    {
      State(dev.bytes, freeMap.Contents(), freeMap.bits[..], nodes, list, files, mapFile, nextId, raw)
    }

    ghost predicate Valid()
      reads this, dev, freeMap, freeMap.bits
    {
      freeMap.Valid() && Inv(St())
    }

    /** filesys_init on a formatted device: opens the map's file and reads the map. */
    constructor (dev: Device, freeMap: Bitmap, ghost words: seq<nat>)
      requires freeMap.Valid() && Mountable(dev.bytes, words, freeMap.bitCnt)
      modifies freeMap.bits
      ensures Valid() && this.dev == dev && this.freeMap == freeMap && freeMap.bits[..] == words
      ensures raw == multiset{} && files.Keys == {mapFile}
    {
      hide *;
      var data := OpenMap(dev, freeMap, words);
      this.dev := dev;
      this.freeMap := freeMap;
      nodes := map[0 := Inode(FREE_MAP_SECTOR, 1, false, 0, data)];
      list := [0];
      files := map[1 := File(0, 0, false)];
      mapFile, nextId, raw := 1, 2, multiset{};
      new;
      OpenedMap(this, words);
    }

    /** The in-memory inode of a sector, if it is open. */
    method FindOpen(s: nat) returns (found: Option<nat>)
      requires Valid()
      ensures found.Some? ==> found.value in nodes && nodes[found.value].sector == s
      ensures found.None? ==> forall j :: j in nodes ==> nodes[j].sector != s
    {
      hide VolOk, Saved, MapHandle;
      var k := 0;
      while k < |list|
        invariant k <= |list|
        invariant forall j :: 0 <= j < k ==> list[j] in nodes && nodes[list[j]].sector != s
      {
        assert list[k] in nodes;
        if nodes[list[k]].sector == s {
          return Some(list[k]);
        }
        k := k + 1;
      }
      found := None;
    }

    /** Opens the inode of a named sector: the one in memory if there is one. */
    method InodeOpen(s: nat) returns (i: nat)
      requires Valid() && s in Named(dev.bytes)
      modifies this`nodes, this`list, this`raw, this`nextId
      ensures Valid() && i in nodes && nodes[i].sector == s && LiveIn(St()) == LiveIn(old(St()))
      ensures if i in old(nodes) then St() == Reopened(old(St()), i) else
        && SECTOR_SIZE * s + SECTOR_SIZE <= |dev.bytes|
        && i == old(nextId) && St() == Opened(old(St()), s)
        && forall j :: j in old(nodes) ==> old(nodes)[j].sector != s
    {
      hide Inv, LiveIn, Named, NodeAt;
      var found := FindOpen(s);
      if found.Some? {
        i := found.value;
        InodeReopen(i);
      } else {
        i := nextId;
        OpenedKeeps(St(), s);
        IdIsNew(St());
        StoredNode(dev.bytes, s);
        var sector := dev.Read(s);
        nodes := nodes[i := Inode(s, 1, false, 0, Extent(Word(sector[..4]), Word(sector[4..8])))];
        list := [i] + list;
        raw := raw + multiset{i};
        nextId := nextId + 1;
      }
    }

    method InodeReopen(i: nat)
      requires Valid() && i in nodes
      modifies this`nodes, this`raw
      ensures Valid() && St() == Reopened(old(St()), i) && LiveIn(St()) == LiveIn(old(St()))
    {
      hide Inv, LiveIn;
      ReopenedKeeps(St(), i);
      nodes := nodes[i := nodes[i].(openCnt := nodes[i].openCnt + 1)];
      raw := raw + multiset{i};
    }

    /** Gives one reference up. */
    method InodeClose(i: nat)
      requires Valid() && i in raw
      modifies this`nodes, this`list, this`raw, dev, freeMap.bits
      ensures Valid() && i in old(nodes) && old(nodes)[i].openCnt > 0 && GaveUp(old(St()), St(), i)
    {
      hide Inv, LiveIn, NodeAt, Ready;
      ghost var st := St();
      RawIsOpen(st, i);
      ClosedKeeps(st, i);
      var node := nodes[i];
      if node.openCnt > 1 {
        nodes := nodes[i := node.(openCnt := node.openCnt - 1)];
        raw := raw - multiset{i};
      } else {
        NodeIsLive(st, i);
        ClosedIsReady(st, i);
        list := Unlisted(list, i);
        nodes := nodes - {i};
        raw := raw - multiset{i};
        if node.removed {
          ReleaseFile(node);
        }
      }
    }

    /** Releases the inode sector and the data of a file that is no longer live. */
    method ReleaseFile(node: Inode)
      requires Valid() && Ready(dev.bytes, freeMap.Contents(), LiveIn(St()), node.sector)
      requires node.data == NodeAt(dev.bytes, node.sector)
      modifies dev, freeMap.bits
      ensures Valid() && LiveIn(St()) == LiveIn(old(St()))
      ensures RootRows(dev.bytes) == RootRows(old(dev.bytes)) && KeptButMap(old(dev.bytes), dev.bytes, LiveIn(St()))
      ensures node.sector < |old(freeMap.Contents())|
      ensures node.data.start + SectorsFor(node.data.length) <= |old(freeMap.Contents())|
      ensures freeMap.Contents() ==
        Fill(Fill(old(freeMap.Contents()), node.sector, 1, false), node.data.start, SectorsFor(node.data.length), false)
    {
      hide Inv, LiveIn, NodeAt, RootRows;
      ghost var st, live := St(), LiveIn(St());
      OwnedAreSpare(dev.bytes, freeMap.Contents(), live, node.sector);
      FreeSectors(node.sector, 1);
      ghost var mid := dev.bytes;
      forall x: nat | node.data.start <= x < node.data.start + SectorsFor(node.data.length)
        ensures Spare(mid, live, x)
      {
        assert Spare(st.bytes, live, x);
        SpareOnward(st.bytes, mid, live, x);
      }
      FreeSectors(node.data.start, SectorsFor(node.data.length));
      KeptOnward(st.bytes, mid, dev.bytes, live);
    }

    /** Takes back sectors that are marked and that no live inode owns. */
    method FreeSectors(sector: nat, cnt: nat)
      requires Valid() && sector + cnt <= |freeMap.Contents()| && AllAre(freeMap.Contents(), sector, cnt, true)
      requires SpareRange(dev.bytes, LiveIn(St()), sector, sector + cnt)
      modifies dev, freeMap.bits
      ensures Valid() && MapStep(old(St()), St()) && |dev.bytes| >= SECTOR_SIZE
      ensures KeptButMap(old(dev.bytes), dev.bytes, LiveIn(St()))
      ensures freeMap.Contents() == Fill(old(freeMap.Contents()), sector, cnt, false)
    {
      hide Inv, Live, Directory, NodeAt, RootRows, Sound, Saved, KeptButMap, KeptFiles, Pow2, Bit, Spare;
      ghost var st := St();
      MapFileIs(st);
      MapIsOpen(st);
      var mapData := nodes[files[mapFile].inode].data;
      Release(dev, freeMap, mapData, sector, cnt, LiveIn(st));
      MapStepped(st, dev.bytes, freeMap.Contents(), freeMap.bits[..]);
      assert St() == st.(bytes := dev.bytes, used := freeMap.Contents(), words := freeMap.bits[..]);
    }

    // ------------------------------------------------------------------ open files

    /** A new file on an inode, whose reference it takes over. */
    method FileOpen(i: nat) returns (f: nat)
      requires Valid() && i in raw && i in nodes && nodes[i].sector >= 2
      modifies this`files, this`raw, this`nextId
      ensures Valid() && f == old(nextId) && f !in old(files) && f !in old(nodes) && St() == WithFile(old(St()), i)
    {
      hide Inv;
      WithFileKeeps(St(), i);
      IdIsNew(St());
      f := nextId;
      files := files[f := File(i, 0, false)];
      raw := raw - multiset{i};
      nextId := nextId + 1;
    }

    /** Stops writes to the file's inode, once per file. */
    method FileDenyWrite(f: nat)
      requires Valid() && f in files && f != mapFile
      modifies this`files, this`nodes
      ensures Valid() && old(files)[f].inode in old(nodes) && LiveIn(St()) == LiveIn(old(St()))
      ensures St() == if old(files)[f].denying then old(St()) else Denied(old(St()), f, true)
    {
      hide Inv, LiveIn;
      FileHasNode(St(), f);
      if !files[f].denying {
        DeniedKeeps(St(), f, true);
        var i := files[f].inode;
        files := files[f := files[f].(denying := true)];
        nodes := nodes[i := nodes[i].(denyCnt := nodes[i].denyCnt + 1)];
        assert nodes[i].denyCnt <= nodes[i].openCnt;
      }
    }

    /** Lets this file's denial go; other files may still deny. */
    method FileAllowWrite(f: nat)
      requires Valid() && f in files && f != mapFile
      modifies this`files, this`nodes
      ensures Valid() && old(files)[f].inode in old(nodes) && LiveIn(St()) == LiveIn(old(St()))
      ensures !old(files)[f].denying ==> St() == old(St())
      ensures old(files)[f].denying ==>
        old(nodes)[old(files)[f].inode].denyCnt > 0 && St() == Denied(old(St()), f, false)
    {
      hide Inv, LiveIn;
      FileHasNode(St(), f);
      if files[f].denying {
        DeniedKeeps(St(), f, false);
        var i := files[f].inode;
        files := files[f := files[f].(denying := false)];
        assert 0 < nodes[i].denyCnt <= nodes[i].openCnt;
        nodes := nodes[i := nodes[i].(denyCnt := nodes[i].denyCnt - 1)];
      }
    }

    /** Closes a file. Its denial goes with it, and when it was the last reference to a
        removed file the sectors are released. */
    method FileClose(f: nat)
      requires Valid() && f in files && f != mapFile
      modifies this`files, this`nodes, this`list, this`raw, dev, freeMap.bits
      ensures Valid() && raw == old(raw) && files == old(files) - {f} && old(files)[f].inode in old(nodes)
      ensures Directory(dev.bytes) == Directory(old(dev.bytes))
      ensures forall i :: i in nodes ==> i in old(nodes) && nodes[i].sector == old(nodes)[i].sector
      ensures
        var n := old(nodes)[old(files)[f].inode];
        var last := n.openCnt == 1 && n.removed;
        && LiveIn(St()) == (if last then LiveIn(old(St())) - {n.sector} else LiveIn(old(St())))
        && KeptFiles(old(dev.bytes), dev.bytes, LiveIn(St()))
        && (!last ==> dev.bytes == old(dev.bytes) && freeMap.bits[..] == old(freeMap.bits[..]))
        && (last ==>
              && n.sector < |old(freeMap.Contents())|
              && n.data.start + SectorsFor(n.data.length) <= |old(freeMap.Contents())|
              && freeMap.Contents() ==
                   Fill(Fill(old(freeMap.Contents()), n.sector, 1, false), n.data.start, SectorsFor(n.data.length), false))
    {
      hide Inv, Live, RootRows, Directory, Kept, KeptFiles, Pow2, Bit, Fill, NodeAt;
      ghost var was := St();
      FileHasNode(was, f);
      var i := files[f].inode;
      FileAllowWrite(f);
      ghost var mid := St();
      WithoutFileKeeps(mid, f);
      files := files - {f};
      raw := raw + multiset{i};
      ghost var last := St();
      InodeClose(i);
      CloseEffect(last, St(), i);
    }

    /** Reads from an open file: exactly the bytes of the flat file. */
    method FileReadAt(f: nat, buffer: array<Byte>, size: int, offset: nat) returns (n: nat)
      requires Valid() && f in files && size <= buffer.Length
      modifies buffer
      ensures HasReadFile(St(), f, old(buffer[..]), buffer[..], size, offset, n)
    {
      hide Inv, NodeAt;
      FileHasNode(St(), f);
      NodeFits(St(), files[f].inode);
      var data := nodes[files[f].inode].data;
      n := ReadAt(dev, data.start, data.length, buffer, size, offset);
    }

    /** Writes to an open file, unless some file denies it. The file's bytes change as
        a flat array would, and no other live file changes. */
    method FileWriteAt(f: nat, buffer: seq<Byte>, size: int, offset: nat) returns (n: nat)
      requires Valid() && f in files && f != mapFile && size <= |buffer|
      modifies dev
      ensures Valid() && HasWrittenFile(old(St()), St(), f, buffer, size, offset, n)
    {
      hide Inv, LiveIn, Directory, NodeAt, Kept;
      ghost var st := St();
      FileHasNode(st, f);
      FileIsOrdinary(st, f);
      var i := files[f].inode;
      NodeFits(st, i);
      NodeIsLive(st, i);
      var data := nodes[i].data;
      n := WriteAt(dev, data.start, data.length, nodes[i].denyCnt > 0, buffer, size, offset);
      WroteData(st, dev.bytes, nodes[i].sector, buffer, n, offset);
      assert St() == st.(bytes := dev.bytes);
    }

    // ----------------------------------------------------------------- new files

    /** Takes the first unmarked sector for an inode. */
    method NewSector() returns (r: Option<nat>)
      requires Valid()
      modifies dev, freeMap.bits
      ensures Valid() && MapStep(old(St()), St()) && IsFirstFit(old(St()).used, 0, 1, false, r)
      ensures r.None? ==> St() == old(St())
      ensures r.Some? ==>
        && r.value >= 2 && r.value < |old(St()).used| && St().used == Fill(old(St()).used, r.value, 1, true)
        && Spare(dev.bytes, LiveIn(St()), r.value)
    {
      hide Inv, Live, Directory, NodeAt, RootRows, Sound, Saved, KeptButMap, KeptFiles, Spare;
      ghost var st := St();
      MapFileIs(st);
      MapIsOpen(st);
      SystemMarked(st);
      var mapData := nodes[files[mapFile].inode].data;
      r := Allocate(dev, freeMap, Some(mapData), 1, LiveIn(st));
      if r.Some? {
        MapStepped(st, dev.bytes, freeMap.Contents(), freeMap.bits[..]);
        assert St() == st.(bytes := dev.bytes, used := freeMap.Contents(), words := freeMap.bits[..]);
        FitIsSpare(st.bytes, dev.bytes, st.used, LiveIn(st), r.value, 1);
        assert Spare(dev.bytes, LiveIn(st), r.value);
      } else {
        LiveKeptFiles(st);
        assert freeMap.bits[..] == st.words;
        assert St() == st;
      }
    }

    /** Writes the inode of a new file of zeros. */
    method NewInodeAt(s: nat, size: nat) returns (r: Option<nat>)
      requires Valid() && size < 0x8000_0000
      requires s < |freeMap.Contents()| && freeMap.Contents()[s] && Spare(dev.bytes, LiveIn(St()), s)
      modifies dev, freeMap.bits
      ensures Valid() && MapStep(old(St()), St()) && IsFirstFit(old(St()).used, 0, SectorsFor(size), false, r)
      ensures r.None? ==> St() == old(St())
      ensures r.Some? ==>
        && r.value + SectorsFor(size) <= |old(St()).used|
        && St().used == Fill(old(St()).used, r.value, SectorsFor(size), true)
        && Ready(dev.bytes, St().used, LiveIn(St()), s) && FileBytes(dev.bytes, s) == Zeros(size)
        && StoredAt(dev.bytes, s, Extent(r.value, size))
    {
      hide Inv, Live, Directory, NodeAt, RootRows, Sound, Saved, KeptButMap, KeptFiles, Ready, Spare;
      ghost var st := St();
      MapFileIs(st);
      MapIsOpen(st);
      var mapData := nodes[files[mapFile].inode].data;
      r := CreateInode(dev, freeMap, Some(mapData), s, size, LiveIn(st));
      if r.Some? {
        MapStepped(st, dev.bytes, freeMap.Contents(), freeMap.bits[..]);
        assert St() == st.(bytes := dev.bytes, used := freeMap.Contents(), words := freeMap.bits[..]);
      } else {
        LiveKeptFiles(st);
        assert freeMap.bits[..] == st.words;
        assert St() == st;
      }
    }

    /** Names a ready inode in the root directory. */
    method Link(dir: nat, name: seq<Byte>, s: nat) returns (ok: bool)
      requires Valid() && dir in nodes && nodes[dir].sector == ROOT_DIR_SECTOR && nodes[dir].denyCnt == 0
      requires s >= 2 && Ready(dev.bytes, freeMap.Contents(), LiveIn(St()), s)
      requires forall k :: 0 <= k < |name| ==> name[k] != 0
      modifies dev
      ensures Valid() && St() == old(St()).(bytes := dev.bytes)
      ensures ok <==> CanName(old(St()), name)
      ensures !ok ==> dev.bytes == old(dev.bytes)
      ensures ok ==>
        && Directory(dev.bytes) == Directory(old(dev.bytes))[name := s]
        && LiveIn(St()) == LiveIn(old(St())) + {s} && s !in LiveIn(old(St()))
        && KeptFiles(old(dev.bytes), dev.bytes, LiveIn(St()))
    {
      hide Inv, Live, NodeAt, Kept, KeptFiles, Ready, Entries, DirAt, OnlyWithin, RootRows, Pow2, Bit;
      ghost var st := St();
      RootIsDir(st);
      NodeFits(st, dir);
      ReadyFits(st, s);
      var data := nodes[dir].data;
      ok := Add(dev, data.start, data.length, nodes[dir].denyCnt > 0, name, s);
      if ok {
        LinkEffect(st, dev.bytes, name, s);
      }
      assert St() == st.(bytes := dev.bytes);
    }

    /** Takes a sector, writes an inode and names it; if the name cannot be added the
        inode sector is released, but the data sectors stay marked. */
    method MakeFile(dir: nat, name: seq<Byte>, size: nat) returns (ok: bool)
      requires Valid() && dir in nodes && nodes[dir].sector == ROOT_DIR_SECTOR && nodes[dir].denyCnt == 0
      requires size < 0x8000_0000 && forall k :: 0 <= k < |name| ==> name[k] != 0
      modifies dev, freeMap.bits
      ensures Valid() && Made(old(St()), St(), name, size, ok)
    {
      hide Inv, LiveIn, Directory, KeptFiles, Ready, Spare, RootRows, CanName, FileBytes, Made, StoredAt;
      ghost var a := St();
      var r := NewSector();
      if r.None? {
        NoRoom(a, name, size);
        return false;
      }
      var s := r.value;
      ghost var b := St();
      var c := NewInodeAt(s, size);
      ghost var d := St();
      ok := false;
      if c.Some? {
        OwnedAreSpare(d.bytes, d.used, LiveIn(d), s);
        ok := Link(dir, name, s);
      }
      if !ok {
        FreeSectors(s, 1);
        NotMade(a, b, d, St(), name, size, s, c);
      } else {
        IsMade(a, b, d, St(), name, size, s, c.value);
      }
    }

    // --------------------------------------------------------------- the interface

    /** Opens the root directory, which no file has open. */
    method OpenRoot() returns (dir: nat)
      requires Valid() && raw == multiset{}
      modifies this`nodes, this`list, this`raw, this`nextId
      ensures Valid() && dir == old(nextId) && dir !in old(nodes) && OpenedRoot(old(St()), St())
      ensures dir in nodes && nodes[dir].sector == ROOT_DIR_SECTOR && nodes[dir].denyCnt == 0 && dir in raw
      ensures dev.bytes == old(dev.bytes)
    {
      hide Inv, LiveIn, Named, NodeAt;
      RootNotOpen(St());
      RootIsNamed(St());
      dir := InodeOpen(ROOT_DIR_SECTOR);
    }

    /** Creates a file of zeros. */
    method Create(name: seq<Byte>, size: nat) returns (ok: bool)
      requires Valid() && raw == multiset{} && size < 0x8000_0000
      requires forall k :: 0 <= k < |name| ==> name[k] != 0
      modifies this`nodes, this`list, this`raw, this`nextId, dev, freeMap.bits
      ensures Valid() && raw == multiset{}
      ensures Made(old(St()).(nextId := nextId), St(), name, size, ok)
    {
      hide Inv, LiveIn, Made, NodeAt, Named;
      ghost var a := St();
      var dir := OpenRoot();
      ghost var o := St();
      ok := MakeFile(dir, name, size);
      ghost var m := St();
      MadeKeepsTables(o, m, name, size, ok);
      InodeClose(dir);
      CreateEffect(a, o, m, St(), dir, name, size, ok);
    }

    /** Looks a name up in the open root directory. */
    method Find(dir: nat, name: seq<Byte>) returns (found: Option<nat>, e: array<Byte>)
      requires Valid() && dir in nodes && nodes[dir].sector == ROOT_DIR_SECTOR
      ensures fresh(e) && e.Length == SLOT_SIZE
      ensures found.Some? ==> FoundAt(St(), name, found.value, e[..])
      ensures found.None? ==> name !in Directory(dev.bytes)
    {
      hide Inv, NodeAt, Entries, DirAt, RootRows, Slot, SectorOf;
      RootIsDir(St());
      NodeFits(St(), dir);
      var data := nodes[dir].data;
      found, e := Lookup(dev, data.start, data.length, name);
      if found.Some? {
        FoundEntry(St(), name, found.value, e[..]);
      } else {
        NamesArePresent(RootRows(dev.bytes), name);
      }
    }

    /** Opens a file by name: a new handle on its inode, just when the name exists. */
    method Open(name: seq<Byte>) returns (f: Option<nat>)
      requires Valid() && raw == multiset{}
      modifies this`nodes, this`list, this`files, this`raw, this`nextId, dev, freeMap.bits
      ensures Valid() && raw == multiset{} && f.Some? == (name in Directory(old(dev.bytes)))
      ensures f.None? ==> St() == old(St()).(nextId := nextId)
      ensures f.Some? ==> HasOpened(old(St()), St(), name, f.value)
    {
      hide Inv, LiveIn, NodeAt, Named, Directory, Opened, Reopened, OpenedRoot, GaveUp, WithFile, HasOpened;
      ghost var a := St();
      var dir := OpenRoot();
      ghost var o := St();
      var found, e := Find(dir, name);
      if found.None? {
        InodeClose(dir);
        RootClosed(a, o, o, St(), dir);
        return None;
      }
      EntryIsNamed(o, name);
      EntryIsOrdinary(o, name);
      var i := InodeOpen(SectorOf(e[..]));
      ghost var p := St();
      OpenedBoth(a, o, p, dir, i);
      InodeClose(dir);
      ghost var q := St();
      ClosedFirst(a, o, p, q, dir, i);
      var g := FileOpen(i);
      OpenEffect(a, o, p, q, St(), dir, i, name, g);
      f := Some(g);
    }

    /** Erases the name of an open inode and marks the inode removed. */
    method Unlink(dir: nat, i: nat, name: seq<Byte>, e: seq<Byte>, k: nat)
      requires Valid() && dir in nodes && nodes[dir].sector == ROOT_DIR_SECTOR && nodes[dir].denyCnt == 0
      requires FoundAt(St(), name, k, e) && i in nodes && nodes[i].sector == Directory(dev.bytes)[name]
      modifies dev, this`nodes
      ensures Valid() && HasUnlinked(old(St()), St(), name, i)
    {
      hide Inv, Live, NodeAt, Kept, KeptFiles, Entries, DirAt, OnlyWithin, RootRows, Pow2, Bit;
      ghost var st := St();
      RootIsDir(st);
      NodeFits(st, dir);
      var data := nodes[dir].data;
      var ok := Erase(dev, data.start, data.length, nodes[dir].denyCnt > 0, e, k);
      UnlinkEffect(st, dev.bytes, name, i);
      nodes := nodes[i := nodes[i].(removed := true)];
    }

    /** Removes a file by name: the name goes at once, its sectors only when nothing has
        it open any more. */
    method Remove(name: seq<Byte>) returns (ok: bool)
      requires Valid() && raw == multiset{}
      modifies this`nodes, this`list, this`raw, this`nextId, dev, freeMap.bits
      ensures Valid() && raw == multiset{} && ok == (name in Directory(old(dev.bytes)))
      ensures !ok ==> St() == old(St()).(nextId := nextId)
      ensures ok ==> HasRemoved(old(St()), St(), name)
    {
      hide Inv, LiveIn, NodeAt, Named, Directory, Opened, Reopened, OpenedRoot, GaveUp, HasRemoved, HasUnlinked;
      ghost var a := St();
      var dir := OpenRoot();
      ghost var o := St();
      var found, e := Find(dir, name);
      if found.None? {
        InodeClose(dir);
        RootClosed(a, o, o, St(), dir);
        return false;
      }
      EntryIsNamed(o, name);
      EntryIsOrdinary(o, name);
      var i := InodeOpen(SectorOf(e[..]));
      ghost var p := St();
      OpenedBoth(a, o, p, dir, i);
      NeverDenied(p, dir);
      Unlink(dir, i, name, e[..], found.value);
      ghost var u := St();
      UnlinkedBoth(p, u, name, dir, i);
      InodeClose(i);
      ghost var q := St();
      ClosedRemoved(u, q, dir, i);
      InodeClose(dir);
      RemoveEffect(a, o, p, u, q, St(), name, dir, i);
      ok := true;
    }

    /** A second handle on the same inode. */
    method FileReopen(f: nat) returns (g: nat)
      requires Valid() && raw == multiset{} && f in files && f != mapFile
      modifies this`nodes, this`files, this`raw, this`nextId
      ensures Valid() && raw == multiset{} && g !in old(files) && g in files
      ensures files == old(files)[g := File(old(files)[f].inode, 0, false)]
      ensures old(files)[f].inode in old(nodes)
      ensures
        var i := old(files)[f].inode;
        nodes == old(nodes)[i := old(nodes)[i].(openCnt := old(nodes)[i].openCnt + 1)]
      ensures LiveIn(St()) == LiveIn(old(St()))
    {
      hide Inv, Live;
      FileIsOrdinary(St(), f);
      var i := files[f].inode;
      InodeReopen(i);
      g := FileOpen(i);
    }

    /** Reads at the file's position and advances it. */
    method FileRead(f: nat, buffer: array<Byte>, size: int) returns (n: nat)
      requires Valid() && f in files && f != mapFile && size <= buffer.Length
      modifies buffer, this`files
      ensures Valid() && f in old(files) && St() == Moved(old(St()), f, old(files)[f].pos + n)
      ensures HasReadFile(old(St()), f, old(buffer[..]), buffer[..], size, old(files)[f].pos, n)
    {
      hide Inv, HasReadFile;
      n := FileReadAt(f, buffer, size, files[f].pos);
      MovedKeeps(St(), f, files[f].pos + n);
      files := files[f := files[f].(pos := files[f].pos + n)];
    }

    method FileSeek(f: nat, pos: nat)
      requires Valid() && f in files
      modifies this`files
      ensures Valid() && f in old(files) && St() == Moved(old(St()), f, pos)
    {
      hide Inv;
      MovedKeeps(St(), f, pos);
      files := files[f := files[f].(pos := pos)];
    }

    /** Writes at the file's position and advances it. */
    method FileWrite(f: nat, buffer: seq<Byte>, size: int) returns (n: nat)
      requires Valid() && f in files && f != mapFile && size <= |buffer|
      modifies dev, this`files
      ensures Valid() && files == old(files)[f := old(files)[f].(pos := old(files)[f].pos + n)]
      ensures HasWrittenFile(old(St()), St().(files := old(files)), f, buffer, size, old(files)[f].pos, n)
    {
      hide Inv, HasWrittenFile;
      n := FileWriteAt(f, buffer, size, files[f].pos);
      ghost var st := St();
      MovedKeeps(st, f, files[f].pos + n);
      files := files[f := files[f].(pos := files[f].pos + n)];
      assert St().(files := old(files)) == st;
    }
  }

  /** Marks the two system sectors. */
  method MarkSystem(freeMap: Bitmap)
    requires freeMap.Valid() && freeMap.bitCnt >= 2 && freeMap.Contents() == seq(freeMap.bitCnt, _ => false)
    modifies freeMap.bits
    ensures freeMap.Valid() && OnlySystem(freeMap.Contents())
  {
    freeMap.Mark(FREE_MAP_SECTOR);
    freeMap.Mark(ROOT_DIR_SECTOR);
  }

  /** do_format: lays the map's file and the root directory out. */
  method FormatDevice(dev: Device, freeMap: Bitmap)
    requires freeMap.Valid() && freeMap.Contents() == seq(freeMap.bitCnt, _ => false)
    requires 2 <= freeMap.bitCnt < 0x1_0000_0000 && |dev.bytes| == SECTOR_SIZE * freeMap.bitCnt
    requires 2 + MapSectors(freeMap.bitCnt) + 1 <= freeMap.bitCnt
    modifies dev, freeMap.bits
    ensures freeMap.Valid() && Mountable(dev.bytes, freeMap.bits[..], freeMap.bitCnt) && Directory(dev.bytes) == map[]
  {
    hide Sound, Saved, Directory, OnlySystem, MapSectors, NodeAt;
    MarkSystem(freeMap);
    ghost var used := freeMap.Contents();
    var ok := MakeMapFile(dev, freeMap);
    ok := MakeRoot(dev, freeMap, used);
    freeMap.WordsAre();
    OnlySystemNamed(dev.bytes);
  }

  lemma OnlySystemNamed(bytes: seq<Byte>)
    requires Directory(bytes) == map[]
    ensures Named(bytes) == {FREE_MAP_SECTOR, ROOT_DIR_SECTOR} && DirectoryOk(Directory(bytes))
  {
    hide Directory;
  }

  lemma OpenedMap(fs: FileSystem, words: seq<nat>)
    requires fs.freeMap.Valid() && fs.freeMap.bits[..] == words && Mountable(fs.dev.bytes, words, fs.freeMap.bitCnt)
    requires fs.nodes == map[0 := Inode(FREE_MAP_SECTOR, 1, false, 0, NodeAt(fs.dev.bytes, FREE_MAP_SECTOR))]
    requires fs.list == [0] && fs.files == map[1 := File(0, 0, false)] && fs.mapFile == 1 && fs.nextId == 2
    requires fs.raw == multiset{}
    ensures fs.Valid()
  {
    hide NodeAt, RootOk, Saved, Sound, Directory, Inv, BitsOf;
    fs.freeMap.WordsAre();
    Mounted(fs.St());
  }

  /** Formats a device with room for the map's file and the root directory, and mounts it. */
  method Format(sectors: nat) returns (fs: FileSystem)
    requires 2 <= sectors < 0x1_0000_0000 && 2 + MapSectors(sectors) + 1 <= sectors
    ensures fresh(fs) && fresh(fs.dev) && fresh(fs.freeMap) && fresh(fs.freeMap.bits)
    ensures fs.Valid() && fs.raw == multiset{} && fs.freeMap.bitCnt == sectors
    ensures Directory(fs.dev.bytes) == map[] && fs.files.Keys == {fs.mapFile}
  {
    hide Mountable, Directory, MapSectors, Inv;
    var dev := new Device(sectors);
    var freeMap := new Bitmap(sectors);
    FormatDevice(dev, freeMap);
    fs := new FileSystem(dev, freeMap, freeMap.bits[..]);
  }

  /** The state of a mounted device, with the map's file open. */
  lemma Mounted(st: State)
    requires Sound(st.bytes, st.used, Named(st.bytes)) && RootOk(st.bytes)
    requires DirectoryOk(Directory(st.bytes)) && Saved(st.bytes, st.words)
    requires 2 * SECTOR_SIZE <= |st.bytes| && NodeAt(st.bytes, FREE_MAP_SECTOR).length == 4 * |st.words|
    requires st.nodes == map[0 := Inode(FREE_MAP_SECTOR, 1, false, 0, NodeAt(st.bytes, FREE_MAP_SECTOR))]
    requires st.list == [0] && st.files == map[1 := File(0, 0, false)] && st.mapFile == 1 && st.nextId == 2
    requires st.raw == multiset{}
    ensures Inv(st)
  {
    hide NodeAt, RootOk, Saved, Sound, Directory, DirectoryOk;
    assert TablesOk(st.nodes, st.list, st.files, st.raw) by {
      assert Handles(st.files, 0) == {1} && Denying(st.files, 0) == {};
      assert Counted(st.nodes[0], st.files, st.raw, 0);
    }
    assert VolOk(st.bytes, st.used, st.nodes) by {
      hide TablesOk;
      assert OpenSectors(st.nodes) == {FREE_MAP_SECTOR};
      assert Live(st.bytes, st.nodes) == Named(st.bytes);
      assert NodeOk(st.bytes, st.nodes[0]);
    }
    hide TablesOk, VolOk;
  }

  /** With no file open but the map's, every live file has a name. */
  lemma OnlyNamedLive(st: State)
    requires Inv(st) && st.raw == multiset{} && st.files.Keys == {st.mapFile}
    ensures LiveIn(st) == Named(st.bytes)
  {
    hide VolOk, Saved, Directory;
    forall i | i in st.nodes ensures st.nodes[i].sector == FREE_MAP_SECTOR {
      assert Counted(st.nodes[i], st.files, st.raw, i);
      var f :| f in Handles(st.files, i);
    }
  }

  /** So a file system that was closed can be mounted again. */
  lemma ClosedIsMountable(st: State)
    requires Inv(st) && st.raw == multiset{} && st.files.Keys == {st.mapFile}
    requires Tidy(st.words, |st.used|) && st.used == BitsOf(st.words, |st.used|)
    ensures Mountable(st.bytes, st.words, |st.used|)
  {
    hide Tidy, BitsOf, Saved, Sound, Directory, NodeAt, TablesOk, Live;
    OnlyNamedLive(st);
    MapFileIs(st);
  }

  /** filesys_done and filesys_init: the files come back with their names and contents, and
      the free map is what it was. */
  method Remount(fs: FileSystem) returns (again: FileSystem)
    requires fs.Valid() && fs.raw == multiset{} && fs.files.Keys == {fs.mapFile}
    ensures fresh(again) && fresh(again.freeMap) && fresh(again.freeMap.bits) && again.dev == fs.dev
    ensures again.Valid() && again.raw == multiset{} && again.files.Keys == {again.mapFile}
    ensures fs.Valid() && View(again.St()) == View(fs.St()) && again.freeMap.Contents() == fs.freeMap.Contents()
  {
    hide Inv, Mountable, Tidy, BitsOf, Directory, FileBytes;
    fs.freeMap.WordsAre();
    ClosedIsMountable(fs.St());
    var freeMap := new Bitmap(fs.freeMap.bitCnt);
    again := new FileSystem(fs.dev, freeMap, fs.freeMap.bits[..]);
    again.freeMap.WordsAre();
  }

  lemma IdIsNew(st: State)
    requires Inv(st)
    ensures st.nextId !in st.nodes && st.nextId !in st.files
  {
  }

  /** What giving up a reference does to the live files and the map. */
  lemma CloseEffect(a: State, b: State, i: nat)
    requires Inv(a) && i in a.raw && i in a.nodes && a.nodes[i].openCnt > 0 && GaveUp(a, b, i)
    ensures RootRows(b.bytes) == RootRows(a.bytes) && Directory(b.bytes) == Directory(a.bytes)
    ensures b.files == a.files && b.raw == a.raw - multiset{i}
    ensures
      var n := a.nodes[i];
      var last := n.openCnt == 1 && n.removed;
      && LiveIn(b) == (if last then LiveIn(a) - {n.sector} else LiveIn(a))
      && KeptFiles(a.bytes, b.bytes, LiveIn(b))
      && (!last ==> b.bytes == a.bytes && b.used == a.used && b.words == a.words)
  {
    hide Inv, RootRows, KeptButMap;
    ClosedKeeps(a, i);
    var n := a.nodes[i];
    if n.openCnt == 1 && n.removed {
      KeptButMapKeepsFiles(a.bytes, b.bytes, LiveIn(a) - {n.sector});
    } else {
      LiveKeptFiles(b);
    }
  }

  lemma LiveKeptFiles(st: State)
    requires Inv(st)
    ensures KeptFiles(st.bytes, st.bytes, LiveIn(st))
  {
    KeptAtFirst(st.bytes, st.used, LiveIn(st));
  }

  lemma NodeFits(st: State, i: nat)
    requires Inv(st) && i in st.nodes
    ensures Fits(st.bytes, st.nodes[i].sector) && st.nodes[i].data == NodeAt(st.bytes, st.nodes[i].sector)
    ensures OnDevice(st.bytes, st.nodes[i].data.start, st.nodes[i].data.length)
  {
    hide NodeAt;
    var s := st.nodes[i].sector;
    OpenSectorsHas(st.nodes, i);
    assert s in LiveIn(st);
    assert NodeOk(st.bytes, st.nodes[i]) && Marked(st.bytes, st.used, s);
    MarkedFits(st.bytes, st.used, s);
  }

  lemma FileIsOrdinary(st: State, f: nat)
    requires Inv(st) && f in st.files && f != st.mapFile
    ensures st.files[f].inode in st.nodes && st.nodes[st.files[f].inode].sector >= 2
  {
  }

  /** Bytes put within a live file's data change that file as a flat array. */
  lemma WroteData(st: State, bytes: seq<Byte>, s: nat, buffer: seq<Byte>, n: nat, offset: nat)
    requires Inv(st) && s in LiveIn(st) && s >= 2 && Fits(st.bytes, s) && n <= |buffer|
    requires n > 0 ==> offset + n <= NodeAt(st.bytes, s).length
    requires bytes == Written(st.bytes, SECTOR_SIZE * NodeAt(st.bytes, s).start + offset, buffer, n)
    ensures Inv(st.(bytes := bytes)) && LiveIn(st.(bytes := bytes)) == LiveIn(st)
    ensures Directory(bytes) == Directory(st.bytes) && Fits(bytes, s)
    ensures DataOf(bytes, s) == Written(DataOf(st.bytes, s), offset, buffer, n)
    ensures forall t {:trigger Kept(st.bytes, bytes, t)} :: t in LiveIn(st) && t != s ==> Kept(st.bytes, bytes, t)
  {
    hide Directory, NodeAt, TablesOk, RootRows, Live;
    assert Marked(st.bytes, st.used, s) by { LiveIsMarked(st, s); }
    DataChanged(st, bytes, s);
    var e := NodeAt(st.bytes, s);
    if n > 0 {
      PatchInside(st.bytes, SECTOR_SIZE * e.start + offset, buffer[..n], SECTOR_SIZE * e.start,
        SECTOR_SIZE * e.start + e.length);
    }
  }

  lemma LiveIsMarked(st: State, s: nat)
    requires Inv(st) && s in LiveIn(st)
    ensures Marked(st.bytes, st.used, s)
  {
  }

  lemma SystemMarked(st: State)
    requires Inv(st)
    ensures |st.used| >= 2 && st.used[FREE_MAP_SECTOR] && st.used[ROOT_DIR_SECTOR]
  {
    assert Marked(st.bytes, st.used, FREE_MAP_SECTOR) && Marked(st.bytes, st.used, ROOT_DIR_SECTOR);
    assert Owns(st.bytes, FREE_MAP_SECTOR, FREE_MAP_SECTOR) && Owns(st.bytes, ROOT_DIR_SECTOR, ROOT_DIR_SECTOR);
  }

  lemma RootIsDir(st: State)
    requires Inv(st)
    ensures RootOk(st.bytes)
    ensures
      var e := NodeAt(st.bytes, ROOT_DIR_SECTOR);
      RootRows(st.bytes) == RowsAt(st.bytes, e.start, e.length) && DirAt(st.bytes, e.start, e.length)
  {
  }

  /** The root directory was rewritten to name a ready inode. */
  lemma LinkEffect(st: State, bytes: seq<Byte>, name: seq<Byte>, s: nat)
    requires Inv(st) && Ready(st.bytes, st.used, LiveIn(st), s) && s >= 2 && name !in Directory(st.bytes)
    requires RootOk(st.bytes)
    requires
      var e := NodeAt(st.bytes, ROOT_DIR_SECTOR);
      && OnlyWithin(st.bytes, bytes, SECTOR_SIZE * e.start, SECTOR_SIZE * e.start + e.length)
      && DirAt(bytes, e.start, e.length)
      && Entries(RowsAt(bytes, e.start, e.length)) == Directory(st.bytes)[name := s]
    ensures Inv(st.(bytes := bytes)) && Directory(bytes) == Directory(st.bytes)[name := s]
    ensures LiveIn(st.(bytes := bytes)) == LiveIn(st) + {s} && s !in LiveIn(st)
    ensures KeptFiles(st.bytes, bytes, LiveIn(st) + {s})
  {
    hide Inv, Live, NodeAt, Ready, Entries, DirAt;
    RootStays(st, bytes);
    NameAdded(st, bytes, name, s);
  }

  lemma ReadyFits(st: State, s: nat)
    requires Inv(st) && Ready(st.bytes, st.used, LiveIn(st), s)
    ensures s < 0x1_0000_0000
  {
  }

  /** Rewriting the root directory's data leaves its inode. */
  lemma RootStays(st: State, bytes: seq<Byte>)
    requires Inv(st)
    requires
      var e := NodeAt(st.bytes, ROOT_DIR_SECTOR);
      && OnlyWithin(st.bytes, bytes, SECTOR_SIZE * e.start, SECTOR_SIZE * e.start + e.length)
      && DirAt(bytes, e.start, e.length)
    ensures RootOk(bytes) && NodeAt(bytes, ROOT_DIR_SECTOR) == NodeAt(st.bytes, ROOT_DIR_SECTOR)
  {
    hide NodeAt, Live, TablesOk;
    RootIsLive(st.bytes, st.nodes);
    RootRewritten(st.bytes, bytes, st.used, LiveIn(st));
  }

  lemma RootIsLive(bytes: seq<Byte>, nodes: map<nat, Inode>)
    ensures ROOT_DIR_SECTOR in Live(bytes, nodes)
  {
  }

  lemma MapStepped(st: State, bytes: seq<Byte>, used: seq<bool>, words: seq<nat>)
    requires Inv(st) && KeptButMap(st.bytes, bytes, LiveIn(st)) && Sound(bytes, used, LiveIn(st))
    requires Saved(bytes, words) && |words| == |st.words|
    ensures Inv(st.(bytes := bytes, used := used, words := words))
    ensures MapStep(st, st.(bytes := bytes, used := used, words := words))
  {
    hide Inv, Live, Directory, NodeAt, RootRows, Sound, Saved;
    MapChanged(st, bytes, used, words);
    KeptButMapKeepsFiles(st.bytes, bytes, LiveIn(st));
  }

  lemma FirstFitIsUnique(used: seq<bool>, cnt: nat, a: Option<nat>, b: Option<nat>)
    requires IsFirstFit(used, 0, cnt, false, a) && IsFirstFit(used, 0, cnt, false, b)
    ensures a == b
  {
  }

  lemma NoRoom(a: State, name: seq<Byte>, size: nat)
    requires Inv(a) && IsFirstFit(a.used, 0, 1, false, None)
    ensures Made(a, a, name, size, false)
  {
    hide Inv, LiveIn, Directory, CanName, IsFirstFit;
    LiveKeptFiles(a);
    forall s, d | Rooms(a.used, size, s, d) ensures false {
      FirstFitIsUnique(a.used, 1, Some(s), None);
    }
  }

  lemma KeptBytes(was: seq<Byte>, now: seq<Byte>, s: nat)
    requires Kept(was, now, s)
    ensures FileBytes(now, s) == FileBytes(was, s)
  {
    hide NodeAt;
  }

  lemma KeptNode(was: seq<Byte>, now: seq<Byte>, s: nat)
    requires Kept(was, now, s)
    ensures StoredAt(now, s, NodeAt(was, s))
  {
    hide NodeAt;
  }

  lemma IsMade(a: State, b: State, d: State, e: State, name: seq<Byte>, size: nat, s: nat, start: nat)
    requires MapStep(a, b) && MapStep(b, d) && e == d.(bytes := e.bytes)
    requires IsFirstFit(a.used, 0, 1, false, Some(s)) && s < |a.used| && b.used == Fill(a.used, s, 1, true)
    requires IsFirstFit(b.used, 0, SectorsFor(size), false, Some(start)) && start + SectorsFor(size) <= |b.used|
    requires s >= 2 && s !in LiveIn(d) && LiveIn(e) == LiveIn(d) + {s} && CanName(d, name)
    requires Directory(e.bytes) == Directory(d.bytes)[name := s] && KeptFiles(d.bytes, e.bytes, LiveIn(e))
    requires FileBytes(d.bytes, s) == Zeros(size) && StoredAt(d.bytes, s, Extent(start, size))
    requires d.used == Fill(b.used, start, SectorsFor(size), true)
    ensures Made(a, e, name, size, true)
  {
    hide LiveIn, Directory, FileBytes, IsFirstFit, RootRows, Kept;
    KeptFilesOnward(a.bytes, b.bytes, d.bytes, LiveIn(a));
    assert KeptFiles(d.bytes, e.bytes, LiveIn(a));
    KeptFilesOnward(a.bytes, d.bytes, e.bytes, LiveIn(a));
    assert Kept(d.bytes, e.bytes, s);
    KeptBytes(d.bytes, e.bytes, s);
    assert StoredAt(e.bytes, s, Extent(start, size)) by { KeptNode(d.bytes, e.bytes, s); }
    assert Rooms(a.used, size, s, start);
    assert Created(a, e, name, size, s, start);
    assert CanName(a, name);
  }

  lemma NotMade(a: State, b: State, d: State, e: State, name: seq<Byte>, size: nat, s: nat, c: Option<nat>)
    requires MapStep(a, b) && MapStep(b, d) && MapStep(d, e)
    requires IsFirstFit(a.used, 0, 1, false, Some(s)) && s < |a.used| && b.used == Fill(a.used, s, 1, true)
    requires IsFirstFit(b.used, 0, SectorsFor(size), false, c)
    requires c.Some? ==> c.value + SectorsFor(size) <= |b.used| && d.used == Fill(b.used, c.value, SectorsFor(size), true)
    requires c.None? ==> d.used == b.used
    requires c.Some? ==> !CanName(d, name)
    requires e.used == Fill(d.used, s, 1, false)
    ensures Made(a, e, name, size, false)
  {
    hide LiveIn, Directory, IsFirstFit, RootRows, Kept;
    KeptFilesOnward(a.bytes, b.bytes, d.bytes, LiveIn(a));
    KeptFilesOnward(a.bytes, d.bytes, e.bytes, LiveIn(a));
    FirstWasFree(a.used, s);
    if c.Some? {
      assert Rooms(a.used, size, s, c.value);
      DataOutside(b.used, s, c.value, SectorsFor(size));
      assert e.used == Fill(a.used, c.value, SectorsFor(size), true);
      assert CanName(d, name) == CanName(a, name);
    } else {
      assert e.used == a.used;
      forall s', d' | Rooms(a.used, size, s', d') ensures false {
        FirstFitIsUnique(a.used, 1, Some(s), Some(s'));
        FirstFitIsUnique(b.used, SectorsFor(size), c, Some(d'));
      }
    }
  }

  lemma FirstWasFree(used: seq<bool>, s: nat)
    requires IsFirstFit(used, 0, 1, false, Some(s))
    ensures !used[s]
  {
    assert AllAre(used, s, 1, false);
  }

  lemma DataOutside(used: seq<bool>, s: nat, d: nat, n: nat)
    requires IsFirstFit(used, 0, n, false, Some(d)) && s < |used| && used[s]
    ensures !(d <= s < d + n)
  {
    assert AllAre(used, d, n, false);
  }

  lemma RootNotOpen(st: State)
    requires Inv(st) && st.raw == multiset{}
    ensures forall j :: j in st.nodes ==> st.nodes[j].sector != ROOT_DIR_SECTOR
  {
    hide VolOk, Saved;
    forall j | j in st.nodes ensures st.nodes[j].sector != ROOT_DIR_SECTOR {
      assert Counted(st.nodes[j], st.files, st.raw, j);
      assert Handles(st.files, j) != {};
      var f :| f in Handles(st.files, j);
    }
  }

  lemma RootIsNamed(st: State)
    requires Inv(st)
    ensures ROOT_DIR_SECTOR in Named(st.bytes) && 2 * SECTOR_SIZE <= |st.bytes|
  {
  }

  lemma MadeKeepsTables(a: State, b: State, name: seq<Byte>, size: nat, ok: bool)
    requires Made(a, b, name, size, ok)
    ensures b == a.(bytes := b.bytes, used := b.used, words := b.words)
  {
  }

  /** Closing the root directory puts the tables back as they were. */
  lemma RootClosed(a: State, o: State, m: State, e: State, dir: nat)
    requires OpenedRoot(a, o) && dir == a.nextId && m == o.(bytes := m.bytes, used := m.used, words := m.words)
    requires dir in m.nodes && m.nodes[dir].openCnt > 0 && GaveUp(m, e, dir)
    ensures e == a.(bytes := m.bytes, used := m.used, words := m.words, nextId := e.nextId)
  {
    hide LiveIn, NodeAt;
    assert m.nodes - {dir} == a.nodes;
    assert Unlisted(m.list, dir) == a.list;
  }

  lemma CreateEffect(a: State, o: State, m: State, e: State, dir: nat, name: seq<Byte>, size: nat, ok: bool)
    requires OpenedRoot(a, o) && dir == a.nextId && Made(o, m, name, size, ok) && Inv(m)
    requires dir in m.nodes && m.nodes[dir].openCnt > 0 && dir in m.raw && GaveUp(m, e, dir)
    ensures Made(a.(nextId := e.nextId), e, name, size, ok) && e.raw == multiset{}
  {
    hide Inv, Live, Directory, NodeAt, RoomFor, CanName, FileBytes, KeptFiles;
    RootClosed(a, o, m, e, dir);
    CloseEffect(m, e, dir);
    var a' := a.(nextId := e.nextId);
    assert CanName(a', name) == CanName(o, name) by { SameNaming(a', o, name); }
    if ok {
      var s, d :| Created(o, m, name, size, s, d);
      assert Created(a', e, name, size, s, d);
    }
  }

  lemma SameNaming(a: State, b: State, name: seq<Byte>)
    requires a.bytes == b.bytes
    ensures CanName(a, name) == CanName(b, name)
  {
  }

  lemma FoundEntry(st: State, name: seq<Byte>, k: nat, e: seq<Byte>)
    requires Inv(st) && |e| == SLOT_SIZE && Holds(RootRows(st.bytes), k, name)
    requires RootRows(st.bytes)[k] == RowOf(e)
    ensures FoundAt(st, name, k, e)
  {
    EntryAt(RootRows(st.bytes), k);
  }

  lemma EntryIsNamed(st: State, name: seq<Byte>)
    requires name in Directory(st.bytes)
    ensures Directory(st.bytes)[name] in Named(st.bytes)
  {
  }

  lemma EntryIsOrdinary(st: State, name: seq<Byte>)
    requires Inv(st) && name in Directory(st.bytes)
    ensures Directory(st.bytes)[name] >= 2
  {
  }

  /** Opening an ordinary inode after the root directory. */
  ghost predicate OpenStep(o: State, p: State, i: nat) {
    && i in p.nodes && p.nodes[i].sector >= 2 && LiveIn(p) == LiveIn(o)
    && if i in o.nodes then p == Reopened(o, i) else
         && SECTOR_SIZE * p.nodes[i].sector + SECTOR_SIZE <= |o.bytes| && i == o.nextId
         && p == Opened(o, p.nodes[i].sector) && forall j :: j in o.nodes ==> o.nodes[j].sector != p.nodes[i].sector
  }

  lemma OpenedBoth(a: State, o: State, p: State, dir: nat, i: nat)
    requires OpenedRoot(a, o) && dir == a.nextId && OpenStep(o, p, i)
    ensures i != dir && dir in p.raw && dir in p.nodes && p.nodes[dir] == o.nodes[dir]
    ensures p.nodes[dir].openCnt == 1 && !p.nodes[dir].removed
    ensures p.bytes == a.bytes && p.used == a.used && p.words == a.words && p.files == a.files
    ensures p.raw == multiset{dir, i} && LiveIn(p) == LiveIn(a)
  {
    hide NodeAt, LiveIn;
  }

  lemma ClosedFirst(a: State, o: State, p: State, q: State, dir: nat, i: nat)
    requires OpenedRoot(a, o) && dir == a.nextId && OpenStep(o, p, i) && Inv(p)
    requires dir in p.nodes && dir in p.raw && p.nodes[dir].openCnt > 0 && GaveUp(p, q, dir)
    ensures q == Closed(p, dir) && i in q.nodes && q.nodes[i] == p.nodes[i] && q.raw == multiset{i}
    ensures OneMoreOpen(a, q, p.nodes[i].sector, i) && q.files == a.files
  {
    hide Inv, Live, NodeAt, RootRows, Directory;
    OpenedBoth(a, o, p, dir, i);
    CloseEffect(p, q, dir);
  }

  lemma OpenEffect(a: State, o: State, p: State, q: State, e: State, dir: nat, i: nat, name: seq<Byte>, f: nat)
    requires OpenedRoot(a, o) && dir == a.nextId && OpenStep(o, p, i) && Inv(p) && name in Directory(a.bytes)
    requires p.nodes[i].sector == Directory(a.bytes)[name]
    requires dir in p.nodes && dir in p.raw && p.nodes[dir].openCnt > 0 && GaveUp(p, q, dir)
    requires f == q.nextId && f !in q.files && e == WithFile(q, i)
    ensures HasOpened(a, e, name, f) && e.raw == multiset{}
  {
    hide Inv, Live, Directory, NodeAt, OpenedRoot, OpenStep, GaveUp, Closed;
    ClosedFirst(a, o, p, q, dir, i);
  }

  /** The root directory was rewritten to drop a name. */
  lemma UnlinkEffect(st: State, bytes: seq<Byte>, name: seq<Byte>, i: nat)
    requires Inv(st) && RootOk(st.bytes) && name in Directory(st.bytes)
    requires i in st.nodes && st.nodes[i].sector == Directory(st.bytes)[name]
    requires
      var e := NodeAt(st.bytes, ROOT_DIR_SECTOR);
      && OnlyWithin(st.bytes, bytes, SECTOR_SIZE * e.start, SECTOR_SIZE * e.start + e.length)
      && DirAt(bytes, e.start, e.length)
      && Entries(RowsAt(bytes, e.start, e.length)) == Directory(st.bytes) - {name}
    ensures
      var next := st.(bytes := bytes, nodes := st.nodes[i := st.nodes[i].(removed := true)]);
      Inv(next) && HasUnlinked(st, next, name, i)
  {
    hide Inv, Live, NodeAt, Entries, DirAt;
    RootStays(st, bytes);
    NameDropped(st, bytes, name, i);
  }

  /** Nothing denies writes to the root directory. */
  lemma NeverDenied(st: State, dir: nat)
    requires Inv(st) && dir in st.nodes && st.nodes[dir].sector == ROOT_DIR_SECTOR
    ensures st.nodes[dir].denyCnt == 0
  {
    hide VolOk, Saved;
    assert Counted(st.nodes[dir], st.files, st.raw, dir);
    assert Denying(st.files, dir) == {};
  }

  lemma UnlinkedBoth(p: State, u: State, name: seq<Byte>, dir: nat, i: nat)
    requires HasUnlinked(p, u, name, i) && i != dir && p.raw == multiset{dir, i} && dir in p.nodes
    ensures u.raw == p.raw && i in u.raw && dir in u.nodes && u.nodes[dir] == p.nodes[dir]
    ensures i in u.nodes && u.nodes[i] == p.nodes[i].(removed := true)
  {
    hide LiveIn, Directory;
  }

  lemma ClosedRemoved(u: State, q: State, dir: nat, i: nat)
    requires u.raw == multiset{dir, i} && i != dir && dir in u.nodes && i in u.nodes && u.nodes[i].openCnt > 0
    requires GaveUp(u, q, i)
    ensures q.raw == multiset{dir} && dir in q.nodes && q.nodes[dir] == u.nodes[dir]
    ensures q.nodes == if u.nodes[i].openCnt > 1 then u.nodes[i := u.nodes[i].(openCnt := u.nodes[i].openCnt - 1)]
                       else u.nodes - {i}
  {
    hide LiveIn, RootRows, KeptButMap;
  }

  lemma NodeCounted(st: State, i: nat)
    requires Inv(st) && i in st.nodes
    ensures st.nodes[i].openCnt > 0
  {
    assert Counted(st.nodes[i], st.files, st.raw, i);
  }

  /** The steps of a removal, one state after the other. */
  ghost predicate RemoveSteps(a: State, o: State, p: State, u: State, q: State, e: State, name: seq<Byte>, dir: nat, i: nat) {
    && OpenedRoot(a, o) && dir == a.nextId && OpenStep(o, p, i) && Inv(a) && Inv(p) && Inv(u) && Inv(q)
    && name in Directory(a.bytes) && p.nodes[i].sector == Directory(a.bytes)[name]
    && HasUnlinked(p, u, name, i)
    && i in u.nodes && i in u.raw && u.nodes[i].openCnt > 0 && GaveUp(u, q, i)
    && dir in q.nodes && dir in q.raw && q.nodes[dir].openCnt > 0 && GaveUp(q, e, dir)
  }

  lemma RemoveEffect(a: State, o: State, p: State, u: State, q: State, e: State, name: seq<Byte>, dir: nat, i: nat)
    requires RemoveSteps(a, o, p, u, q, e, name, dir, i)
    ensures HasRemoved(a, e, name) && e.raw == multiset{}
  {
    hide Inv, Live, Directory, NodeAt, RootRows, KeptButMap, Kept, KeptFiles, OpenedRoot, OpenStep;
    OpenedBoth(a, o, p, dir, i);
    UnlinkedBoth(p, u, name, dir, i);
    CloseEffect(u, q, i);
    ClosedRemoved(u, q, dir, i);
    CloseEffect(q, e, dir);
    KeptFewer(a.bytes, u.bytes, LiveIn(a), LiveIn(e));
    KeptFilesOnward(a.bytes, u.bytes, e.bytes, LiveIn(e));
    if i in a.nodes {
      RemovedOpen(a, o, p, u, q, e, name, dir, i);
      OpenSectorsHas(a.nodes, i);
    } else {
      RemovedClosed(a, o, p, u, q, e, name, dir, i);
    }
  }

  lemma KeptFewer(was: seq<Byte>, now: seq<Byte>, live: set<nat>, fewer: set<nat>)
    requires KeptFiles(was, now, live) && fewer <= live
    ensures KeptFiles(was, now, fewer)
  {
  }

  lemma RemovedOpen(a: State, o: State, p: State, u: State, q: State, e: State, name: seq<Byte>, dir: nat, i: nat)
    requires RemoveSteps(a, o, p, u, q, e, name, dir, i) && i in a.nodes
    ensures e.used == a.used && LiveIn(e) == LiveIn(a) && e.nodes == a.nodes[i := a.nodes[i].(removed := true)]
    ensures a.nodes[i].sector == Directory(a.bytes)[name]
  {
    hide Inv, Live, Directory, NodeAt, RootRows, KeptButMap, Kept, KeptFiles;
    OpenedBoth(a, o, p, dir, i);
    NodeCounted(a, i);
    assert u.nodes[i].openCnt == a.nodes[i].openCnt + 1;
    CloseEffect(u, q, i);
    CloseEffect(q, e, dir);
    assert e.nodes == a.nodes[i := a.nodes[i].(removed := true)];
  }

  lemma RemovedClosed(a: State, o: State, p: State, u: State, q: State, e: State, name: seq<Byte>, dir: nat, i: nat)
    requires RemoveSteps(a, o, p, u, q, e, name, dir, i) && i !in a.nodes
    ensures
      var s := Directory(a.bytes)[name];
      s !in OpenSectors(a.nodes) && e.nodes == a.nodes && LiveIn(e) == LiveIn(a) - {s} && Released(a, e.used, s)
  {
    hide Inv, Live, Directory, NodeAt, RootRows, KeptButMap, Kept, KeptFiles;
    OpenedBoth(a, o, p, dir, i);
    CloseEffect(u, q, i);
    CloseEffect(q, e, dir);
    forall j | j in a.nodes ensures a.nodes[j].sector != p.nodes[i].sector {
      assert j in o.nodes && o.nodes[j] == a.nodes[j];
    }
    assert e.nodes == a.nodes;
  }

  lemma FileHasNode(st: State, f: nat)
    requires Inv(st) && f in st.files
    ensures st.files[f].inode in st.nodes
  {
  }

  lemma NodeIsLive(st: State, i: nat)
    requires Inv(st) && i in st.nodes
    ensures st.nodes[i].sector in LiveIn(st)
  {
    OpenSectorsHas(st.nodes, i);
  }

  lemma MapIsOpen(st: State)
    requires Inv(st)
    ensures st.mapFile in st.files && st.files[st.mapFile].inode in st.nodes && |st.bytes| >= SECTOR_SIZE
    ensures st.nodes[st.files[st.mapFile].inode].denyCnt == 0
  {
    var i := st.files[st.mapFile].inode;
    assert Counted(st.nodes[i], st.files, st.raw, i);
    assert Denying(st.files, i) == {};
  }

  /** A ready inode's sectors are marked and spare. */
  lemma OwnedAreSpare(bytes: seq<Byte>, used: seq<bool>, live: set<nat>, s: nat)
    requires Ready(bytes, used, live, s)
    ensures Spare(bytes, live, s) && used[s]
    ensures
      var e := NodeAt(bytes, s);
      && AllAre(used, e.start, SectorsFor(e.length), true) && !InExtent(s, e)
      && SpareRange(bytes, live, e.start, e.start + SectorsFor(e.length))
  {
    var e := NodeAt(bytes, s);
    assert Owns(bytes, s, s);
    forall x: nat | e.start <= x < e.start + SectorsFor(e.length) ensures used[x] && Spare(bytes, live, x) {
      assert Owns(bytes, s, x);
    }
  }

  lemma StoredNode(bytes: seq<Byte>, s: nat)
    requires SECTOR_SIZE * s + SECTOR_SIZE <= |bytes|
    ensures
      var sector := bytes[SECTOR_SIZE * s..SECTOR_SIZE * s + SECTOR_SIZE];
      NodeAt(bytes, s) == Extent(Word(sector[..4]), Word(sector[4..8]))
  {
    var a := SECTOR_SIZE * s;
    SliceOfSlice(bytes, a, a + SECTOR_SIZE, 0, 4);
    SliceOfSlice(bytes, a, a + SECTOR_SIZE, 4, 8);
  }

  // ------------------------------------------------- what a run always keeps

  /** The sectors of live files are disjoint and marked in the free map. */
  lemma LiveFilesAreDisjoint(st: State, s: nat, t: nat, x: nat)
    requires Inv(st) && s in LiveIn(st) && Owns(st.bytes, s, x)
    ensures x < |st.used| && st.used[x]
    ensures t in LiveIn(st) && Owns(st.bytes, t, x) ==> s == t
  {
    hide NodeAt, TablesOk, Live;
    assert Marked(st.bytes, st.used, s);
    if t in LiveIn(st) && t != s { assert Apart(st.bytes, s, t); }
  }

  /** Each sector has at most one inode in memory, and its counts are those of the
      open and the denying files. */
  lemma CountsAreExact(st: State, i: nat, j: nat)
    requires Inv(st) && st.raw == multiset{} && i in st.nodes && j in st.nodes
    ensures st.nodes[i].sector == st.nodes[j].sector ==> i == j
    ensures 0 < st.nodes[i].openCnt == |Handles(st.files, i)|
    ensures st.nodes[i].denyCnt == |Denying(st.files, i)| <= st.nodes[i].openCnt
  {
    hide VolOk;
    assert Counted(st.nodes[i], st.files, st.raw, i);
    SubsetSize(Denying(st.files, i), Handles(st.files, i));
  }

  /** A removed file is still live, on its own sectors, while a handle is left. */
  lemma RemovedStaysWhileOpen(st: State, f: nat)
    requires Inv(st) && f in st.files
    ensures st.files[f].inode in st.nodes && st.nodes[st.files[f].inode].sector in LiveIn(st)
    ensures
      var s := st.nodes[st.files[f].inode].sector;
      Fits(st.bytes, s) && forall x: nat {:trigger Owns(st.bytes, s, x)} :: Owns(st.bytes, s, x) ==> x < |st.used| && st.used[x]
  {
    hide NodeAt;
    FileHasNode(st, f);
    var i := st.files[f].inode;
    NodeIsLive(st, i);
    NodeFits(st, i);
    var s := st.nodes[i].sector;
    forall x: nat | Owns(st.bytes, s, x) ensures x < |st.used| && st.used[x] {
      LiveFilesAreDisjoint(st, s, s, x);
    }
  }

  // ------------------------------------------- a map from names to byte strings

  /** What users see: the bytes under each name. */
  ghost function View(st: State): map<seq<Byte>, seq<Byte>> {
    map name | name in Directory(st.bytes) :: FileBytes(st.bytes, Directory(st.bytes)[name])
  }

  lemma NamedIsLive(st: State, name: seq<Byte>)
    requires Inv(st) && name in Directory(st.bytes)
    ensures Directory(st.bytes)[name] in LiveIn(st) && Directory(st.bytes)[name] >= 2
  {
    assert Directory(st.bytes)[name] in Directory(st.bytes).Values;
  }

  lemma SeenKept(was: seq<Byte>, now: seq<Byte>, live: set<nat>, s: nat)
    requires KeptFiles(was, now, live) && s in live && s >= 2
    ensures FileBytes(now, s) == FileBytes(was, s)
  {
    hide FileBytes;
    assert Kept(was, now, s);
    KeptBytes(was, now, s);
  }

  /** Creation adds a file of zeros under a new name, or changes nothing users see. */
  lemma CreateRefines(a: State, b: State, name: seq<Byte>, size: nat, ok: bool)
    requires Inv(a) && Made(a, b, name, size, ok)
    ensures ok ==> name !in View(a)
    ensures View(b) == if ok then View(a)[name := Zeros(size)] else View(a)
  {
    hide Inv, Directory, FileBytes, LiveIn, KeptFiles, RoomFor;
    var d := Directory(a.bytes);
    forall n | n in d ensures FileBytes(b.bytes, d[n]) == FileBytes(a.bytes, d[n]) {
      NamedIsLive(a, n);
      SeenKept(a.bytes, b.bytes, LiveIn(a), d[n]);
    }
    if ok {
      var s, d :| Created(a, b, name, size, s, d);
      assert View(b) == View(a)[name := Zeros(size)];
    } else {
      assert View(b) == View(a);
    }
  }

  /** Removal takes just that name away. */
  lemma RemoveRefines(a: State, b: State, name: seq<Byte>)
    requires Inv(b) && HasRemoved(a, b, name)
    ensures View(b) == View(a) - {name}
  {
    hide Inv, Directory, FileBytes, LiveIn, KeptFiles, Released;
    var d := Directory(b.bytes);
    forall n | n in d ensures FileBytes(b.bytes, d[n]) == FileBytes(a.bytes, d[n]) {
      NamedIsLive(b, n);
      SeenKept(a.bytes, b.bytes, LiveIn(b), d[n]);
    }
  }

  /** Opening gives a handle on the bytes under that name and changes nothing users
      see. */
  lemma OpenRefines(a: State, b: State, name: seq<Byte>, f: nat)
    requires HasOpened(a, b, name, f)
    ensures View(b) == View(a) && name in View(a)
    ensures f in b.files && b.files[f].inode in b.nodes && b.files[f].pos == 0
    ensures FileBytes(b.bytes, b.nodes[b.files[f].inode].sector) == View(a)[name]
  {
    hide Directory, FileBytes, LiveIn;
  }

  /** A write changes the bytes under the names of its file, of which there is at
      most one, as a flat array, and no others. */
  lemma WriteRefines(a: State, b: State, f: nat, buffer: seq<Byte>, size: int, offset: nat, n: nat, name: seq<Byte>)
    requires Inv(a) && HasWrittenFile(a, b, f, buffer, size, offset, n) && name in View(a)
    ensures name in View(b) && f in a.files && a.files[f].inode in a.nodes && n <= |buffer|
    ensures
      if Directory(a.bytes)[name] == a.nodes[a.files[f].inode].sector
      then (n > 0 ==> offset + n <= |View(a)[name]|) && View(b)[name] == Written(View(a)[name], offset, buffer, n)
      else View(b)[name] == View(a)[name]
  {
    hide Inv, Directory, LiveIn, NodeAt;
    NamedIsLive(a, name);
    var t := Directory(a.bytes)[name];
    if t != a.nodes[a.files[f].inode].sector {
      assert Kept(a.bytes, b.bytes, t);
      KeptBytes(a.bytes, b.bytes, t);
    }
  }
}
