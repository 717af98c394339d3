/** The whole state of the file system as a value, and what each small step does
    to it. */
module FileStates {
  import opened Containers
  import opened Bytes
  import opened Devices
  import opened Directories
  import opened Volumes
  import opened FreeMaps
  import opened FileTables

  /** The device's bytes, the free map and its words, and the tables in memory.
      `raw` holds the references to open inodes that no file holds. */
  datatype State = State(
    bytes: seq<Byte>, used: seq<bool>, words: seq<nat>,
    nodes: map<nat, Inode>, list: seq<nat>, files: map<nat, File>, mapFile: nat, nextId: nat,
    raw: multiset<nat>)

  /** One file, never denying, is open on the free map; every other file is on
      an ordinary inode. */
  ghost predicate MapHandle(nodes: map<nat, Inode>, files: map<nat, File>, mapFile: nat, words: nat) {
    && mapFile in files && !files[mapFile].denying && files[mapFile].inode in nodes
    && nodes[files[mapFile].inode].sector == FREE_MAP_SECTOR
    && nodes[files[mapFile].inode].data.length == 4 * words
    && forall f {:trigger files[f]} :: f in files && f != mapFile ==>
         files[f].inode in nodes && nodes[files[f].inode].sector >= 2
  }

  /** Ids up to the counter are taken. */
  ghost predicate IdsBelow(nodes: map<nat, Inode>, files: map<nat, File>, next: nat) {
    (forall i :: i in nodes ==> i < next) && (forall f :: f in files ==> f < next)
  }

  ghost predicate Inv(st: State) {
    && VolOk(st.bytes, st.used, st.nodes)
    && Saved(st.bytes, st.words)
    && TablesOk(st.nodes, st.list, st.files, st.raw)
    && MapHandle(st.nodes, st.files, st.mapFile, |st.words|)
    && IdsBelow(st.nodes, st.files, st.nextId)
  }

  ghost function LiveIn(st: State): set<nat> { Live(st.bytes, st.nodes) }

  /** The free map's file is where the map's handle says. */
  lemma MapFileIs(st: State)
    requires Inv(st)
    ensures MapFile(st.bytes, st.used, LiveIn(st), st.nodes[st.files[st.mapFile].inode].data, |st.words|)
  {
    assert NodeOk(st.bytes, st.nodes[st.files[st.mapFile].inode]);
  }

  // ------------------------------------------------------------ opening, closing

  function Opened(st: State, s: nat): State
    requires SECTOR_SIZE * s + SECTOR_SIZE <= |st.bytes|
  {
    var i := st.nextId;
    st.(nodes := st.nodes[i := Inode(s, 1, false, 0, NodeAt(st.bytes, s))], list := [i] + st.list,
        raw := st.raw + multiset{i}, nextId := i + 1)
  }

  lemma OpenedKeeps(st: State, s: nat)
    requires Inv(st) && s in Named(st.bytes)
    requires forall j :: j in st.nodes ==> st.nodes[j].sector != s
    ensures SECTOR_SIZE * s + SECTOR_SIZE <= |st.bytes| && Inv(Opened(st, s)) && LiveIn(Opened(st, s)) == LiveIn(st)
  {
    hide VolOk, TablesOk, Live, Named, NodeAt, Saved;
    var i := st.nextId;
    VolOpened(st.bytes, st.used, st.nodes, i, s);
    NewNode(st.nodes, st.list, st.files, st.raw, i, s, NodeAt(st.bytes, s));
  }

  function Reopened(st: State, i: nat): State
    requires i in st.nodes
  {
    st.(nodes := st.nodes[i := st.nodes[i].(openCnt := st.nodes[i].openCnt + 1)], raw := st.raw + multiset{i})
  }

  lemma ReopenedKeeps(st: State, i: nat)
    requires Inv(st) && i in st.nodes
    ensures Inv(Reopened(st, i)) && LiveIn(Reopened(st, i)) == LiveIn(st)
  {
    hide VolOk, TablesOk, Live, Named, NodeAt, Saved;
    OneMore(st.nodes, st.list, st.files, st.raw, i);
    VolRecounted(st.bytes, st.used, st.nodes, i, st.nodes[i].openCnt + 1, st.nodes[i].denyCnt);
  }

  /** A reference given up: the last one takes the inode off the list. */
  function Closed(st: State, i: nat): State
    requires i in st.nodes && st.nodes[i].openCnt > 0
  {
    if st.nodes[i].openCnt > 1
    then st.(nodes := st.nodes[i := st.nodes[i].(openCnt := st.nodes[i].openCnt - 1)], raw := st.raw - multiset{i})
    else st.(nodes := st.nodes - {i}, list := Unlisted(st.list, i), raw := st.raw - multiset{i})
  }

  lemma RawIsOpen(st: State, i: nat)
    requires Inv(st) && i in st.raw
    ensures i in st.nodes && st.nodes[i].openCnt > 0
  {
    assert Counted(st.nodes[i], st.files, st.raw, i);
  }

  lemma OnlyOneNode(nodes: map<nat, Inode>, list: seq<nat>, files: map<nat, File>, raw: multiset<nat>, i: nat)
    requires TablesOk(nodes, list, files, raw) && i in nodes
    ensures forall j :: j in nodes && nodes[j].sector == nodes[i].sector ==> j == i
  {
  }

  lemma ClosedKeeps(st: State, i: nat)
    requires Inv(st) && i in st.raw && i in st.nodes && st.nodes[i].openCnt > 0
    ensures Inv(Closed(st, i))
    ensures LiveIn(Closed(st, i)) ==
      if st.nodes[i].openCnt == 1 && st.nodes[i].removed then LiveIn(st) - {st.nodes[i].sector} else LiveIn(st)
  {
    hide VolOk, TablesOk, Live, Named, NodeAt, Saved;
    if st.nodes[i].openCnt > 1 {
      OneLess(st.nodes, st.list, st.files, st.raw, i);
      VolRecounted(st.bytes, st.used, st.nodes, i, st.nodes[i].openCnt - 1, st.nodes[i].denyCnt);
    } else {
      LastGone(st.nodes, st.list, st.files, st.raw, i);
      OnlyOneNode(st.nodes, st.list, st.files, st.raw, i);
      VolClosed(st.bytes, st.used, st.nodes, i);
      forall f | f in st.files ensures st.files[f].inode != i {
        assert f !in Handles(st.files, i);
      }
    }
  }

  /** Once a removed inode is off the list, its sectors are spare. */
  lemma ClosedIsReady(st: State, i: nat)
    requires Inv(st) && i in st.nodes && st.nodes[i].sector in LiveIn(st)
    ensures
      var s := st.nodes[i].sector;
      Ready(st.bytes, st.used, LiveIn(st) - {s}, s) && st.nodes[i].data == NodeAt(st.bytes, s)
  {
    var s := st.nodes[i].sector;
    assert Marked(st.bytes, st.used, s) && NodeOk(st.bytes, st.nodes[i]);
    forall x: nat | Owns(st.bytes, s, x) ensures Spare(st.bytes, LiveIn(st) - {s}, x) {
      SpareOnceDropped(st.bytes, st.used, LiveIn(st), s, x);
    }
  }

  // ------------------------------------------------------------------- files

  function WithFile(st: State, i: nat): State {
    st.(files := st.files[st.nextId := File(i, 0, false)], raw := st.raw - multiset{i}, nextId := st.nextId + 1)
  }

  lemma WithFileKeeps(st: State, i: nat)
    requires Inv(st) && i in st.raw && i in st.nodes && st.nodes[i].sector >= 2
    ensures Inv(WithFile(st, i))
  {
    hide VolOk, TablesOk, Live, Named, NodeAt, Saved;
    FileTakes(st.nodes, st.list, st.files, st.raw, i, st.nextId);
  }

  function WithoutFile(st: State, f: nat): State
    requires f in st.files
  {
    st.(files := st.files - {f}, raw := st.raw + multiset{st.files[f].inode})
  }

  lemma WithoutFileKeeps(st: State, f: nat)
    requires Inv(st) && f in st.files && f != st.mapFile && !st.files[f].denying
    ensures Inv(WithoutFile(st, f))
  {
    hide VolOk, TablesOk, Live, Named, NodeAt, Saved;
    FileGives(st.nodes, st.list, st.files, st.raw, f);
  }

  function Denied(st: State, f: nat, on: bool): State
    requires f in st.files && st.files[f].inode in st.nodes && (!on ==> st.nodes[st.files[f].inode].denyCnt > 0)
  {
    var i := st.files[f].inode;
    var n := st.nodes[i];
    st.(nodes := st.nodes[i := n.(denyCnt := if on then n.denyCnt + 1 else n.denyCnt - 1)],
        files := st.files[f := st.files[f].(denying := on)])
  }

  /** Denying never counts more files than are open. */
  lemma DeniedKeeps(st: State, f: nat, on: bool)
    requires Inv(st) && f in st.files && f != st.mapFile && st.files[f].denying != on
    ensures st.files[f].inode in st.nodes
    ensures
      var n := st.nodes[st.files[f].inode];
      (on ==> n.denyCnt + 1 <= n.openCnt) && (!on ==> 0 < n.denyCnt <= n.openCnt)
    ensures Inv(Denied(st, f, on)) && LiveIn(Denied(st, f, on)) == LiveIn(st)
  {
    hide VolOk, TablesOk, Live, Named, NodeAt, Saved;
    var i := st.files[f].inode;
    var n := st.nodes[i];
    DenyChanges(st.nodes, st.list, st.files, st.raw, f, on);
    VolRecounted(st.bytes, st.used, st.nodes, i, n.openCnt, if on then n.denyCnt + 1 else n.denyCnt - 1);
  }

  function Moved(st: State, f: nat, pos: nat): State
    requires f in st.files
  {
    st.(files := st.files[f := st.files[f].(pos := pos)])
  }

  lemma MovedKeeps(st: State, f: nat, pos: nat)
    requires Inv(st) && f in st.files
    ensures Inv(Moved(st, f, pos))
  {
    hide VolOk, TablesOk, Live, Named, NodeAt, Saved;
    PosChanges(st.nodes, st.list, st.files, st.raw, f, pos);
  }

  // ------------------------------------------------------------------ the device

  /** The free map changed and was saved; nothing live did. */
  lemma MapChanged(st: State, bytes: seq<Byte>, used: seq<bool>, words: seq<nat>)
    requires Inv(st) && KeptButMap(st.bytes, bytes, LiveIn(st)) && Sound(bytes, used, LiveIn(st))
    requires Saved(bytes, words) && |words| == |st.words|
    ensures Inv(st.(bytes := bytes, used := used, words := words)) && RootRows(bytes) == RootRows(st.bytes)
    ensures Live(bytes, st.nodes) == LiveIn(st) && Directory(bytes) == Directory(st.bytes)
  {
    hide TablesOk, NodeAt, Saved, RootRows, KeptButMap, Sound;
    VolStays(st.bytes, bytes, st.used, used, st.nodes);
  }

  /** Bytes of one ordinary live file changed; nothing else live did. */
  lemma DataChanged(st: State, bytes: seq<Byte>, s: nat)
    requires Inv(st) && s in LiveIn(st) && s >= 2 && Marked(st.bytes, st.used, s)
    requires
      var e := NodeAt(st.bytes, s);
      OnlyWithin(st.bytes, bytes, SECTOR_SIZE * e.start, SECTOR_SIZE * e.start + e.length)
    ensures Inv(st.(bytes := bytes)) && RootRows(bytes) == RootRows(st.bytes)
    ensures Live(bytes, st.nodes) == LiveIn(st) && Directory(bytes) == Directory(st.bytes)
    ensures NodeAt(bytes, s) == NodeAt(st.bytes, s)
    ensures forall t {:trigger Kept(st.bytes, bytes, t)} :: t in LiveIn(st) && t != s ==> Kept(st.bytes, bytes, t)
  {
    hide TablesOk, NodeAt, RootRows, Sound;
    VolWritten(st.bytes, bytes, st.used, st.nodes, s);
    assert Kept(st.bytes, bytes, FREE_MAP_SECTOR);
  }

  /** The root directory was rewritten so as to name a ready inode. */
  lemma NameAdded(st: State, bytes: seq<Byte>, name: seq<Byte>, s: nat)
    requires Inv(st) && Ready(st.bytes, st.used, LiveIn(st), s) && s >= 2 && name !in Directory(st.bytes)
    requires RootOk(bytes) && Directory(bytes) == Directory(st.bytes)[name := s]
    requires
      var e := NodeAt(st.bytes, ROOT_DIR_SECTOR);
      && OnlyWithin(st.bytes, bytes, SECTOR_SIZE * e.start, SECTOR_SIZE * e.start + e.length)
      && DirAt(bytes, e.start, e.length)
    ensures Inv(st.(bytes := bytes)) && Live(bytes, st.nodes) == LiveIn(st) + {s} && s !in LiveIn(st)
    ensures forall t {:trigger Kept(st.bytes, bytes, t)} ::
      t in LiveIn(st) + {s} && t != ROOT_DIR_SECTOR ==> Kept(st.bytes, bytes, t)
  {
    hide TablesOk, NodeAt, RootOk, Directory, DirAt, Sound;
    VolLinked(st.bytes, bytes, st.used, st.nodes, name, s);
    assert Kept(st.bytes, bytes, FREE_MAP_SECTOR);
  }

  /** The root directory was rewritten so as to drop the name of an open inode. */
  lemma NameDropped(st: State, bytes: seq<Byte>, name: seq<Byte>, i: nat)
    requires Inv(st) && name in Directory(st.bytes)
    requires i in st.nodes && st.nodes[i].sector == Directory(st.bytes)[name]
    requires RootOk(bytes) && Directory(bytes) == Directory(st.bytes) - {name}
    requires
      var e := NodeAt(st.bytes, ROOT_DIR_SECTOR);
      && OnlyWithin(st.bytes, bytes, SECTOR_SIZE * e.start, SECTOR_SIZE * e.start + e.length)
      && DirAt(bytes, e.start, e.length)
    ensures
      var next := st.nodes[i := st.nodes[i].(removed := true)];
      Inv(st.(bytes := bytes, nodes := next)) && Live(bytes, next) == LiveIn(st)
    ensures forall t {:trigger Kept(st.bytes, bytes, t)} ::
      t in LiveIn(st) && t != ROOT_DIR_SECTOR ==> Kept(st.bytes, bytes, t)
  {
    hide TablesOk, NodeAt, RootOk, Directory, DirAt, Sound;
    OnlyOneNode(st.nodes, st.list, st.files, st.raw, i);
    VolUnlinked(st.bytes, bytes, st.used, st.nodes, name, i);
    assert Kept(st.bytes, bytes, FREE_MAP_SECTOR);
    MarkRemoved(st.nodes, st.list, st.files, st.raw, i);
  }

  lemma MarkRemoved(nodes: map<nat, Inode>, list: seq<nat>, files: map<nat, File>, raw: multiset<nat>, i: nat)
    requires TablesOk(nodes, list, files, raw) && i in nodes
    ensures TablesOk(nodes[i := nodes[i].(removed := true)], list, files, raw)
  {
    var next := nodes[i := nodes[i].(removed := true)];
    forall j | j in next ensures Counted(next[j], files, raw, j) {
      assert Counted(nodes[j], files, raw, j);
    }
  }
}
