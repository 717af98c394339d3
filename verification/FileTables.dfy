/** The in-memory side of the file system: open inodes, open files, and how both
    relate to the device. */
module FileTables {
  import opened Containers
  import opened Bytes
  import opened Devices
  import opened Directories
  import opened Volumes
  import opened FreeMaps

  const ROOT_DIR_SECTOR: nat := 1

  /** An open inode. */
  datatype Inode = Inode(sector: nat, openCnt: nat, removed: bool, denyCnt: nat, data: Extent)

  /** An open file: a handle on an inode. */
  datatype File = File(inode: nat, pos: nat, denying: bool)

  // --------------------------------------------------------------------- tables

  /** The files open on an inode, and those among them that deny writes. */
  ghost function Handles(files: map<nat, File>, i: nat): set<nat> {
    set f | f in files && files[f].inode == i
  }

  ghost function Denying(files: map<nat, File>, i: nat): set<nat> {
    set f | f in files && files[f].inode == i && files[f].denying
  }

  /** An inode's counts: its files plus the references held outside files, and its
      denying files. */
  ghost predicate Counted(node: Inode, files: map<nat, File>, raw: multiset<nat>, i: nat) {
    && 0 < node.openCnt == |Handles(files, i)| + raw[i]
    && node.denyCnt == |Denying(files, i)|
  }

  ghost predicate TablesOk(nodes: map<nat, Inode>, list: seq<nat>, files: map<nat, File>, raw: multiset<nat>) {
    && Distinct(list) && (forall i :: i in list <==> i in nodes)
    && (forall i, j :: i in nodes && j in nodes && nodes[i].sector == nodes[j].sector ==> i == j)
    && (forall f :: f in files ==> files[f].inode in nodes)
    && (forall i :: i in raw ==> i in nodes)
    && (forall i {:trigger Counted(nodes[i], files, raw, i)} :: i in nodes ==> Counted(nodes[i], files, raw, i))
  }

  /** A newly read inode joins the list with one reference. */
  lemma NewNode(nodes: map<nat, Inode>, list: seq<nat>, files: map<nat, File>, raw: multiset<nat>, i: nat, s: nat,
                data: Extent)
    requires TablesOk(nodes, list, files, raw) && i !in nodes
    requires forall j :: j in nodes ==> nodes[j].sector != s
    ensures TablesOk(nodes[i := Inode(s, 1, false, 0, data)], [i] + list, files, raw + multiset{i})
  {
    var next, raw' := nodes[i := Inode(s, 1, false, 0, data)], raw + multiset{i};
    assert Handles(files, i) == {} && Denying(files, i) == {};
    forall j | j in next ensures Counted(next[j], files, raw', j) {
      if j != i { assert Counted(nodes[j], files, raw, j); }
    }
    var l := [i] + list;
    forall a, b | 0 <= a < b < |l| ensures l[a] != l[b] {
      assert l[b] == list[b - 1];
      assert list[b - 1] in nodes;
    }
  }

  /** One more reference to an open inode. */
  lemma OneMore(nodes: map<nat, Inode>, list: seq<nat>, files: map<nat, File>, raw: multiset<nat>, i: nat)
    requires TablesOk(nodes, list, files, raw) && i in nodes
    ensures TablesOk(nodes[i := nodes[i].(openCnt := nodes[i].openCnt + 1)], list, files, raw + multiset{i})
  {
    var next, raw' := nodes[i := nodes[i].(openCnt := nodes[i].openCnt + 1)], raw + multiset{i};
    forall j | j in next ensures Counted(next[j], files, raw', j) {
      assert Counted(nodes[j], files, raw, j);
    }
  }

  /** One reference less, not the last. */
  lemma OneLess(nodes: map<nat, Inode>, list: seq<nat>, files: map<nat, File>, raw: multiset<nat>, i: nat)
    requires TablesOk(nodes, list, files, raw) && i in nodes && i in raw && nodes[i].openCnt > 1
    ensures TablesOk(nodes[i := nodes[i].(openCnt := nodes[i].openCnt - 1)], list, files, raw - multiset{i})
  {
    var next, raw' := nodes[i := nodes[i].(openCnt := nodes[i].openCnt - 1)], raw - multiset{i};
    forall j | j in next ensures Counted(next[j], files, raw', j) {
      assert Counted(nodes[j], files, raw, j);
    }
  }

  /** The last reference goes, and the inode with it: no file is left on it. */
  lemma LastGone(nodes: map<nat, Inode>, list: seq<nat>, files: map<nat, File>, raw: multiset<nat>, i: nat)
    requires TablesOk(nodes, list, files, raw) && i in nodes && i in raw && nodes[i].openCnt == 1
    ensures TablesOk(nodes - {i}, Unlisted(list, i), files, raw - multiset{i})
    ensures Handles(files, i) == {}
  {
    var next, raw' := nodes - {i}, raw - multiset{i};
    UnlistedIs(list, i);
    assert Counted(nodes[i], files, raw, i);
    assert |Handles(files, i)| == 0;
    forall f | f in files ensures files[f].inode in next {
      assert f !in Handles(files, i);
    }
    forall j | j in next ensures Counted(next[j], files, raw', j) {
      assert Counted(nodes[j], files, raw, j);
    }
  }

  /** A file takes over a reference. */
  lemma FileTakes(nodes: map<nat, Inode>, list: seq<nat>, files: map<nat, File>, raw: multiset<nat>, i: nat, f: nat)
    requires TablesOk(nodes, list, files, raw) && i in raw && f !in files
    ensures TablesOk(nodes, list, files[f := File(i, 0, false)], raw - multiset{i})
  {
    var next, raw' := files[f := File(i, 0, false)], raw - multiset{i};
    forall j | j in nodes ensures Counted(nodes[j], next, raw', j) {
      assert Counted(nodes[j], files, raw, j);
      HandleAdded(files, f, i, j);
    }
  }

  lemma HandleAdded(files: map<nat, File>, f: nat, i: nat, j: nat)
    requires f !in files
    ensures
      var next := files[f := File(i, 0, false)];
      && |Handles(next, j)| == |Handles(files, j)| + (if j == i then 1 else 0)
      && Denying(next, j) == Denying(files, j)
  {
    var next := files[f := File(i, 0, false)];
    var was := Handles(files, j);
    assert f !in was;
    if j == i {
      assert Handles(next, j) == was + {f};
    } else {
      assert Handles(next, j) == was;
    }
    assert Denying(next, j) == Denying(files, j);
  }

  /** A file that denies nothing gives its reference up. */
  lemma FileGives(nodes: map<nat, Inode>, list: seq<nat>, files: map<nat, File>, raw: multiset<nat>, f: nat)
    requires TablesOk(nodes, list, files, raw) && f in files && !files[f].denying
    ensures TablesOk(nodes, list, files - {f}, raw + multiset{files[f].inode})
  {
    var i := files[f].inode;
    var next, raw' := files - {f}, raw + multiset{i};
    forall j | j in nodes ensures Counted(nodes[j], next, raw', j) {
      assert Counted(nodes[j], files, raw, j);
      assert Handles(next, j) == Handles(files, j) - {f};
      assert Denying(next, j) == Denying(files, j);
    }
  }

  /** A file starts or stops denying writes. */
  lemma DenyChanges(nodes: map<nat, Inode>, list: seq<nat>, files: map<nat, File>, raw: multiset<nat>, f: nat, on: bool)
    requires TablesOk(nodes, list, files, raw) && f in files && files[f].denying != on
    ensures
      var i := files[f].inode;
      var n := nodes[i];
      && (on ==> n.denyCnt < n.openCnt) && (!on ==> 0 < n.denyCnt <= n.openCnt)
      && TablesOk(nodes[i := n.(denyCnt := if on then n.denyCnt + 1 else n.denyCnt - 1)], list,
                  files[f := files[f].(denying := on)], raw)
  {
    var i := files[f].inode;
    var n := nodes[i];
    var files' := files[f := files[f].(denying := on)];
    assert Counted(n, files, raw, i);
    DenyingWithin(files, f, i);
    var nodes' := nodes[i := n.(denyCnt := if on then n.denyCnt + 1 else n.denyCnt - 1)];
    forall j | j in nodes' ensures Counted(nodes'[j], files', raw, j) {
      assert Counted(nodes[j], files, raw, j);
      DenyingAfter(files, f, on, j);
    }
  }

  lemma DenyingAfter(files: map<nat, File>, f: nat, on: bool, j: nat)
    requires f in files && files[f].denying != on
    ensures
      var next := files[f := files[f].(denying := on)];
      && Handles(next, j) == Handles(files, j)
      && |Denying(next, j)| == |Denying(files, j)| + (if j != files[f].inode then 0 else if on then 1 else -1)
  {
    var next := files[f := files[f].(denying := on)];
    var was, now := Denying(files, j), Denying(next, j);
    assert Handles(next, j) == Handles(files, j);
    if j != files[f].inode {
      assert now == was;
    } else if on {
      assert f !in was && now == was + {f};
    } else {
      assert f in was && now == was - {f};
    }
  }

  lemma DenyingWithin(files: map<nat, File>, f: nat, i: nat)
    requires f in files && files[f].inode == i
    ensures |Denying(files, i)| <= |Handles(files, i)|
    ensures !files[f].denying ==> |Denying(files, i)| < |Handles(files, i)|
    ensures files[f].denying ==> |Denying(files, i)| > 0
  {
    SubsetSize(Denying(files, i), Handles(files, i));
    assert f in Handles(files, i);
    if files[f].denying {
      assert f in Denying(files, i);
    } else {
      SubsetSize(Denying(files, i), Handles(files, i) - {f});
    }
  }

  lemma PosChanges(nodes: map<nat, Inode>, list: seq<nat>, files: map<nat, File>, raw: multiset<nat>, f: nat, pos: nat)
    requires TablesOk(nodes, list, files, raw) && f in files
    ensures TablesOk(nodes, list, files[f := files[f].(pos := pos)], raw)
  {
    var files' := files[f := files[f].(pos := pos)];
    forall j | j in nodes ensures Counted(nodes[j], files', raw, j) {
      assert Counted(nodes[j], files, raw, j);
      assert Handles(files', j) == Handles(files, j) && Denying(files', j) == Denying(files, j);
    }
  }

  // --------------------------------------------------------------------- volume

  ghost predicate RootOk(bytes: seq<Byte>) {
    && 2 * SECTOR_SIZE <= |bytes|
    && DirAt(bytes, NodeAt(bytes, ROOT_DIR_SECTOR).start, NodeAt(bytes, ROOT_DIR_SECTOR).length)
  }

  ghost function RootRows(bytes: seq<Byte>): seq<Row> {
    if RootOk(bytes) then
      RowsAt(bytes, NodeAt(bytes, ROOT_DIR_SECTOR).start, NodeAt(bytes, ROOT_DIR_SECTOR).length)
    else []
  }

  /** The sector of each file name. */
  ghost function Directory(bytes: seq<Byte>): map<seq<Byte>, nat> { Entries(RootRows(bytes)) }

  /** The inodes reachable by name, with the two that the system itself uses. */
  ghost function Named(bytes: seq<Byte>): set<nat> {
    {FREE_MAP_SECTOR, ROOT_DIR_SECTOR} + Directory(bytes).Values
  }

  ghost function OpenSectors(nodes: map<nat, Inode>): set<nat> {
    set i | i in nodes :: nodes[i].sector
  }

  /** The inodes whose sectors must be kept: named or still open. */
  ghost function Live(bytes: seq<Byte>, nodes: map<nat, Inode>): set<nat> {
    Named(bytes) + OpenSectors(nodes)
  }

  /** An open inode holds what its sector says, and is removed just when no name
      leads to it. */
  ghost predicate NodeOk(bytes: seq<Byte>, node: Inode) {
    && SECTOR_SIZE * node.sector + SECTOR_SIZE <= |bytes| && node.data == NodeAt(bytes, node.sector)
    && (node.removed <==> node.sector !in Named(bytes))
  }

  ghost predicate DirectoryOk(d: map<seq<Byte>, nat>) {
    && (forall n :: n in d ==> d[n] >= 2)
    && (forall m, n :: m in d && n in d && d[m] == d[n] ==> m == n)
  }

  ghost predicate VolOk(bytes: seq<Byte>, used: seq<bool>, nodes: map<nat, Inode>) {
    && RootOk(bytes) && Sound(bytes, used, Live(bytes, nodes)) && DirectoryOk(Directory(bytes))
    && (forall i {:trigger NodeOk(bytes, nodes[i])} :: i in nodes ==> NodeOk(bytes, nodes[i]))
  }

  /** The root directory reads the same when its inode and data are kept. */
  lemma RootKept(was: seq<Byte>, now: seq<Byte>)
    requires RootOk(was) && Kept(was, now, ROOT_DIR_SECTOR)
    ensures RootOk(now) && RootRows(now) == RootRows(was)
  {
    var e := NodeAt(was, ROOT_DIR_SECTOR);
    assert Content(now, e.start, e.length) == Content(was, e.start, e.length);
  }

  /** A change that keeps the root directory and every live inode keeps the
      volume. */
  lemma VolStays(was: seq<Byte>, now: seq<Byte>, used: seq<bool>, used': seq<bool>, nodes: map<nat, Inode>)
    requires VolOk(was, used, nodes) && Sound(now, used', Live(was, nodes)) && KeptButMap(was, now, Live(was, nodes))
    ensures VolOk(now, used', nodes) && RootRows(now) == RootRows(was)
  {
    assert ROOT_DIR_SECTOR in Live(was, nodes);
    assert Kept(was, now, ROOT_DIR_SECTOR);
    RootKept(was, now);
    forall i | i in nodes ensures NodeOk(now, nodes[i]) {
      assert NodeOk(was, nodes[i]);
      var s := nodes[i].sector;
      assert s in Live(was, nodes);
      if s != FREE_MAP_SECTOR { assert Kept(was, now, s); }
    }
  }

  /** Writing inside the data of a live file other than the root directory
      changes no other live file. */
  lemma VolWritten(was: seq<Byte>, now: seq<Byte>, used: seq<bool>, nodes: map<nat, Inode>, s: nat)
    requires VolOk(was, used, nodes) && s in Live(was, nodes) && s != ROOT_DIR_SECTOR && Marked(was, used, s)
    requires
      var e := NodeAt(was, s);
      OnlyWithin(was, now, SECTOR_SIZE * e.start, SECTOR_SIZE * e.start + e.length)
    ensures VolOk(now, used, nodes) && RootRows(now) == RootRows(was) && NodeAt(now, s) == NodeAt(was, s)
    ensures forall t {:trigger Kept(was, now, t)} :: t in Live(was, nodes) && t != s ==> Kept(was, now, t)
  {
    var live := Live(was, nodes);
    WriteData(was, now, used, live, s);
    assert ROOT_DIR_SECTOR in live;
    assert Kept(was, now, ROOT_DIR_SECTOR);
    RootKept(was, now);
    forall i | i in nodes ensures NodeOk(now, nodes[i]) {
      assert NodeOk(was, nodes[i]);
      assert nodes[i].sector in live;
      if nodes[i].sector != s { assert Kept(was, now, nodes[i].sector); }
    }
  }

  lemma OpenSectorsHas(nodes: map<nat, Inode>, i: nat)
    requires i in nodes
    ensures nodes[i].sector in OpenSectors(nodes)
  {
  }

  /** Reading in the inode of a named file. */
  lemma VolOpened(bytes: seq<Byte>, used: seq<bool>, nodes: map<nat, Inode>, i: nat, s: nat)
    requires VolOk(bytes, used, nodes) && i !in nodes && s in Named(bytes)
    ensures SECTOR_SIZE * s + SECTOR_SIZE <= |bytes|
    ensures
      var next := nodes[i := Inode(s, 1, false, 0, NodeAt(bytes, s))];
      VolOk(bytes, used, next) && Live(bytes, next) == Live(bytes, nodes)
  {
    assert Marked(bytes, used, s);
    var node := Inode(s, 1, false, 0, NodeAt(bytes, s));
    var next := nodes[i := node];
    OpenSectorsAdd(nodes, i, node);
    assert Live(bytes, next) == Live(bytes, nodes);
    forall j | j in next ensures NodeOk(bytes, next[j]) {
      if j != i { assert NodeOk(bytes, nodes[j]); }
    }
  }

  lemma OpenSectorsAdd(nodes: map<nat, Inode>, i: nat, node: Inode)
    requires i !in nodes
    ensures OpenSectors(nodes[i := node]) == OpenSectors(nodes) + {node.sector}
  {
    var next := nodes[i := node];
    forall x | x in OpenSectors(nodes) ensures x in OpenSectors(next) {
      var j :| j in nodes && nodes[j].sector == x;
      assert next[j].sector == x;
    }
    assert next[i].sector == node.sector;
  }

  /** Changing the counts of an open inode. */
  lemma VolRecounted(bytes: seq<Byte>, used: seq<bool>, nodes: map<nat, Inode>, i: nat, open: nat, deny: nat)
    requires VolOk(bytes, used, nodes) && i in nodes
    ensures
      var next := nodes[i := nodes[i].(openCnt := open, denyCnt := deny)];
      VolOk(bytes, used, next) && Live(bytes, next) == Live(bytes, nodes)
  {
    var next := nodes[i := nodes[i].(openCnt := open, denyCnt := deny)];
    SameSectors(nodes, next);
    forall j | j in next ensures NodeOk(bytes, next[j]) {
      assert NodeOk(bytes, nodes[j]);
    }
  }

  lemma SameSectors(nodes: map<nat, Inode>, next: map<nat, Inode>)
    requires next.Keys == nodes.Keys && forall i :: i in nodes ==> next[i].sector == nodes[i].sector
    ensures OpenSectors(next) == OpenSectors(nodes)
  {
    forall x | x in OpenSectors(nodes) ensures x in OpenSectors(next) {
      var j :| j in nodes && nodes[j].sector == x;
      assert next[j].sector == x;
    }
    forall x | x in OpenSectors(next) ensures x in OpenSectors(nodes) {
      var j :| j in next && next[j].sector == x;
      assert nodes[j].sector == x;
    }
  }

  /** Dropping an open inode: a named file stays live, a removed one does not. */
  lemma VolClosed(bytes: seq<Byte>, used: seq<bool>, nodes: map<nat, Inode>, i: nat)
    requires VolOk(bytes, used, nodes) && i in nodes
    requires forall j :: j in nodes && nodes[j].sector == nodes[i].sector ==> j == i
    ensures VolOk(bytes, used, nodes - {i})
    ensures Live(bytes, nodes - {i})
         == if nodes[i].removed then Live(bytes, nodes) - {nodes[i].sector} else Live(bytes, nodes)
  {
    var next := nodes - {i};
    var s := nodes[i].sector;
    assert NodeOk(bytes, nodes[i]);
    OpenSectorsAdd(next, i, nodes[i]);
    assert next[i := nodes[i]] == nodes;
    assert s !in OpenSectors(next);
    FewerLive(bytes, used, Live(bytes, nodes), Live(bytes, next));
    forall j | j in next ensures NodeOk(bytes, next[j]) {
      assert NodeOk(bytes, nodes[j]);
    }
  }

  /** The root directory's data were rewritten, leaving everything else. */
  lemma RootRewritten(was: seq<Byte>, now: seq<Byte>, used: seq<bool>, live: set<nat>)
    requires RootOk(was) && Sound(was, used, live) && ROOT_DIR_SECTOR in live
    requires
      var e := NodeAt(was, ROOT_DIR_SECTOR);
      && OnlyWithin(was, now, SECTOR_SIZE * e.start, SECTOR_SIZE * e.start + e.length)
      && DirAt(now, e.start, e.length)
    ensures RootOk(now) && Sound(now, used, live) && NodeAt(now, ROOT_DIR_SECTOR) == NodeAt(was, ROOT_DIR_SECTOR)
    ensures forall t {:trigger Kept(was, now, t)} :: t in live && t != ROOT_DIR_SECTOR ==> Kept(was, now, t)
  {
    assert Marked(was, used, ROOT_DIR_SECTOR);
    WriteData(was, now, used, live, ROOT_DIR_SECTOR);
  }

  lemma DirectoryAdd(d: map<seq<Byte>, nat>, name: seq<Byte>, s: nat)
    requires DirectoryOk(d) && name !in d && s >= 2 && s !in d.Values
    ensures DirectoryOk(d[name := s]) && d[name := s].Values == d.Values + {s}
  {
    var e := d[name := s];
    forall x | x in d.Values ensures x in e.Values {
      var n :| n in d && d[n] == x;
      assert e[n] == x;
    }
    assert e[name] == s;
    forall n | n in d ensures d[n] != s {
      assert d[n] in d.Values;
    }
  }

  lemma DirectoryDrop(d: map<seq<Byte>, nat>, name: seq<Byte>)
    requires DirectoryOk(d) && name in d
    ensures DirectoryOk(d - {name}) && (d - {name}).Values == d.Values - {d[name]} && d[name] in d.Values
  {
    var e := d - {name};
    forall x | x in d.Values - {d[name]} ensures x in e.Values {
      var n :| n in d && d[n] == x;
      assert e[n] == x;
    }
  }

  /** Open inodes still hold what their sectors say. */
  lemma NodesFollow(was: seq<Byte>, now: seq<Byte>, nodes: map<nat, Inode>, live: set<nat>)
    requires RootOk(was) && RootOk(now) && |now| == |was| && OpenSectors(nodes) <= live
    requires forall i {:trigger NodeOk(was, nodes[i])} :: i in nodes ==> NodeOk(was, nodes[i])
    requires forall t {:trigger Kept(was, now, t)} :: t in live && t != ROOT_DIR_SECTOR ==> Kept(was, now, t)
    requires NodeAt(now, ROOT_DIR_SECTOR) == NodeAt(was, ROOT_DIR_SECTOR)
    ensures forall i {:trigger nodes[i]} :: i in nodes ==>
      && SECTOR_SIZE * nodes[i].sector + SECTOR_SIZE <= |now| && nodes[i].data == NodeAt(now, nodes[i].sector)
      && nodes[i].sector in live
      && (nodes[i].removed <==> nodes[i].sector !in Named(was))
  {
    forall i | i in nodes
      ensures SECTOR_SIZE * nodes[i].sector + SECTOR_SIZE <= |now| && nodes[i].data == NodeAt(now, nodes[i].sector)
      ensures nodes[i].sector in live
      ensures nodes[i].removed <==> nodes[i].sector !in Named(was)
    {
      assert NodeOk(was, nodes[i]);
      OpenSectorsHas(nodes, i);
      var t := nodes[i].sector;
      if t != ROOT_DIR_SECTOR { assert Kept(was, now, t); }
    }
  }

  /** A new name for a ready inode makes it live. */
  lemma VolLinked(was: seq<Byte>, now: seq<Byte>, used: seq<bool>, nodes: map<nat, Inode>, name: seq<Byte>, s: nat)
    requires VolOk(was, used, nodes) && Ready(was, used, Live(was, nodes), s) && s >= 2 && name !in Directory(was)
    requires RootOk(now) && Directory(now) == Directory(was)[name := s]
    requires
      var e := NodeAt(was, ROOT_DIR_SECTOR);
      && OnlyWithin(was, now, SECTOR_SIZE * e.start, SECTOR_SIZE * e.start + e.length)
      && DirAt(now, e.start, e.length)
    ensures VolOk(now, used, nodes) && Live(now, nodes) == Live(was, nodes) + {s} && s !in Live(was, nodes)
    ensures forall t {:trigger Kept(was, now, t)} :: t in Live(now, nodes) && t != ROOT_DIR_SECTOR ==> Kept(was, now, t)
  {
    hide Directory, RootOk, DirAt, NodeAt, Kept;
    var live := Live(was, nodes);
    assert s !in live by {
      assert Owns(was, s, s);
      assert Spare(was, live, s);
    }
    JoinLive(was, used, live, s);
    RootRewritten(was, now, used, live + {s});
    DirectoryAdd(Directory(was), name, s);
    assert Live(now, nodes) == live + {s};
    NodesFollow(was, now, nodes, live);
    forall i | i in nodes ensures NodeOk(now, nodes[i]) {
      assert nodes[i].sector != s;
    }
  }

  lemma DropOpen(named: set<nat>, open: set<nat>, s: nat)
    requires s in open
    ensures (named - {s}) + open == named + open
  {
  }

  /** Taking away the name of an open inode leaves it live, as a removed one. */
  lemma VolUnlinked(was: seq<Byte>, now: seq<Byte>, used: seq<bool>, nodes: map<nat, Inode>, name: seq<Byte>, i: nat)
    requires VolOk(was, used, nodes) && name in Directory(was)
    requires i in nodes && nodes[i].sector == Directory(was)[name]
    requires forall j :: j in nodes && nodes[j].sector == nodes[i].sector ==> j == i
    requires RootOk(now) && Directory(now) == Directory(was) - {name}
    requires
      var e := NodeAt(was, ROOT_DIR_SECTOR);
      && OnlyWithin(was, now, SECTOR_SIZE * e.start, SECTOR_SIZE * e.start + e.length)
      && DirAt(now, e.start, e.length)
    ensures
      var next := nodes[i := nodes[i].(removed := true)];
      VolOk(now, used, next) && Live(now, next) == Live(was, nodes)
    ensures forall t {:trigger Kept(was, now, t)} :: t in Live(was, nodes) && t != ROOT_DIR_SECTOR ==> Kept(was, now, t)
  {
    hide Directory, RootOk, DirAt, NodeAt, Kept;
    var live := Live(was, nodes);
    var next := nodes[i := nodes[i].(removed := true)];
    var s := nodes[i].sector;
    RootRewritten(was, now, used, live);
    DirectoryDrop(Directory(was), name);
    SameSectors(nodes, next);
    OpenSectorsHas(nodes, i);
    assert Named(now) == Named(was) - {s};
    DropOpen(Named(was), OpenSectors(nodes), s);
    NodesFollow(was, now, nodes, live);
    forall j | j in next ensures NodeOk(now, next[j]) {
      assert j != i ==> nodes[j].sector != s;
    }
  }
}
